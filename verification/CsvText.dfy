/** What csv.c's rows mean: the comma fields of the nonempty lines, and the print/parse round trip. */
module CsvText {
  import opened Bytes
  import opened Csv

  lemma {:induction false} SkippedLinesAreEmpty(b: seq<byte>, i: nat, end: nat)
    requires i <= end < |b| && b[end] == NUL
    ensures NonEmpty(Split(b[i..end], EOL)) == NonEmpty(Split(b[SkipEol(b, i, end)..end], EOL))
    decreases end - i
  {
    if b[i] in EOL {
      SkippedLinesAreEmpty(b, i + 1, end);
      assert b[i..end][1..] == b[i + 1..end];
    }
  }

  /** On a text whose only NUL is its terminator, the rows are the fields of its nonempty lines. */
  lemma {:induction false} RowsAreNonEmptyLines(b: seq<byte>, i: nat, end: nat, n: nat)
    requires i <= end < |b| && b[end] == NUL && NUL !in b[i..end]
    ensures RowsFrom(b, i, end, n) == FieldsOfLines(NonEmpty(Split(b[i..end], EOL)), n)
    decreases end - i
  {
    hide *;
    FieldsOfNone(n);
    if i == end {
      RowsFromDone(b, i, end, n);
      assert b[i..end] == [];
    } else {
      assert b[i] == b[i..end][0] != NUL;
      var j := SkipEol(b, i, end);
      var e := FirstStop(b, j, end, EOL);
      SkippedLinesAreEmpty(b, i, end);
      assert b[j..end] == b[i..end][j - i..];
      FirstLine(b, j, end);
      RowsFromStep(b, i, end, n);
      if e < end {
        assert b[e + 1..end] == b[i..end][e + 1 - i..];
        RowsAreNonEmptyLines(b, e + 1, end, n);
      } else {
        RowsFromDone(b, e + 1, end, n);
      }
      if e > j {
        FieldsOfCons(b[j..e], if e == end then [] else NonEmpty(Split(b[e + 1..end], EOL)), n);
      }
    }
  }

  lemma FieldsOfNone(n: nat)
    ensures FieldsOfLines([], n) == [] && NonEmpty(Split([], EOL)) == []
  {
  }

  lemma FieldsOfCons(line: seq<byte>, rest: seq<seq<byte>>, n: nat)
    ensures FieldsOfLines([line] + rest, n) == [Fields(line, n)] + FieldsOfLines(rest, n)
  {
    assert ([line] + rest)[1..] == rest;
  }

  /** The first line of a NUL-free text that does not start with CR or LF. */
  lemma FirstLine(b: seq<byte>, j: nat, end: nat)
    requires j <= end < |b| && b[end] == NUL && NUL !in b[j..end] && b[j] !in EOL
    ensures
      var e := FirstStop(b, j, end, EOL);
      && (b[e] == NUL <==> e == end) && (e == j ==> e == end)
      && NonEmpty(Split(b[j..end], EOL)) ==
         (if e == j then [] else [b[j..e]]) + if e == end then [] else NonEmpty(Split(b[e + 1..end], EOL))
  {
    hide Split, FirstStop, NonEmpty;
    var text, e := b[j..end], FirstStop(b, j, end, EOL);
    assert forall k :: j <= k < e ==> !Stop(b[k], EOL);
    assert forall k :: 0 <= k < |text| ==> text[k] == b[j + k];
    if e < end { assert text[e - j] == b[e]; }
    SplitAt(text, e - j, EOL);
    assert text[..e - j] == b[j..e];
    if e < end { assert text[e - j + 1..] == b[e + 1..end]; }
    NonEmptyCons(b[j..e], if e == end then [] else Split(b[e + 1..end], EOL));
    if e == end {
      assert [b[j..e]] + [] == [text];
      NonEmptyCons(b[j..e], []);
    }
  }

  lemma NonEmptyCons(p: seq<byte>, rest: seq<seq<byte>>)
    ensures NonEmpty([]) == []
    ensures NonEmpty([p] + rest) == (if p == [] then [] else [p]) + NonEmpty(rest)
  {
    assert ([p] + rest)[1..] == rest;
  }

  predicate Clean(f: Field) {
    forall k :: 0 <= k < |f| ==> f[k] !in [NUL, COMMA, CR, LF]
  }

  predicate Printable(row: Row, n: nat) {
    2 <= |row| <= n && forall k :: 0 <= k < |row| ==> Clean(row[k])
  }

  function Join(row: Row): seq<byte> {
    if row == [] then []
    else if |row| == 1 then row[0]
    else row[0] + [COMMA] + Join(row[1..])
  }

  function PrintRows(rows: seq<Row>): seq<byte> {
    if rows == [] then [] else Join(rows[0]) + [LF] + PrintRows(rows[1..])
  }

  lemma {:induction false} SplitJoin(row: Row)
    requires row != [] && forall k :: 0 <= k < |row| ==> Clean(row[k])
    ensures Split(Join(row), [COMMA]) == row
    ensures |row| > 1 ==> COMMA in Join(row)
    ensures forall k :: 0 <= k < |Join(row)| ==> Join(row)[k] !in [NUL, CR, LF]
  {
    hide Split;
    var s, f := Join(row), row[0];
    assert forall k :: 0 <= k < |f| ==> f[k] !in [NUL, COMMA, CR, LF] by { assert Clean(f); }
    if |row| == 1 {
      SplitAt(s, |f|, [COMMA]);
      assert row == [f];
    } else {
      var rest := row[1..];
      assert forall k :: 0 <= k < |rest| ==> rest[k] == row[k + 1];
      SplitJoin(rest);
      JoinParts(f, Join(rest));
      SplitAt(s, |f|, [COMMA]);
      assert row == [f] + rest;
    }
  }

  lemma JoinParts(f: Field, rest: seq<byte>)
    ensures
      var s := f + [COMMA] + rest;
      && s[..|f|] == f && s[|f|] == COMMA && s[|f| + 1..] == rest && COMMA in s
      && (forall k :: 0 <= k < |f| ==> s[k] == f[k])
      && forall k :: 0 <= k < |s| ==> s[k] in f || s[k] == COMMA || s[k] in rest
  {
  }

  lemma {:induction false} SplitPrinted(rows: seq<Row>, n: nat)
    requires forall r :: 0 <= r < |rows| ==> Printable(rows[r], n)
    ensures FieldsOfLines(NonEmpty(Split(PrintRows(rows), EOL)), n) == rows
    ensures NUL !in PrintRows(rows)
  {
    hide Join, Split, NonEmpty, FieldsOfLines, Fields;
    if rows == [] {
      FieldsOfNone(n);
    } else {
      var s, line, rest := PrintRows(rows), Join(rows[0]), rows[1..];
      assert Printable(rows[0], n);
      SplitJoin(rows[0]);
      PrintedFields(rows[0], n);
      assert forall r :: 0 <= r < |rest| ==> rest[r] == rows[r + 1];
      SplitPrinted(rest, n);
      assert s[..|line|] == line && s[|line|] == LF && s[|line| + 1..] == PrintRows(rest);
      assert forall k :: 0 <= k < |line| ==> s[k] == line[k];
      SplitAt(s, |line|, EOL);
      NonEmptyCons(line, Split(PrintRows(rest), EOL));
      FieldsOfCons(line, NonEmpty(Split(PrintRows(rest), EOL)), n);
    }
  }

  lemma PrintedFields(row: Row, n: nat)
    requires Printable(row, n)
    ensures Join(row) != [] && Fields(Join(row), n) == row
  {
    hide Join, Split;
    SplitJoin(row);
  }

  function Printed(rows: seq<Row>): (b: seq<byte>)
    ensures |b| > 0 && b[|b| - 1] == NUL
  {
    PrintRows(rows) + [NUL]
  }

  lemma PrintThenParse(rows: seq<Row>, n: nat)
    requires forall r :: 0 <= r < |rows| ==> Printable(rows[r], n)
    ensures var b := Printed(rows); RowsFrom(b, 0, |b| - 1, n) == rows
  {
    hide PrintRows, Split, NonEmpty, FieldsOfLines, RowsFrom, Printable;
    var b := Printed(rows);
    SplitPrinted(rows, n);
    assert b[0..|b| - 1] == PrintRows(rows);
    RowsAreNonEmptyLines(b, 0, |b| - 1, n);
  }

  /** Rows whose first field begins with the byte order mark lose it. */
  lemma ParseDropsBom(rows: seq<Row>, n: nat)
    requires rows != [] && forall r :: 0 <= r < |rows| ==> Printable(rows[r], n)
    requires BOM <= Printed(rows)
    ensures var b := Printed(rows); RowsFrom(b, 3, |b| - 1, n) != rows
  {
    var b := Printed(rows);
    assert Printable(rows[0], n);
    var f := rows[0][0];
    assert f + [COMMA] <= b;
    assert b[|f|] == COMMA;
    var rows' := [[f[3..]] + rows[0][1..]] + rows[1..];
    assert Clean(f[3..]) by { assert Clean(f); }
    forall r | 0 <= r < |rows'| ensures Printable(rows'[r], n) {
      if r > 0 { assert rows'[r] == rows[r]; } else { PrintableTail(rows[0], f[3..], n); }
    }
    SplitPrinted(rows', n);
    PrintedTail(rows, rows');
    assert b[3..|b| - 1] == PrintRows(rows');
    RowsAreNonEmptyLines(b, 3, |b| - 1, n);
    assert rows'[0][0] != f;
  }

  lemma PrintableTail(row: Row, f: Field, n: nat)
    requires Printable(row, n) && Clean(f)
    ensures Printable([f] + row[1..], n)
  {
    var row' := [f] + row[1..];
    forall k | 0 <= k < |row'| ensures Clean(row'[k]) {
      if k > 0 { assert row'[k] == row[k]; }
    }
  }

  lemma PrintedTail(rows: seq<Row>, rows': seq<Row>)
    requires rows != [] && |rows[0]| >= 2 && |rows[0][0]| >= 3
    requires rows' == [[rows[0][0][3..]] + rows[0][1..]] + rows[1..]
    ensures |PrintRows(rows)| >= 3 && PrintRows(rows') == PrintRows(rows)[3..]
  {
    assert rows'[0][1..] == rows[0][1..] && rows'[1..] == rows[1..];
    assert Join(rows'[0]) == Join(rows[0])[3..];
  }

  /**
   Printing rows of two to n delimiter-free fields and parsing the text gives the rows back exactly
   when the text does not happen to begin with the UTF-8 byte order mark, which the parser drops.
   */
  lemma PrintParseRoundTrip(rows: seq<Row>, n: nat)
    requires rows != [] && forall r :: 0 <= r < |rows| ==> Printable(rows[r], n)
    ensures var b := Printed(rows); (RowsFrom(b, AfterBom(b), |b| - 1, n) == rows) <==> !(BOM <= b)
  {
    PrintThenParse(rows, n);
    if BOM <= Printed(rows) { ParseDropsBom(rows, n); }
  }
}
