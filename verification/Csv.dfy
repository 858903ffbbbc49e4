/**
 csv.c and include/str.h: the tokenizer that cuts a text buffer into rows and columns by
 overwriting delimiters with NUL bytes.  Pointers into the buffer are indices into `buf`.
 */
module Csv {
  import opened Bytes

  const NUL: byte := 0
  const LF: byte := 10
  const CR: byte := 13
  const COMMA: byte := 44
  const BOM: seq<byte> := [0xef, 0xbb, 0xbf]
  const EOL: seq<byte> := [CR, LF]

  type Field = seq<byte>
  type Row = seq<Field>

  // ---------------------------------------------------------------- reference definitions

  /** The pieces of s between delimiters, empty pieces included. */
  function Split(s: seq<byte>, delims: seq<byte>): (parts: seq<seq<byte>>)
    ensures |parts| >= 1
  {
    if s == [] then [[]]
    else if s[0] in delims then [[]] + Split(s[1..], delims)
    else
      var rest := Split(s[1..], delims);
      [[s[0]] + rest[0]] + rest[1..]
  }

  function NonEmpty(parts: seq<seq<byte>>): seq<seq<byte>> {
    if parts == [] then []
    else if parts[0] == [] then NonEmpty(parts[1..])
    else [parts[0]] + NonEmpty(parts[1..])
  }

  function Take<T>(s: seq<T>, n: nat): seq<T> {
    if |s| <= n then s else s[..n]
  }

  /** What one line yields: its first n comma-separated fields, or nothing if it has no comma. */
  function Fields(line: seq<byte>, n: nat): Row {
    if COMMA in line then Take(Split(line, [COMMA]), n) else []
  }

  function FieldsOfLines(lines: seq<seq<byte>>, n: nat): seq<Row> {
    if lines == [] then [] else [Fields(lines[0], n)] + FieldsOfLines(lines[1..], n)
  }

  /** Buffer b holds the NUL-terminated string f at index p. */
  predicate Holds(b: seq<byte>, p: nat, f: seq<byte>) {
    && p + |f| < |b|
    && b[p + |f|] == NUL
    && forall k :: 0 <= k < |f| ==> b[p + k] == f[k] != NUL
  }

  predicate Stop(c: byte, delims: seq<byte>) { c == NUL || c in delims }

  /** First index from s on that holds NUL or a delimiter, capped at lim. */
  function FirstStop(b: seq<byte>, s: nat, lim: nat, delims: seq<byte>): (r: nat)
    requires s <= lim < |b|
    ensures s <= r <= lim
    ensures forall k :: s <= k < r ==> !Stop(b[k], delims)
    ensures r < lim ==> Stop(b[r], delims)
    decreases lim - s
  {
    if s == lim || Stop(b[s], delims) then s else FirstStop(b, s + 1, lim, delims)
  }

  /** FirstStop is the only index with its property. */
  lemma FirstStopUnique(b: seq<byte>, s: nat, lim: nat, delims: seq<byte>, r: nat)
    requires s <= r <= lim < |b|
    requires forall k :: s <= k < r ==> !Stop(b[k], delims)
    requires r < lim ==> Stop(b[r], delims)
    ensures r == FirstStop(b, s, lim, delims)
  {
    var q := FirstStop(b, s, lim, delims);
  }

  function SkipEol(b: seq<byte>, i: nat, end: nat): (j: nat)
    requires i <= end < |b| && b[end] == NUL
    ensures i <= j <= end && b[j] !in EOL
    ensures forall k :: i <= k < j ==> b[k] in EOL
    decreases end - i
  {
    if b[i] in EOL then SkipEol(b, i + 1, end) else i
  }

  /** The rows the parser reports from index i on, for any content before the final NUL. */
  function RowsFrom(b: seq<byte>, i: nat, end: nat, n: nat): seq<Row>
    requires end < |b| && b[end] == NUL
    decreases end + 1 - i
  {
    if i > end || b[i] == NUL then []
    else
      var j := SkipEol(b, i, end);
      var e := FirstStop(b, j, end, EOL);
      if e == j then RowsFrom(b, e + 1, end, n)
      else if b[e] == NUL then [Fields(b[j..e], n)]
      else [Fields(b[j..e], n)] + RowsFrom(b, e + 1, end, n)
  }

  function AfterBom(b: seq<byte>): (i: nat) {
    if BOM <= b then 3 else 0
  }

  // ---------------------------------------------------------------- include/str.h

  method StrNChrNul(buf: array<byte>, s: nat, max: nat, c: byte) returns (r: nat)
    requires s + max <= buf.Length
    ensures max == 0 ==> r == s
    ensures max > 0 ==> r == FirstStop(buf[..], s, s + max - 1, [c])
  {
    if max == 0 { return s; }
    var i := 0;
    while i < max && buf[s + i] != NUL && buf[s + i] != c
      invariant 0 <= i <= max
      invariant forall k :: s <= k < s + i ==> !Stop(buf[k], [c])
    {
      i := i + 1;
    }
    if i == max { i := i - 1; }
    FirstStopUnique(buf[..], s, s + max - 1, [c], s + i);
    return s + i;
  }

  /**
   One token.  Returns whether the token is valid, the token's start and the delimiter that ended
   it; the delimiter itself is overwritten with NUL.
   */
  method StrNToken(buf: array<byte>, str: nat, max: nat, delims: seq<byte>, token: Option<nat>, state: byte)
    returns (valid: bool, token': Option<nat>, state': byte)
    requires str + max <= buf.Length && NUL !in delims
    modifies buf
    ensures max == 0 ==> !valid && token' == token && state' == state && buf[..] == old(buf[..])
    ensures max > 0 ==>
      var end := FirstStop(old(buf[..]), str, str + max - 1, delims);
      && token' == Some(str)
      && if old(buf[end]) in delims
         then valid && state' == old(buf[end]) && buf[..] == old(buf[..])[end := NUL]
         else && state' == state && buf[..] == old(buf[..])
              && valid == ((token.Some? && state in delims) ||
                           (token.None? && max == 1 && old(buf[str]) == NUL))
  {
    hide FirstStop;
    if max == 0 { return false, token, state; }
    var tokend := str + max - 1;
    var isDelim, stateIsDelim := false, token.None? && max == 1 && buf[str] == NUL;
    ghost var special := stateIsDelim;
    for d := 0 to |delims|
      invariant buf[..] == old(buf[..])
      invariant str <= tokend < str + max
      invariant tokend == if d == 0 then str + max - 1 else FirstStop(buf[..], str, str + max - 1, delims[..d])
      invariant isDelim == (buf[tokend] in delims[..d])
      invariant stateIsDelim == (special || (token.Some? && state in delims[..d]))
    {
      if token.Some? && delims[d] == state { stateIsDelim := true; }
      var tmp := StrNChrNul(buf, str, max, delims[d]);
      assert delims[..d + 1] == delims[..d] + [delims[d]];
      if tmp < tokend { tokend := tmp; }
      FirstStopUnique(buf[..], str, str + max - 1, delims[..d + 1], tokend);
      if buf[tokend] == delims[d] { isDelim := true; }
    }
    assert delims[..|delims|] == delims;
    if isDelim {
      state' := buf[tokend];
      buf[tokend] := NUL;
      return true, Some(str), state';
    }
    return stateIsDelim, Some(str), state;
  }

  // ---------------------------------------------------------------- csv.c

  /** A text without NUL splits at its first comma. */
  lemma {:induction false} SplitAt(s: seq<byte>, k: nat, delims: seq<byte>)
    requires k <= |s|
    requires forall i :: 0 <= i < k ==> s[i] !in delims
    requires k < |s| ==> s[k] in delims
    ensures k == |s| ==> Split(s, delims) == [s]
    ensures k < |s| ==> Split(s, delims) == [s[..k]] + Split(s[k + 1..], delims)
  {
    if k > 0 {
      SplitAt(s[1..], k - 1, delims);
      assert k == |s| ==> [s[0]] + s[1..] == s;
      assert k < |s| ==> s[1..][..k - 1] == s[1..k] && [s[0]] + s[1..k] == s[..k] && s[1..][k..] == s[k + 1..];
    }
  }

  method StrLen(buf: array<byte>, p: nat, ghost f: seq<byte>) returns (len: nat)
    requires Holds(buf[..], p, f)
    ensures len == |f|
  {
    assert forall k :: 0 <= k < |f| ==> buf[p + k] == f[k] != NUL;
    len := 0;
    while buf[p + len] != NUL
      invariant len <= |f|
      invariant len < |f| ==> buf[p + len] == f[len] != NUL
      decreases |f| - len
    {
      len := len + 1;
    }
  }

  /** Cutting b at the first comma of b[next..e] leaves the first field as a string at next. */
  lemma FirstColumn(b: seq<byte>, next: nat, e: nat, cut: nat)
    requires next <= e < |b| && b[e] == NUL && NUL !in b[next..e]
    requires cut == FirstStop(b, next, e, [COMMA])
    ensures (cut < e) == (COMMA in b[next..e]) && (cut < e ==> b[cut] == COMMA)
    ensures Holds(b[cut := NUL], next, b[next..cut])
    ensures cut == e ==> b[cut := NUL] == b
    ensures Split(b[next..e], [COMMA]) == [b[next..cut]] + if cut == e then [] else Split(b[cut + 1..e], [COMMA])
  {
    var text := b[next..e];
    assert forall k :: next <= k < e ==> b[k] == text[k - next];
    assert forall k :: 0 <= k < cut - next ==> text[k] == b[next + k];
    SplitAt(text, cut - next, [COMMA]);
    assert text[..cut - next] == b[next..cut];
    if cut < e { assert text[cut - next + 1..] == b[cut + 1..e]; }
  }

  /** One turn of the column loop: the token, and how far to advance past it. */
  method NextColumn(buf: array<byte>, next: nat, rest: nat, token: Option<nat>, state: byte)
    returns (valid: bool, token': Option<nat>, state': byte, len: nat)
    requires rest > 0 && next + rest <= buf.Length
    requires buf[next + rest - 1] == NUL && NUL !in buf[next..next + rest - 1]
    requires if token.None? then rest > 1 else state == COMMA
    modifies buf
    ensures var b, e := old(buf[..]), next + rest - 1; var cut := FirstStop(b, next, e, [COMMA]);
      && valid == (token.Some? || cut < e)
      && (valid ==> token'.Some? && state' == COMMA && len == cut - next)
      && buf[..] == if valid then b[cut := NUL] else b
  {
    len := 0;
    ghost var b, e := buf[..], next + rest - 1;
    ghost var cut := FirstStop(b, next, e, [COMMA]);
    assert b[next..e] == buf[next..e];
    FirstColumn(b, next, e, cut);
    valid, token', state' := StrNToken(buf, next, rest, [COMMA], token, state);
    if valid {
      len := StrLen(buf, next, b[next..cut]);
    }
  }

  /** What the column loop keeps: b is the line's original buffer, b' the current one. */
  ghost predicate Columns(b: seq<byte>, b': seq<byte>, line: nat, next: nat, e: nat, columns: seq<nat>, done: seq<Field>) {
    && line <= next <= e + 1 <= |b| == |b'|
    && (forall k :: 0 <= k < line || next <= k < |b| ==> b'[k] == b[k])
    && (forall k :: line <= k < next ==> b'[k] == b[k] || (b'[k] == NUL && b[k] == COMMA))
    && |columns| == |done|
    && forall k :: 0 <= k < |columns| ==>
        line <= columns[k] && columns[k] + |done[k]| < next && Holds(b', columns[k], done[k])
  }

  lemma ColumnsStep(b: seq<byte>, b': seq<byte>, line: nat, next: nat, e: nat, columns: seq<nat>, done: seq<Field>, cut: nat)
    requires Columns(b, b', line, next, e, columns, done)
    requires next <= e && b[e] == NUL && NUL !in b[line..e]
    requires cut == FirstStop(b, next, e, [COMMA])
    ensures Columns(b, b'[cut := NUL], line, cut + 1, e, columns + [next], done + [b[next..cut]])
    ensures Split(b[next..e], [COMMA]) == [b[next..cut]] + if cut == e then [] else Split(b[cut + 1..e], [COMMA])
    ensures (cut < e) == (COMMA in b[next..e])
  {
    hide FirstStop, Split;
    assert b[next..e] == b[line..e][next - line..];
    FirstColumn(b, next, e, cut);
    ColumnsCut(b, b', line, next, e, columns, done, cut);
  }

  lemma ColumnsCut(b: seq<byte>, b': seq<byte>, line: nat, next: nat, e: nat, columns: seq<nat>, done: seq<Field>, cut: nat)
    requires Columns(b, b', line, next, e, columns, done)
    requires next <= cut <= e && (b[cut] == COMMA || b[cut] == NUL)
    requires Holds(b[cut := NUL], next, b[next..cut])
    ensures Columns(b, b'[cut := NUL], line, cut + 1, e, columns + [next], done + [b[next..cut]])
  {
    var b'' := b'[cut := NUL];
    var columns', done' := columns + [next], done + [b[next..cut]];
    forall k | 0 <= k < |columns'|
      ensures line <= columns'[k] && columns'[k] + |done'[k]| < cut + 1 && Holds(b'', columns'[k], done'[k])
    {
      if k < |columns| { assert columns'[k] == columns[k] && done'[k] == done[k]; }
    }
  }

  lemma FirstStopSame(b: seq<byte>, b': seq<byte>, s: nat, lim: nat, delims: seq<byte>)
    requires s <= lim < |b| == |b'|
    requires forall k :: s <= k < |b| ==> b'[k] == b[k]
    ensures FirstStop(b, s, lim, delims) == FirstStop(b', s, lim, delims)
  {
    FirstStopUnique(b, s, lim, delims, FirstStop(b', s, lim, delims));
  }

  function RestOf(b: seq<byte>, next: nat, e: nat): seq<Field>
    requires next <= e + 1 && e < |b|
  {
    if next > e then [] else Split(b[next..e], [COMMA])
  }

  /** Columns so far are the leading fields of the line, and what is left of the text splits into the others. */
  ghost predicate LineState(b: seq<byte>, b': seq<byte>, line: nat, next: nat, e: nat, columns: seq<nat>) {
    && line <= next <= e + 1 <= |b| && line <= e
    && var parts := Split(b[line..e], [COMMA]);
       && |columns| <= |parts|
       && Columns(b, b', line, next, e, columns, parts[..|columns|])
       && parts[|columns|..] == RestOf(b, next, e)
  }

  lemma LineStep(b: seq<byte>, b': seq<byte>, line: nat, next: nat, e: nat, columns: seq<nat>, cut: nat)
    requires LineState(b, b', line, next, e, columns)
    requires next <= e && b[e] == NUL && NUL !in b[line..e]
    requires cut == FirstStop(b, next, e, [COMMA])
    ensures LineState(b, b'[cut := NUL], line, cut + 1, e, columns + [next])
    ensures cut == FirstStop(b', next, e, [COMMA])
    ensures NUL !in b'[next..e] && b'[e] == NUL
    ensures cut < e ==> COMMA in b[line..e]
    ensures cut == e && next == line ==> COMMA !in b[line..e]
  {
    var parts := Split(b[line..e], [COMMA]);
    var m := |columns|;
    FirstStopSame(b, b', next, e, [COMMA]);
    ColumnsStep(b, b', line, next, e, columns, parts[..m], cut);
    assert parts[m] == b[next..cut] by { assert parts[m] == parts[m..][0]; }
    assert parts[..m] + [b[next..cut]] == parts[..m + 1];
    assert parts[m + 1..] == parts[m..][1..];
    assert b'[next..e] == b[line..e][next - line..] == b[next..e];
  }

  lemma LineDone(b: seq<byte>, b': seq<byte>, line: nat, next: nat, e: nat, columns: seq<nat>, n: nat)
    requires LineState(b, b', line, next, e, columns)
    requires |columns| == |Fields(b[line..e], n)|
    ensures Columns(b, b', line, e + 1, e, columns, Fields(b[line..e], n))
  {
    assert Split(b[line..e], [COMMA])[..|columns|] == Fields(b[line..e], n);
  }

  lemma LineStart(b: seq<byte>, line: nat, e: nat)
    requires line <= e < |b|
    ensures LineState(b, b, line, line, e, [])
  {
  }

  /** One turn of the column loop on a line whose original text is b[line..e]. */
  method ColumnTurn(buf: array<byte>, next: nat, rest: nat, token: Option<nat>, state: byte,
                    ghost b: seq<byte>, ghost line: nat, ghost columns: seq<nat>)
    returns (valid: bool, token': Option<nat>, state': byte, len: nat)
    requires rest > 0 && LineState(b, buf[..], line, next, next + rest - 1, columns)
    requires b[next + rest - 1] == NUL && NUL !in b[line..next + rest - 1]
    requires if token.None? then next == line && rest > 1 else state == COMMA
    modifies buf
    ensures next + rest <= |b|
    ensures token.None? ==> valid == (COMMA in b[line..next + rest - 1])
    ensures token.Some? ==> valid
    ensures valid ==> token'.Some? && state' == COMMA && len < rest
    ensures if valid then LineState(b, buf[..], line, next + len + 1, next + rest - 1, columns + [next])
            else LineState(b, buf[..], line, next, next + rest - 1, columns)
  {
    ghost var b', e := buf[..], next + rest - 1;
    ghost var cut := FirstStop(b, next, e, [COMMA]);
    LineStep(b, b', line, next, e, columns, cut);
    assert b'[next..e] == buf[next..e];
    valid, token', state', len := NextColumn(buf, next, rest, token, state);
    assert buf[..] == if valid then b'[cut := NUL] else b';
  }

  /** Cut one line into columns; `columns` are the start indices of the populated ones. */
  method ParseCsvLine(buf: array<byte>, line: nat, max: nat, n: nat) returns (columns: seq<nat>)
    requires 1 < max && line + max <= buf.Length
    requires buf[line + max - 1] == NUL && NUL !in buf[line..line + max - 1]
    modifies buf
    ensures Columns(old(buf[..]), buf[..], line, line + max, line + max - 1, columns,
                    Fields(old(buf[line..line + max - 1]), n))
  {
    var next: nat, rest: nat := line, max;
    ghost var b, e := buf[..], line + max - 1;
    assert buf[line..e] == b[line..e];
    ghost var fields := |Fields(b[line..e], n)|;
    var token, state, valid := None, NUL, true;
    columns := [];
    LineStart(b, line, e);
    var i := 0;
    while i < n
      invariant i <= n && rest == e + 1 - next
      invariant LineState(b, buf[..], line, next, e, columns)
      invariant i > 0 && valid ==> token.Some? && state == COMMA && COMMA in b[line..e]
      invariant i == 0 ==> valid && next == line && token == None
      invariant valid ==> |columns| == i
      invariant !valid ==> |columns| == fields
    {
      if valid && rest == 0 {
        valid, token, state := StrNToken(buf, next, rest, [COMMA], token, state);
        assert |columns| == fields;
      } else if valid {
        var len;
        valid, token, state, len := ColumnTurn(buf, next, rest, token, state, b, line, columns);
        if valid {
          columns := columns + [next];
          next, rest := next + len + 1, rest - (len + 1);
        }
      }
      i := i + 1;
    }
    LineDone(b, buf[..], line, next, e, columns, n);
  }

  lemma SkipEolUnique(b: seq<byte>, i: nat, end: nat, j: nat)
    requires i <= j <= end < |b| && b[end] == NUL && b[j] !in EOL
    requires forall k :: i <= k < j ==> b[k] in EOL
    ensures j == SkipEol(b, i, end)
  {
    var q := SkipEol(b, i, end);
  }

  /** Skip the delimiters of the previous line. */
  method SkipDelimiters(buf: array<byte>, from: nat, end: nat) returns (line: nat, max: nat)
    requires from < end < buf.Length && buf[end] == NUL
    ensures line == SkipEol(buf[..], from, end) && max == end + 1 - line
  {
    line, max := from, end - from + 1;
    var found := true;
    while max > 0 && found
      invariant from <= line <= end && max == end + 1 - line
      invariant forall k :: from <= k < line ==> buf[k] in EOL
      invariant !found ==> buf[line] !in EOL
      decreases max, found
    {
      ghost var max0 := max;
      found := false;
      var d := 0;
      while max > 0 && d < |EOL|
        invariant d <= |EOL| && from <= line <= end && max == end + 1 - line
        invariant forall k :: from <= k < line ==> buf[k] in EOL
        invariant !found ==> buf[line] !in EOL[..d]
        invariant max < max0 || (!found && max == max0)
        decreases |EOL| - d
      {
        if buf[line] == EOL[d] {
          line, max, found := line + 1, max - 1, true;
        }
        d := d + 1;
      }
    }
    SkipEolUnique(buf[..], from, end, line);
  }

  /** First of CR, LF or NUL from line on: the minimum over the two single-delimiter scans. */
  method FindLineEnd(buf: array<byte>, line: nat, max: nat, dataEnd: nat) returns (end: nat)
    requires line <= dataEnd < buf.Length && buf[dataEnd] == NUL
    requires max == if line < dataEnd then dataEnd - line + 1 else 0
    ensures end == FirstStop(buf[..], line, dataEnd, EOL)
  {
    end := dataEnd;
    for d := 0 to |EOL|
      invariant line <= end <= dataEnd
      invariant d > 0 ==> forall k :: line <= k < end ==> !Stop(buf[k], EOL[..d])
      invariant end < dataEnd ==> Stop(buf[end], EOL)
      invariant d > 0 ==> Stop(buf[end], EOL)
    {
      var tmp := StrNChrNul(buf, line, max, EOL[d]);
      if tmp < end { end := tmp; }
    }
    FirstStopUnique(buf[..], line, dataEnd, EOL, end);
  }

  ghost predicate RowHolds(b: seq<byte>, columns: seq<nat>, row: Row, lim: nat) {
    && |columns| == |row|
    && forall k :: 0 <= k < |row| ==> columns[k] + |row[k]| < lim && Holds(b, columns[k], row[k])
  }

  /** Every reported pointer leads to the NUL-terminated text of its field. */
  ghost predicate RowsHold(b: seq<byte>, rows: seq<seq<nat>>, expected: seq<Row>, lim: nat) {
    && |rows| == |expected|
    && forall r :: 0 <= r < |rows| ==> RowHolds(b, rows[r], expected[r], lim)
  }

  /** Only separators are overwritten, and only with NUL. */
  ghost predicate OnlySeparatorsCut(b: seq<byte>, b': seq<byte>) {
    && |b| == |b'|
    && forall k :: 0 <= k < |b| ==> b'[k] == b[k] || (b'[k] == NUL && b[k] in [COMMA, CR, LF])
  }

  lemma RowsHoldFrame(b: seq<byte>, b': seq<byte>, rows: seq<seq<nat>>, expected: seq<Row>, lim: nat, lim': nat)
    requires RowsHold(b, rows, expected, lim) && lim <= lim' && |b| == |b'|
    requires forall k :: 0 <= k < lim && k < |b| ==> b'[k] == b[k]
    ensures RowsHold(b', rows, expected, lim')
  {
    forall r | 0 <= r < |rows| ensures RowHolds(b', rows[r], expected[r], lim') {
      assert RowHolds(b, rows[r], expected[r], lim);
    }
  }

  /** What the line loop keeps: rows found so far, their strings all below `line`, the rest untouched. */
  ghost predicate DataState(b: seq<byte>, b': seq<byte>, line: nat, rows: seq<seq<nat>>, expected: seq<Row>) {
    && OnlySeparatorsCut(b, b')
    && RowsHold(b', rows, expected, line)
    && forall k :: line <= k < |b| ==> b'[k] == b[k]
  }

  /** Cutting the line end and then the line's commas keeps DataState, with one more row. */
  lemma DataStep(b: seq<byte>, b': seq<byte>, b'': seq<byte>, start: nat, line: nat, e: nat,
                 rows: seq<seq<nat>>, expected: seq<Row>, columns: seq<nat>, row: Row)
    requires DataState(b, b', start, rows, expected)
    requires start <= line <= e < |b| && Stop(b[e], EOL)
    requires Columns(b'[e := NUL], b'', line, e + 1, e, columns, row)
    ensures DataState(b, b'', e + 1, rows + [columns], expected + [row])
  {
    RowsHoldFrame(b', b'', rows, expected, start, e + 1);
    assert RowHolds(b'', columns, row, e + 1);
    forall k | 0 <= k < |b| ensures b''[k] == b[k] || (b''[k] == NUL && b[k] in [COMMA, CR, LF]) {
      assert b''[k] == b'[e := NUL][k] || (b''[k] == NUL && b'[e := NUL][k] == COMMA);
    }
  }

  lemma DataSkip(b: seq<byte>, b': seq<byte>, start: nat, e: nat, rows: seq<seq<nat>>, expected: seq<Row>)
    requires DataState(b, b', start, rows, expected)
    requires start <= e < |b| && Stop(b[e], EOL)
    ensures DataState(b, b'[e := NUL], e + 1, rows, expected)
  {
    RowsHoldFrame(b', b'[e := NUL], rows, expected, start, e + 1);
  }

  /** The scans see the same text in the working buffer as in the original one. */
  lemma ScansAgree(b: seq<byte>, b': seq<byte>, line: nat, end: nat)
    requires line <= end < |b| == |b'| && b[end] == NUL
    requires forall k :: line <= k < |b| ==> b'[k] == b[k]
    ensures
      var j := SkipEol(b, line, end);
      && j == SkipEol(b', line, end)
      && FirstStop(b, j, end, EOL) == FirstStop(b', j, end, EOL)
      && Stop(b[FirstStop(b, j, end, EOL)], EOL)
      && NUL !in b[j..FirstStop(b, j, end, EOL)]
  {
    var j := SkipEol(b, line, end);
    SkipEolUnique(b', line, end, j);
    FirstStopSame(b, b', j, end, EOL);
    var e := FirstStop(b, j, end, EOL);
    forall k | 0 <= k < |b[j..e]| ensures b[j..e][k] != NUL { assert !Stop(b[j + k], EOL); }
  }

  lemma RowsFromStep(b: seq<byte>, i: nat, end: nat, n: nat)
    requires i <= end < |b| && b[end] == NUL && b[i] != NUL
    ensures
      var j := SkipEol(b, i, end);
      var e := FirstStop(b, j, end, EOL);
      RowsFrom(b, i, end, n) ==
        (if e == j then [] else [Fields(b[j..e], n)]) + if e > j && b[e] == NUL then [] else RowsFrom(b, e + 1, end, n)
  {
  }

  lemma RowsFromDone(b: seq<byte>, i: nat, end: nat, n: nat)
    requires end < |b| && b[end] == NUL && (i > end || b[i] == NUL)
    ensures RowsFrom(b, i, end, n) == []
  {
  }

  /** The rows found so far and those still to come make up the whole result. */
  ghost predicate Accounted(b: seq<byte>, start: nat, line: nat, end: nat, n: nat, expected: seq<Row>, eof: bool)
    requires end < |b| && b[end] == NUL
  {
    expected + (if eof then [] else RowsFrom(b, line, end, n)) == RowsFrom(b, start, end, n)
  }

  lemma AccountStep(b: seq<byte>, start: nat, from: nat, end: nat, n: nat, expected: seq<Row>)
    requires from <= end < |b| && b[end] == NUL && b[from] != NUL
    requires Accounted(b, start, from, end, n, expected, false)
    ensures
      var j := SkipEol(b, from, end);
      var e := FirstStop(b, j, end, EOL);
      if e == j then Accounted(b, start, e + 1, end, n, expected, false)
      else Accounted(b, start, e + 1, end, n, expected + [Fields(b[j..e], n)], b[e] == NUL)
  {
    hide RowsFrom;
    RowsFromStep(b, from, end, n);
    var j := SkipEol(b, from, end);
    var e := FirstStop(b, j, end, EOL);
    var row := [Fields(b[j..e], n)];
    var rest := if e > j && b[e] == NUL then [] else RowsFrom(b, e + 1, end, n);
    assert expected + (row + rest) == (expected + row) + rest;
  }

  /** One turn of the line loop: whether it found a line, whether that was the last, its columns, where to go on. */
  method ParseNextLine(buf: array<byte>, from: nat, end: nat, n: nat,
                       ghost b: seq<byte>, ghost rows: seq<seq<nat>>, ghost expected: seq<Row>)
    returns (found: bool, eof: bool, columns: seq<nat>, next: nat)
    requires from < end < buf.Length && |b| == buf.Length && b[end] == NUL
    requires DataState(b, buf[..], from, rows, expected)
    modifies buf
    ensures
      var j := SkipEol(b, from, end);
      var e := FirstStop(b, j, end, EOL);
      && next == e + 1 && found == (e != j) && eof == (found && b[e] == NUL)
      && if found then DataState(b, buf[..], next, rows + [columns], expected + [Fields(b[j..e], n)])
         else DataState(b, buf[..], next, rows, expected)
  {
    hide FirstStop, SkipEol, Fields, RowsHold, RowHolds, Columns, OnlySeparatorsCut;
    ghost var b' := buf[..];
    ScansAgree(b, b', from, end);
    var line, max := SkipDelimiters(buf, from, end);
    var e := FindLineEnd(buf, line, if end > line then max else 0, end);
    max := e - line + if e > line then 1 else 0;
    eof := buf[e] == NUL;
    buf[e] := NUL;
    assert buf[..] == b'[e := NUL];
    if line == end || max == 0 {
      DataSkip(b, b', from, e, rows, expected);
      return false, false, [], e + 1;
    }
    assert buf[line..e] == b[line..e];
    columns := ParseCsvLine(buf, line, max, n);
    DataStep(b, b', buf[..], from, line, e, rows, expected, columns, Fields(b[line..e], n));
    return true, eof, columns, e + 1;
  }

  /**
   Parse the text buf[..end], whose NUL sits at `end`, into rows of at most n columns.  Each row
   is the list of its columns' start indices; rows are appended to `list`.
   */
  method ParseCsvData(buf: array<byte>, end: nat, n: nat, list: seq<seq<nat>>)
    returns (ok: bool, list': seq<seq<nat>>)
    requires end < buf.Length && buf[end] == NUL
    modifies buf
    ensures ok == (end > 0 && n > 0)
    ensures !ok ==> list' == list && buf[..] == old(buf[..])
    ensures ok ==>
      && list <= list'
      && RowsHold(buf[..], list'[|list|..], RowsFrom(old(buf[..]), AfterBom(old(buf[..])), end, n), buf.Length)
    ensures OnlySeparatorsCut(old(buf[..]), buf[..])
  {
    hide RowsFrom;
    if end == 0 || n == 0 { return false, list; }
    ghost var b := buf[..];
    var rows: seq<seq<nat>>, line: nat, max: nat := [], 0, end + 1;
    if buf[..if max < 3 then max else 3] == BOM[..if max < 3 then max else 3] { line := line + 3; }
    ghost var start := line;
    ghost var expected: seq<Row> := [];
    var eof := false;
    while !eof && line <= end && buf[line] != NUL
      invariant line <= end + 1 && start <= line
      invariant DataState(b, buf[..], line, rows, expected)
      invariant Accounted(b, start, line, end, n, expected, eof)
      decreases end + 1 - line
    {
      AccountStep(b, start, line, end, n, expected);
      ghost var from := line;
      var found, columns;
      found, eof, columns, line := ParseNextLine(buf, line, end, n, b, rows, expected);
      if found {
        rows, expected := rows + [columns], expected + [Fields(b[SkipEol(b, from, end)..line - 1], n)];
      }
    }
    if !eof { RowsFromDone(b, line, end, n); }
    assert expected == RowsFrom(b, start, end, n);
    RowsHoldFrame(buf[..], buf[..], rows, expected, line, buf.Length);
    list' := list + rows;
    return true, list';
  }
}
