/** sbat.c, verification half: parsed entries, generations and the accept/reject decision. */
module Sbat {
  import opened Bytes
  import opened Csv

  const SECTION_COLUMNS := 6
  const LEVEL_COLUMNS := 3
  const LEVEL_REQUIRED := 2

  datatype SectionEntry = SectionEntry(name: Field, generation: Field, vendor: Field, package: Field,
                                       version: Field, url: Field)
  datatype LevelEntry = LevelEntry(name: Field, generation: Field, datestamp: Option<Field>)

  // ---------------------------------------------------------------- numbers

  predicate IsDigit(c: byte) { 48 <= c <= 57 }

  function DigitValue(c: byte): nat
    requires IsDigit(c)
  {
    c as int - 48
  }

  /** Value of a string of decimal digits. */
  function Decimal(s: seq<byte>): nat
    requires forall k :: 0 <= k < |s| ==> IsDigit(s[k])
  {
    if s == [] then 0 else 10 * Decimal(s[..|s| - 1]) + DigitValue(s[|s| - 1])
  }

  function Pad(s: seq<byte>): seq<byte> {
    if s != [] && s[0] in [32, 9] then Pad(s[1..]) else s
  }

  /** The longest leading run of digits. */
  function Digits(s: seq<byte>): (d: seq<byte>)
    ensures forall k :: 0 <= k < |d| ==> IsDigit(d[k])
    ensures d <= s && (|d| < |s| ==> !IsDigit(s[|d|]))
  {
    if s == [] || !IsDigit(s[0]) then [] else [s[0]] + Digits(s[1..])
  }

  /** The generation number the comparison uses: the leading decimal, kept in 16 bits. */
  function Generation(f: Field): nat {
    Decimal(Digits(Pad(f))) % 0x10000
  }

  lemma {:induction false} DecimalZero(z: seq<byte>, s: seq<byte>)
    requires forall k :: 0 <= k < |z| ==> z[k] == 48
    requires forall k :: 0 <= k < |s| ==> IsDigit(s[k])
    ensures Decimal(z + s) == Decimal(s)
    decreases |z| + |s|
  {
    if s != [] {
      DecimalZero(z, s[..|s| - 1]);
      assert (z + s)[..|z + s| - 1] == z + s[..|s| - 1];
    } else if z != [] {
      assert z + s == z;
      DecimalZero(z[..|z| - 1], []);
      assert z[..|z| - 1] + [] == z[..|z| - 1];
    }
  }

  const UINTN_RANGE := 0x1_0000_0000_0000_0000

  lemma AccumulateMod(x: nat, d: nat, m: nat)
    requires m > 0
    ensures ((x % m) * 10 + d) % m == (10 * x + d) % m
  {
    var q, r := x / m, x % m;
    var q', r' := (r * 10 + d) / m, (r * 10 + d) % m;
    assert 10 * x + d == (10 * q + q') * m + r' by {
      assert x == q * m + r && r * 10 + d == q' * m + r';
      assert 10 * (q * m) == (10 * q) * m;
      assert (10 * q) * m + q' * m == (10 * q + q') * m;
    }
    ModUnique(10 * x + d, m, 10 * q + q', r');
  }

  lemma TruncateTwice(x: nat)
    ensures (x % UINTN_RANGE) % 0x10000 == x % 0x10000
  {
    var q, r := x / UINTN_RANGE, x % UINTN_RANGE;
    ModUnique(x, 0x10000, q * 0x1_0000_0000_0000 + r / 0x10000, r % 0x10000);
  }

  lemma {:induction false} PadDrops(s: seq<byte>, i: nat)
    requires i <= |s| && forall k :: 0 <= k < i ==> s[k] in [32, 9]
    requires i < |s| ==> s[i] !in [32, 9]
    ensures Pad(s) == s[i..]
  {
    if i > 0 {
      PadDrops(s[1..], i - 1);
      assert s[1..][i - 1..] == s[i..];
    }
  }

  lemma {:induction false} DigitsAre(s: seq<byte>, n: nat)
    requires n <= |s| && forall k :: 0 <= k < n ==> IsDigit(s[k])
    requires n < |s| ==> !IsDigit(s[n])
    ensures Digits(s) == s[..n]
  {
    if n > 0 {
      DigitsAre(s[1..], n - 1);
      assert [s[0]] + s[1..][..n - 1] == s[..n];
    }
  }

  lemma DecimalSnoc(s: seq<byte>, c: byte)
    requires IsDigit(c) && forall k :: 0 <= k < |s| ==> IsDigit(s[k])
    ensures Decimal(s + [c]) == 10 * Decimal(s) + DigitValue(c)
  {
    assert (s + [c])[..|s|] == s;
  }

  /** What scanning pads, zeros and digits in turn leaves: the value of all the digits. */
  lemma ScannedGeneration(s: Field, first: nat, zeros: nat, end: nat)
    requires first <= zeros <= end <= |s|
    requires forall k :: 0 <= k < first ==> s[k] in [32, 9]
    requires first < |s| ==> s[first] !in [32, 9]
    requires forall k :: first <= k < zeros ==> s[k] == 48
    requires forall k :: zeros <= k < end ==> IsDigit(s[k])
    requires end < |s| ==> !IsDigit(s[end])
    ensures Generation(s) == Decimal(s[zeros..end]) % 0x10000
  {
    hide Pad, Digits, Decimal;
    PadDrops(s, first);
    DigitsFrom(s, first, zeros, end);
    DecimalZero(s[first..zeros], s[zeros..end]);
  }

  /** The zeros and digits behind the pads are one run of digits. */
  lemma DigitsFrom(s: Field, first: nat, zeros: nat, end: nat)
    requires first <= zeros <= end <= |s|
    requires forall k :: first <= k < zeros ==> s[k] == 48
    requires forall k :: zeros <= k < end ==> IsDigit(s[k])
    requires end < |s| ==> !IsDigit(s[end])
    ensures Digits(s[first..]) == s[first..zeros] + s[zeros..end]
  {
    hide Digits;
    var t := s[first..];
    forall k | 0 <= k < end - first ensures IsDigit(t[k]) { assert t[k] == s[first + k]; }
    DigitsAre(t, end - first);
    assert t[..end - first] == s[first..zeros] + s[zeros..end];
  }

  /** AsciiStrDecimalToUintn, whose UINTN result the caller stores in a UINT16. */
  method Atoi16(s: Field) returns (r: nat)
    ensures r == Generation(s)
  {
    hide Decimal, Generation;
    var i := 0;
    while i < |s| && s[i] in [32, 9]
      invariant i <= |s| && forall k :: 0 <= k < i ==> s[k] in [32, 9]
    {
      i := i + 1;
    }
    ghost var first := i;
    while i < |s| && s[i] == 48
      invariant first <= i <= |s| && forall k :: first <= k < i ==> s[k] == 48
    {
      i := i + 1;
    }
    ghost var zeros := i;
    var result := 0;
    DecimalEmpty();
    assert s[zeros..zeros] == [];
    while i < |s| && IsDigit(s[i])
      invariant zeros <= i <= |s| && forall k :: zeros <= k < i ==> IsDigit(s[k])
      invariant result == Decimal(s[zeros..i]) % UINTN_RANGE
    {
      AccumulateMod(Decimal(s[zeros..i]), DigitValue(s[i]), UINTN_RANGE);
      DecimalSnoc(s[zeros..i], s[i]);
      assert s[zeros..i] + [s[i]] == s[zeros..i + 1];
      result := (result * 10 + DigitValue(s[i])) % UINTN_RANGE;
      i := i + 1;
    }
    ScannedGeneration(s, first, zeros, i);
    TruncateTwice(Decimal(s[zeros..i]));
    r := result % 0x10000;
  }

  lemma DecimalEmpty()
    ensures Decimal([]) == 0
  {
  }

  // ---------------------------------------------------------------- parsing

  predicate RowComplete(row: Row, required: nat) {
    |row| >= required && forall k :: 0 <= k < |row| ==> row[k] != []
  }

  predicate AllComplete(rows: seq<Row>, required: nat) {
    forall r :: 0 <= r < |rows| ==> RowComplete(rows[r], required)
  }

  /** Section rows as entries, or nothing when a row is short or has an empty column. */
  function SectionEntries(rows: seq<Row>): (r: Option<seq<SectionEntry>>)
    requires forall k :: 0 <= k < |rows| ==> |rows[k]| <= SECTION_COLUMNS
    ensures r.Some? <==> AllComplete(rows, SECTION_COLUMNS)
    ensures r.Some? ==> |r.value| == |rows|
  {
    if AllComplete(rows, SECTION_COLUMNS) then
      Some(seq(|rows|, k requires 0 <= k < |rows| =>
        assert RowComplete(rows[k], SECTION_COLUMNS);
        SectionEntry(rows[k][0], rows[k][1], rows[k][2], rows[k][3], rows[k][4], rows[k][5])))
    else None
  }

  function LevelEntries(rows: seq<Row>): (r: Option<seq<LevelEntry>>)
    requires forall k :: 0 <= k < |rows| ==> |rows[k]| <= LEVEL_COLUMNS
    ensures r.Some? <==> AllComplete(rows, LEVEL_REQUIRED)
    ensures r.Some? ==> |r.value| == |rows|
  {
    if AllComplete(rows, LEVEL_REQUIRED) then
      Some(seq(|rows|, k requires 0 <= k < |rows| =>
        assert RowComplete(rows[k], LEVEL_REQUIRED);
        LevelEntry(rows[k][0], rows[k][1], if |rows[k]| > 2 then Some(rows[k][2]) else None)))
    else None
  }

  // ---------------------------------------------------------------- the decision

  /** The first revocation line for a component name. */
  function FirstMatch(level: seq<LevelEntry>, name: Field): (r: Option<nat>)
    ensures r.Some? ==> r.value < |level| && level[r.value].name == name
    ensures r.Some? ==> forall k :: 0 <= k < r.value ==> level[k].name != name
    ensures r.None? ==> forall k :: 0 <= k < |level| ==> level[k].name != name
  {
    if level == [] then None
    else if level[0].name == name then Some(0)
    else match FirstMatch(level[1..], name) case None => None case Some(k) => Some(k + 1)
  }

  /** An entry passes when its generation reaches that of the first line with its name. */
  predicate Passes(entry: SectionEntry, level: seq<LevelEntry>) {
    var m := FirstMatch(level, entry.name);
    m.Some? ==> Generation(entry.generation) >= Generation(level[m.value].generation)
  }

  predicate Accepted(entries: seq<SectionEntry>, level: seq<LevelEntry>) {
    forall k :: 0 <= k < |entries| ==> Passes(entries[k], level)
  }

  /** One entry against one line. */
  method VerifySingleEntry(entry: SectionEntry, line: LevelEntry) returns (ok: bool, found: bool)
    ensures found == (entry.name == line.name)
    ensures ok == (found ==> Generation(entry.generation) >= Generation(line.generation))
  {
    if entry.name == line.name {
      var have := Atoi16(entry.generation);
      var need := Atoi16(line.generation);
      return have >= need, true;
    }
    return true, false;
  }

  lemma FirstMatchAt(level: seq<LevelEntry>, name: Field, k: nat)
    requires k < |level| && level[k].name == name
    requires forall j :: 0 <= j < k ==> level[j].name != name
    ensures FirstMatch(level, name) == Some(k)
  {
  }

  /** Every entry against the level, stopping at the first violation. */
  method VerifySbatHelper(level: seq<LevelEntry>, entries: seq<SectionEntry>) returns (ok: bool)
    ensures ok == Accepted(entries, level)
  {
    if level == [] { return true; }
    for i := 0 to |entries|
      invariant forall k :: 0 <= k < i ==> Passes(entries[k], level)
    {
      var found, j := false, 0;
      while j < |level| && !found
        invariant j <= |level|
        invariant !found ==> forall k :: 0 <= k < j ==> level[k].name != entries[i].name
        invariant found ==> Passes(entries[i], level)
      {
        ok, found := VerifySingleEntry(entries[i], level[j]);
        if found { FirstMatchAt(level, entries[i].name, j); }
        if !ok { return false; }
        j := j + 1;
      }
    }
    return true;
  }

  // ---------------------------------------------------------------- what raising a level does

  predicate SameNames(a: seq<LevelEntry>, b: seq<LevelEntry>) {
    |a| == |b| && forall k :: 0 <= k < |a| ==> a[k].name == b[k].name
  }

  predicate IsFirst(level: seq<LevelEntry>, k: nat) {
    k < |level| && forall j :: 0 <= j < k ==> level[j].name != level[k].name
  }

  /** Level b accepts no image that level a rejects. */
  ghost predicate Tighter(a: seq<LevelEntry>, b: seq<LevelEntry>) {
    forall entries: seq<SectionEntry> :: Accepted(entries, b) ==> Accepted(entries, a)
  }

  lemma SameFirstMatch(a: seq<LevelEntry>, b: seq<LevelEntry>, name: Field)
    requires SameNames(a, b)
    ensures FirstMatch(a, name) == FirstMatch(b, name)
  {
    var m := FirstMatch(a, name);
    if m.Some? { FirstMatchAt(b, name, m.value); }
  }

  /**
   Between two levels with the same names in the same order, b is tighter than a exactly when every
   line that is the first with its name has, as a 16-bit number, at least the generation it has in a.
   */
  lemma TighterIff(a: seq<LevelEntry>, b: seq<LevelEntry>)
    requires SameNames(a, b)
    ensures Tighter(a, b) <==>
      forall k :: 0 <= k < |a| && IsFirst(a, k) ==> Generation(a[k].generation) <= Generation(b[k].generation)
  {
    if Tighter(a, b) {
      forall k | 0 <= k < |a| && IsFirst(a, k)
        ensures Generation(a[k].generation) <= Generation(b[k].generation)
      {
        var probe := SectionEntry(a[k].name, b[k].generation, [], [], [], []);
        FirstMatchAt(a, a[k].name, k);
        FirstMatchAt(b, a[k].name, k);
        assert Passes(probe, b);
        assert Accepted([probe], b);
        assert Accepted([probe], a);
        assert Passes([probe][0], a);
      }
    }
    if forall k :: 0 <= k < |a| && IsFirst(a, k) ==> Generation(a[k].generation) <= Generation(b[k].generation) {
      forall entries: seq<SectionEntry> | Accepted(entries, b) ensures Accepted(entries, a) {
        forall i | 0 <= i < |entries| ensures Passes(entries[i], a) {
          SameFirstMatch(a, b, entries[i].name);
          assert Passes(entries[i], b);
          var m := FirstMatch(a, entries[i].name);
          if m.Some? { assert IsFirst(a, m.value); }
        }
      }
    }
  }

  /** Generations wrap at 16 bits: raising "65535" to "65536" lets revoked images back in. */
  lemma RaisingPastSixteenBitsLoosens()
    ensures
      var name: Field := [115];
      var low := [LevelEntry(name, [54, 53, 53, 51, 53], None)];
      var high := [LevelEntry(name, [54, 53, 53, 51, 54], None)];
      var image := [SectionEntry(name, [49], [118], [112], [49], [117])];
      !Accepted(image, low) && Accepted(image, high)
  {
    hide Generation, FirstMatch;
    var name: Field := [115];
    var low := [LevelEntry(name, [54, 53, 53, 51, 53], None)];
    var high := [LevelEntry(name, [54, 53, 53, 51, 54], None)];
    var image := SectionEntry(name, [49], [118], [112], [49], [117]);
    GenerationOfFive(6, 5, 5, 3, 5);
    GenerationOfFive(6, 5, 5, 3, 6);
    GenerationOfOne();
    FirstMatchAt(low, name, 0);
    FirstMatchAt(high, name, 0);
    assert !Passes([image][0], low);
    assert Passes([image][0], high);
  }

  lemma GenerationOfOne()
    ensures Generation([49]) == 1
  {
    DigitsAll([49]);
  }

  lemma GenerationOfFive(a: nat, b: nat, c: nat, d: nat, e: nat)
    requires 1 <= a <= 9 && b <= 9 && c <= 9 && d <= 9 && e <= 9
    ensures Generation([a + 48, b + 48, c + 48, d + 48, e + 48]) ==
      (10000 * a + 1000 * b + 100 * c + 10 * d + e) % 0x10000
  {
    var s: Field := [a + 48, b + 48, c + 48, d + 48, e + 48];
    DigitsAll(s);
    assert s[..4] == [a + 48, b + 48, c + 48, d + 48];
    assert s[..4][..3] == [a + 48, b + 48, c + 48];
    assert s[..4][..3][..2] == [a + 48, b + 48];
    assert s[..4][..3][..2][..1] == [a + 48];
    assert Decimal([a + 48]) == a;
    assert Decimal([a + 48, b + 48]) == 10 * a + b;
    assert Decimal([a + 48, b + 48, c + 48]) == 100 * a + 10 * b + c;
    assert Decimal([a + 48, b + 48, c + 48, d + 48]) == 1000 * a + 100 * b + 10 * c + d;
  }

  lemma {:induction false} DigitsAll(s: seq<byte>)
    requires forall k :: 0 <= k < |s| ==> IsDigit(s[k])
    ensures Digits(s) == s && Pad(s) == s
  {
    if s != [] { DigitsAll(s[1..]); }
  }
}
