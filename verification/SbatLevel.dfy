/** sbat.c, storage half: when the stored SbatLevel is kept, and how it moves across boots. */
module SbatLevel {
  import opened Bytes
  import opened Csv
  import opened Sbat

  const SIG: seq<byte> := [115, 98, 97, 116, 44]
  const ORIGINAL: seq<byte> := SIG + [49, 44] + [50, 48, 50, 49, 48, 51, 48, 50, 49, 56] + [10]
  const DATE_LEN := 10

  const POLICY_LATEST: byte := 1
  const POLICY_AUTOMATIC: byte := 2
  const POLICY_NOTREAD: byte := 255

  const NV_BS := 3
  const NV_BS_TIMEAUTH := 0x23

  // ---------------------------------------------------------------- string scans

  function Head(s: seq<byte>): byte { if s == [] then 0 else s[0] }

  /** strncmp on NUL-terminated strings (a string's end stands for its NUL). */
  function StrNCmp(a: seq<byte>, b: seq<byte>, len: nat): int {
    if len == 0 then 0
    else if Head(a) == 0 || Head(a) != Head(b) then Head(a) as int - Head(b) as int
    else StrNCmp(a[1..], b[1..], len - 1)
  }

  /** Start of the field n commas further on, or the end of the string. */
  function FieldFrom(s: seq<byte>, n: nat, i: nat): (r: nat)
    requires i <= |s|
    ensures i <= r <= |s|
    decreases |s| - i
  {
    if n == 0 || i == |s| || s[i] == NUL then i
    else FieldFrom(s, if s[i] == COMMA then n - 1 else n, i + 1)
  }

  method NthSbatField(s: seq<byte>, n: nat) returns (r: nat)
    ensures r == FieldFrom(s, n, 0)
  {
    var left := n;
    r := 0;
    while r < |s| && s[r] != NUL
      invariant r <= |s| && FieldFrom(s, left, r) == FieldFrom(s, n, 0)
      decreases |s| - r
    {
      if left == 0 { return; }
      if s[r] == COMMA { left := left - 1; }
      r := r + 1;
    }
  }

  // ---------------------------------------------------------------- keep or overwrite

  predicate AttributesOk(attrs: nat) { attrs == NV_BS || attrs == NV_BS_TIMEAUTH }

  /** A C int used as a size_t. */
  function AsSize(n: int): nat
    requires n >= -1
  {
    if n >= 0 then n else 0xffff_ffff_ffff_ffff
  }

  function VersionLength(s: seq<byte>): (n: int)
    ensures n >= -1
  {
    FieldFromMonotone(s, 1, 2, 0);
    FieldFrom(s, 2, 0) - FieldFrom(s, 1, 0) - 1
  }

  lemma {:induction false} FieldFromMonotone(s: seq<byte>, m: nat, n: nat, i: nat)
    requires m <= n && i <= |s|
    ensures FieldFrom(s, m, i) <= FieldFrom(s, n, i)
    decreases |s| - i
  {
    if m > 0 && i < |s| && s[i] != NUL {
      FieldFromMonotone(s, if s[i] == COMMA then m - 1 else m, if s[i] == COMMA then n - 1 else n, i + 1);
    }
  }

  /** The stored level is left alone. */
  predicate Preserved(current: seq<byte>, attrs: nat, candidate: seq<byte>) {
    && AttributesOk(attrs) && |current| >= |ORIGINAL| && StrNCmp(current, SIG, |SIG|) == 0
    && var have, want := VersionLength(current), VersionLength(candidate);
       || have > want
       || (have == want && StrNCmp(current[FieldFrom(current, 1, 0)..], candidate[FieldFrom(candidate, 1, 0)..], AsSize(want)) > 0)
       || StrNCmp(current[FieldFrom(current, 2, 0)..], candidate[FieldFrom(candidate, 2, 0)..], DATE_LEN) >= 0
  }

  method PreserveSbatUefiVariable(current: seq<byte>, attrs: nat, candidate: seq<byte>) returns (keep: bool)
    ensures keep == Preserved(current, attrs, candidate)
  {
    if !AttributesOk(attrs) || |current| < |ORIGINAL| || StrNCmp(current, SIG, |SIG|) != 0 { return false; }
    var currentVersion: int := NthSbatField(current, 1);
    var newVersion: int := NthSbatField(candidate, 1);
    var currentDate: int := NthSbatField(current, 2);
    var newDate: int := NthSbatField(candidate, 2);
    FieldFromMonotone(candidate, 1, 2, 0);
    var currentLen: int, newLen: int := currentDate - currentVersion - 1, newDate - newVersion - 1;
    if currentLen > newLen ||
       (currentLen == newLen && StrNCmp(current[currentVersion..], candidate[newVersion..], AsSize(newLen)) > 0)
    {
      return true;
    }
    if StrNCmp(current[currentDate..], candidate[newDate..], DATE_LEN) >= 0 { return true; }
    return false;
  }

  // ---------------------------------------------------------------- levels as numbers

  /** A level's text: "sbat,<version>,<datestamp>" and a line end, then the revocation lines. */
  datatype Level = Level(version: seq<byte>, date: seq<byte>, lines: seq<byte>) {
    predicate Shaped() {
      && version != [] && (forall k :: 0 <= k < |version| ==> IsDigit(version[k]))
      && |date| == DATE_LEN && (forall k :: 0 <= k < |date| ==> IsDigit(date[k]))
      && NUL !in lines
    }

    /** No leading zeros in the version. */
    predicate Valid() { Shaped() && (|version| > 1 ==> version[0] != 48) }

    function Text(): seq<byte> { SIG + version + [COMMA] + date + [LF] + lines }

    function Version(): nat requires Shaped() { Decimal(version) }

    function Date(): nat requires Shaped() { Decimal(date) }
  }

  function Pow10(n: nat): (p: nat)
    ensures p >= 1
  {
    if n == 0 then 1 else 10 * Pow10(n - 1)
  }

  lemma {:induction false} Pow10Monotone(m: nat, n: nat)
    requires m <= n
    ensures Pow10(m) <= Pow10(n)
    decreases n
  {
    if m < n { Pow10Monotone(m, n - 1); }
  }

  lemma TenTimes(d: nat, p: nat)
    ensures 10 * (d * p) == d * (10 * p)
  {
  }

  lemma DigitIsSmall(c: byte)
    requires IsDigit(c)
    ensures DigitValue(c) < 10
  {
  }

  lemma {:induction false} DecimalFront(c: byte, s: seq<byte>)
    requires IsDigit(c) && forall k :: 0 <= k < |s| ==> IsDigit(s[k])
    ensures Decimal([c] + s) == DigitValue(c) * Pow10(|s|) + Decimal(s)
    ensures Decimal(s) < Pow10(|s|)
  {
    hide Decimal, DigitValue;
    var one: seq<byte> := [c];
    if s != [] {
      var t, last := s[..|s| - 1], s[|s| - 1];
      DecimalFront(c, t);
      assert s == t + [last] && one + s == (one + t) + [last];
      DecimalSnoc(t, last);
      DecimalSnoc(one + t, last);
      DigitIsSmall(last);
      TenTimes(DigitValue(c), Pow10(|t|));
    } else {
      assert one + s == one && [] + one == one;
      DecimalEmpty();
      DecimalSnoc([], c);
    }
  }

  /** On digit strings of one length, comparing characters compares values. */
  lemma {:induction false} LexIsNumeric(a: seq<byte>, b: seq<byte>, x: seq<byte>, y: seq<byte>)
    requires |a| == |b|
    requires forall k :: 0 <= k < |a| ==> IsDigit(a[k]) && IsDigit(b[k])
    ensures StrNCmp(a + x, b + y, |a|) > 0 <==> Decimal(a) > Decimal(b)
    ensures StrNCmp(a + x, b + y, |a|) == 0 <==> Decimal(a) == Decimal(b)
  {
    if a != [] {
      var a', b' := a[1..], b[1..];
      assert (a + x)[1..] == a' + x && (b + y)[1..] == b' + y;
      LexIsNumeric(a', b', x, y);
      assert a == [a[0]] + a' && b == [b[0]] + b';
      DecimalFront(a[0], a');
      DecimalFront(b[0], b');
      if a[0] > b[0] { MulGap(DigitValue(a[0]), DigitValue(b[0]), Pow10(|a'|)); }
      if b[0] > a[0] { MulGap(DigitValue(b[0]), DigitValue(a[0]), Pow10(|a'|)); }
    } else {
      assert a == b;
    }
  }

  /** Without leading zeros, the longer decimal is the larger. */
  lemma LongerIsLarger(a: seq<byte>, b: seq<byte>)
    requires |a| > |b| > 0 && a[0] != 48
    requires forall k :: 0 <= k < |a| ==> IsDigit(a[k])
    requires forall k :: 0 <= k < |b| ==> IsDigit(b[k])
    ensures Decimal(a) > Decimal(b)
  {
    DecimalFront(a[0], a[1..]);
    assert a == [a[0]] + a[1..];
    DecimalFront(b[0], b);
    Pow10Monotone(|b|, |a| - 1);
    MulAtLeast(DigitValue(a[0]), Pow10(|a| - 1));
  }

  lemma {:induction false} SkipField(s: seq<byte>, n: nat, i: nat, len: nat)
    requires i + len < |s| && s[i + len] == COMMA && n > 0
    requires forall k :: i <= k < i + len ==> s[k] != COMMA && s[k] != NUL
    ensures FieldFrom(s, n, i) == FieldFrom(s, n - 1, i + len + 1)
    decreases len
  {
    if len > 0 { SkipField(s, n, i + 1, len - 1); }
  }

  lemma SignatureMatches(t: seq<byte>)
    ensures StrNCmp(SIG + t, SIG, |SIG|) == 0
    ensures FieldFrom(SIG + t, 1, 0) == |SIG| && FieldFrom(SIG + t, 2, 0) == FieldFrom(SIG + t, 1, |SIG|)
  {
    var s := SIG + t;
    PrefixCompares(SIG, t);
    assert SIG + [] == SIG;
    assert s[0] == 115 && s[1] == 98 && s[2] == 97 && s[3] == 116 && s[4] == COMMA;
    SkipField(s, 1, 0, 4);
    SkipField(s, 2, 0, 4);
  }

  lemma {:induction false} PrefixCompares(p: seq<byte>, t: seq<byte>)
    requires forall k :: 0 <= k < |p| ==> p[k] != 0
    ensures StrNCmp(p + t, p, |p|) == 0
  {
    if p != [] {
      PrefixCompares(p[1..], t);
      assert (p + t)[1..] == p[1..] + t;
    }
  }

  lemma LevelFields(l: Level)
    requires l.Shaped()
    ensures
      var s := l.Text();
      && FieldFrom(s, 1, 0) == |SIG| && FieldFrom(s, 2, 0) == |SIG| + |l.version| + 1
      && s[|SIG|..] == l.version + ([COMMA] + l.date + [LF] + l.lines)
      && s[|SIG| + |l.version| + 1..] == l.date + ([LF] + l.lines)
      && StrNCmp(s, SIG, |SIG|) == 0 && |s| >= |ORIGINAL|
  {
    hide FieldFrom, StrNCmp;
    var s := l.Text();
    var t := l.version + ([COMMA] + l.date + [LF] + l.lines);
    assert s == SIG + t;
    SignatureMatches(t);
    assert forall k :: |SIG| <= k < |SIG| + |l.version| ==> s[k] == l.version[k - |SIG|];
    assert s[|SIG| + |l.version|] == COMMA;
    SkipField(s, 1, |SIG|, |l.version|);
    FieldZero(s, |SIG| + |l.version| + 1);
  }

  lemma FieldZero(s: seq<byte>, i: nat)
    requires i <= |s|
    ensures FieldFrom(s, 0, i) == i
  {
  }

  /** The rule in the levels' own terms: version by length and then value, then datestamp by value. */
  lemma PreservedShaped(current: Level, attrs: nat, candidate: Level)
    requires current.Shaped() && candidate.Shaped()
    ensures Preserved(current.Text(), attrs, candidate.Text()) <==>
      && AttributesOk(attrs)
      && (|| |current.version| > |candidate.version|
          || (|current.version| == |candidate.version| && current.Version() > candidate.Version())
          || current.Date() >= candidate.Date())
  {
    hide Decimal, FieldFrom, StrNCmp;
    LevelFields(current);
    LevelFields(candidate);
    var a, b := current.version, candidate.version;
    if |a| == |b| {
      LexIsNumeric(a, b, [COMMA] + current.date + [LF] + current.lines, [COMMA] + candidate.date + [LF] + candidate.lines);
    }
    LexIsNumeric(current.date, candidate.date, [LF] + current.lines, [LF] + candidate.lines);
    LexIsNumericBack(current.date, candidate.date, [LF] + current.lines, [LF] + candidate.lines);
  }

  lemma LexIsNumericBack(a: seq<byte>, b: seq<byte>, x: seq<byte>, y: seq<byte>)
    requires |a| == |b|
    requires forall k :: 0 <= k < |a| ==> IsDigit(a[k]) && IsDigit(b[k])
    ensures StrNCmp(a + x, b + y, |a|) >= 0 <==> Decimal(a) >= Decimal(b)
  {
    hide Decimal, StrNCmp;
    LexIsNumeric(a, b, x, y);
  }

  /**
   The textual rule is the numeric one on versions without leading zeros: keep the stored level
   exactly when its version is newer or its datestamp is not older.
   */
  lemma PreservedIsNumeric(current: Level, attrs: nat, candidate: Level)
    requires current.Valid() && candidate.Valid()
    ensures Preserved(current.Text(), attrs, candidate.Text()) <==>
      AttributesOk(attrs) && (current.Version() > candidate.Version() || current.Date() >= candidate.Date())
  {
    hide Decimal, Preserved;
    PreservedShaped(current, attrs, candidate);
    var a, b := current.version, candidate.version;
    if |a| > |b| {
      LongerIsLarger(a, b);
    } else if |b| > |a| {
      LongerIsLarger(b, a);
    }
  }

  /** With a leading zero the textual rule and the numeric one part: version "01" is kept over "2". */
  lemma LeadingZeroOutranks(date: seq<byte>, newer: seq<byte>)
    requires Level([50], date, []).Shaped() && Level([50], newer, []).Shaped() && Decimal(date) < Decimal(newer)
    ensures
      var stored, candidate := Level([48, 49], date, []), Level([50], newer, []);
      && stored.Version() < candidate.Version() && stored.Date() < candidate.Date()
      && Preserved(stored.Text(), NV_BS, candidate.Text())
  {
    hide Preserved, Decimal;
    PreservedShaped(Level([48, 49], date, []), NV_BS, Level([50], newer, []));
    SmallDecimals();
  }

  lemma SmallDecimals()
    ensures Decimal([48, 49]) == 1 && Decimal([50]) == 2
  {
    assert [48, 49][..1] == [48] && [48][..0] == [] && [50][..0] == [];
  }
}
