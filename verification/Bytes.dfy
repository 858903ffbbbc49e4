/** Bytes, little-endian words and the few sequence facts the other modules share. */
module Bytes {
  type byte = b: int | 0 <= b < 256

  datatype Option<+T> = None | Some(value: T)

  /** 256 to the power w: the number of values a w-byte unsigned field can hold. */
  function Pow256(w: nat): (p: nat)
    ensures p >= 1
  {
    if w == 0 then 1 else 256 * Pow256(w - 1)
  }

  /** The unsigned value of a little-endian byte string. */
  function FromLE(s: seq<byte>): (v: nat)
  {
    if s == [] then 0 else s[0] + 256 * FromLE(s[1..])
  }

  /** The w low bytes of v, least significant first. */
  function ToLE(v: nat, w: nat): (s: seq<byte>)
    ensures |s| == w
    decreases w
  {
    if w == 0 then [] else [v % 256] + ToLE(v / 256, w - 1)
  }

  function Get(s: seq<byte>, at: nat, w: nat): nat
    requires at + w <= |s|
  {
    FromLE(s[at..at + w])
  }

  function Put(s: seq<byte>, at: nat, v: seq<byte>): (r: seq<byte>)
    requires at + |v| <= |s|
    ensures |r| == |s|
    ensures forall k :: 0 <= k < |s| ==> r[k] == if at <= k < at + |v| then v[k - at] else s[k]
  {
    s[..at] + v + s[at + |v|..]
  }

  /** Store a byte string at an offset of a buffer. */
  method Store(out: array<byte>, at: nat, s: seq<byte>)
    requires at + |s| <= out.Length
    modifies out
    ensures out[..] == Put(old(out[..]), at, s)
  {
    ghost var before := out[..];
    for i := 0 to |s|
      invariant forall k :: 0 <= k < out.Length ==> out[k] == if at <= k < at + i then s[k - at] else before[k]
    {
      out[at + i] := s[i];
    }
    assert out[..] == Put(before, at, s);
  }

  lemma {:induction false} FromLEBound(s: seq<byte>)
    ensures FromLE(s) < Pow256(|s|)
  {
    if s != [] { FromLEBound(s[1..]); }
  }

  lemma {:induction false} ToFromLE(v: nat, w: nat)
    ensures FromLE(ToLE(v, w)) == v % Pow256(w)
    decreases w
  {
    if w != 0 {
      ToFromLE(v / 256, w - 1);
      assert ToLE(v, w)[1..] == ToLE(v / 256, w - 1);
      DivModSplit(v, Pow256(w - 1));
    }
  }

  lemma DivModSplit(v: nat, m: nat)
    requires m > 0
    ensures v % (256 * m) == v % 256 + 256 * ((v / 256) % m)
  {
    var q, r := v / 256, v % 256;
    var a, b := q / m, q % m;
    assert v == 256 * (a * m + b) + r;
    assert v == a * (256 * m) + (256 * b + r) by { assert 256 * (a * m) == a * (256 * m); }
    assert 0 <= 256 * b + r < 256 * m;
    ModUnique(v, 256 * m, a, 256 * b + r);
  }

  lemma MulAtLeast(d: int, m: int)
    requires d >= 1 && m > 0
    ensures d * m >= m
  {
  }

  lemma MulGap(a: int, b: int, m: int)
    requires a > b && m > 0
    ensures a * m >= b * m + m
  {
    MulAtLeast(a - b, m);
    assert (a - b) * m == a * m - b * m;
  }

  lemma ModUnique(v: int, m: int, q: int, r: int)
    requires m > 0 && 0 <= r < m && v == q * m + r
    ensures v % m == r && v / m == q
  {
    var q', r' := v / m, v % m;
    assert v == q' * m + r';
    if q > q' {
      MulGap(q, q', m);
    } else if q < q' {
      MulGap(q', q, m);
    }
  }

  lemma {:induction false} FromToLE(s: seq<byte>)
    ensures ToLE(FromLE(s), |s|) == s
  {
    if s != [] {
      FromToLE(s[1..]);
      ModUnique(FromLE(s), 256, FromLE(s[1..]), s[0]);
      assert s == [s[0]] + s[1..];
    }
  }

  /** Reading back what was just written, and reading a disjoint field, in one place. */
  lemma GetPut(s: seq<byte>, at: nat, v: seq<byte>, at': nat, w: nat)
    requires at + |v| <= |s| && at' + w <= |s|
    ensures at == at' && w == |v| ==> Get(Put(s, at, v), at', w) == FromLE(v)
    ensures at + |v| <= at' || at' + w <= at ==> Get(Put(s, at, v), at', w) == Get(s, at', w)
  {
    hide FromLE, Put;
    PutStretch(s, at, v);
    if at + |v| <= at' || at' + w <= at { PutElsewhere(s, at, v, at', w); }
  }

  lemma PutStretch(s: seq<byte>, at: nat, v: seq<byte>)
    requires at + |v| <= |s|
    ensures Put(s, at, v)[at..at + |v|] == v
  {
    hide Put;
  }

  lemma PutElsewhere(s: seq<byte>, at: nat, v: seq<byte>, at': nat, w: nat)
    requires at + |v| <= |s| && at' + w <= |s| && (at + |v| <= at' || at' + w <= at)
    ensures Put(s, at, v)[at'..at' + w] == s[at'..at' + w]
  {
    hide Put;
    var r := Put(s, at, v);
    forall k | at' <= k < at' + w ensures r[k] == s[k] {}
  }

  /** Bitwise and. */
  function BitAnd(x: nat, m: nat): (r: nat)
    ensures r <= m && r <= x
    decreases m
  {
    if m == 0 then 0 else (if x % 2 == 1 && m % 2 == 1 then 1 else 0) + 2 * BitAnd(x / 2, m / 2)
  }

  function Pow2(k: nat): (p: nat)
    ensures p >= 1
  {
    if k == 0 then 1 else 2 * Pow2(k - 1)
  }

  lemma DoubleMod(x: nat, h: nat)
    requires h > 0
    ensures x % (2 * h) == x % 2 + 2 * ((x / 2) % h)
  {
    var q, r := (x / 2) / h, (x / 2) % h;
    assert x / 2 == q * h + r;
    assert 2 * (q * h) == q * (2 * h);
    ModUnique(x, 2 * h, q, 2 * r + x % 2);
  }

  lemma BitAndStep(x: nat, h: nat)
    requires h > 0
    ensures BitAnd(x, 2 * h - 1) == x % 2 + 2 * BitAnd(x / 2, h - 1)
  {
    assert (2 * h - 1) / 2 == h - 1 && (2 * h - 1) % 2 == 1;
  }

  /** Masking with 2^k - 1 is the remainder by 2^k. */
  lemma {:induction false} MaskIsMod(x: nat, k: nat)
    ensures BitAnd(x, Pow2(k) - 1) == x % Pow2(k)
    decreases k
  {
    hide BitAnd;
    if k == 0 {
      ModUnique(x, 1, x, 0);
    } else {
      MaskIsMod(x / 2, k - 1);
      DoubleMod(x, Pow2(k - 1));
      BitAndStep(x, Pow2(k - 1));
    }
  }

  /** ALIGN_VALUE on 64-bit values: v + ((a - v) & (a - 1)). */
  function AlignValue(v: nat, a: nat): (r: nat)
    requires a > 0
    ensures v <= r < v + a
  {
    v + BitAnd((a - v) % 0x1_0000_0000_0000_0000, a - 1)
  }

  lemma CompletesMultiple(v: nat, u: nat, a: nat, e: int)
    requires a > 0 && v + u == e * a
    ensures (v + u % a) % a == 0
  {
    var q := u / a;
    assert u == q * a + u % a;
    assert (e - q) * a == e * a - q * a;
    ModUnique(v + u % a, a, e - q, 0);
  }

  lemma WrappedDifference(v: nat, a: nat, m: nat)
    requires a > 0 && 0x1_0000_0000_0000_0000 == m * a
    ensures exists e: int :: v + (a - v) % 0x1_0000_0000_0000_0000 == e * a
  {
    var t, u := (a - v) / (m * a), (a - v) % (m * a);
    assert a - v == t * (m * a) + u;
    assert t * (m * a) == (t * m) * a;
    assert v + u == (1 - t * m) * a by { assert (1 - t * m) * a == a - (t * m) * a; }
  }

  /** For a power of two, ALIGN_VALUE is the least multiple not below v. */
  lemma AlignRoundsUp(v: nat, k: nat)
    requires k <= 64
    ensures AlignValue(v, Pow2(k)) % Pow2(k) == 0
  {
    hide Pow2, BitAnd;
    var a, u := Pow2(k), (Pow2(k) - v) % 0x1_0000_0000_0000_0000;
    MaskIsMod(u, k);
    Pow2Divides(k);
    var m: nat :| 0x1_0000_0000_0000_0000 == m * a;
    WrappedDifference(v, a, m);
    var e: int :| v + u == e * a;
    CompletesMultiple(v, u, a, e);
  }

  lemma {:induction false} Pow2Divides(k: nat)
    requires k <= 64
    ensures exists m: nat :: 0x1_0000_0000_0000_0000 == m * Pow2(k)
    decreases 64 - k
  {
    if k == 64 {
      Pow2Of64();
      assert 0x1_0000_0000_0000_0000 == 1 * Pow2(64);
    } else {
      Pow2Divides(k + 1);
      var m: nat :| 0x1_0000_0000_0000_0000 == m * Pow2(k + 1);
      assert m * (2 * Pow2(k)) == (m * 2) * Pow2(k);
    }
  }

  lemma Pow2Of64()
    ensures Pow2(64) == 0x1_0000_0000_0000_0000
  {
    assert Pow2(8) == 256 by { assert Pow2(2) == 4 && Pow2(4) == 16 && Pow2(6) == 64; }
    assert Pow2(16) == 0x10000 by { assert Pow2(10) == 1024 && Pow2(12) == 4096 && Pow2(14) == 16384; }
    assert Pow2(32) == 0x1_0000_0000 by {
      assert Pow2(18) == 0x40000 && Pow2(20) == 0x100000 && Pow2(22) == 0x400000 && Pow2(24) == 0x1000000;
      assert Pow2(26) == 0x4000000 && Pow2(28) == 0x10000000 && Pow2(30) == 0x40000000;
    }
    assert Pow2(34) == 0x4_0000_0000 && Pow2(36) == 0x10_0000_0000 && Pow2(38) == 0x40_0000_0000;
    assert Pow2(40) == 0x100_0000_0000 && Pow2(42) == 0x400_0000_0000 && Pow2(44) == 0x1000_0000_0000;
    assert Pow2(46) == 0x4000_0000_0000 && Pow2(48) == 0x1_0000_0000_0000 && Pow2(50) == 0x4_0000_0000_0000;
    assert Pow2(52) == 0x10_0000_0000_0000 && Pow2(54) == 0x40_0000_0000_0000 && Pow2(56) == 0x100_0000_0000_0000;
    assert Pow2(58) == 0x400_0000_0000_0000 && Pow2(60) == 0x1000_0000_0000_0000 && Pow2(62) == 0x4000_0000_0000_0000;
  }

  /** The byte string s lies at offset off. */
  predicate At(b: seq<byte>, off: nat, s: seq<byte>) {
    off + |s| <= |b| && b[off..off + |s|] == s
  }

  lemma AtBound(b: seq<byte>, off: nat, s: seq<byte>)
    requires At(b, off, s)
    ensures off + |s| <= |b| && b[off..off + |s|] == s
  {
  }

  lemma AtSplit(b: seq<byte>, off: nat, s: seq<byte>, t: seq<byte>)
    requires At(b, off, s + t)
    ensures At(b, off, s) && At(b, off + |s|, t)
  {
    var whole := b[off..off + |s + t|];
    assert b[off..off + |s|] == whole[..|s|] == s;
    assert b[off + |s|..off + |s| + |t|] == whole[|s|..] == t;
  }

  lemma Powers()
    ensures Pow256(2) == 0x10000 && Pow256(4) == 0x1_0000_0000
  {
    assert Pow256(1) == 256 && Pow256(3) == 0x1000000;
  }

  /** Reading a printed word at its place. */
  lemma ReadWord(b: seq<byte>, off: nat, v: nat, w: nat)
    requires At(b, off, ToLE(v, w)) && v < Pow256(w)
    ensures off + w <= |b| && Get(b, off, w) == v
  {
    hide ToLE, FromLE;
    ToFromLE(v, w);
    ModUnique(v, Pow256(w), 0, v);
  }
}
