/**
 crypt_blowfish.c: its base-64 dialect.  Shifts and masks are divisions and remainders; the bits an `or`
 joins never overlap, so it is a sum.
 */
module BfBase64 {
  import opened Bytes

  // The two tables, in rows of sixteen.

  const ITOA0 := "./ABCDEFGHIJKLMN"
  const ITOA1 := "OPQRSTUVWXYZabcd"
  const ITOA2 := "efghijklmnopqrst"
  const ITOA3 := "uvwxyz0123456789"

  const ATOI0: seq<nat> := [64, 64, 64, 64, 64, 64, 64, 64, 64, 64, 64, 64, 64, 64, 0, 1]
  const ATOI1: seq<nat> := [54, 55, 56, 57, 58, 59, 60, 61, 62, 63, 64, 64, 64, 64, 64, 64]
  const ATOI2: seq<nat> := [64, 2, 3, 4, 5, 6, 7, 8, 9, 10, 11, 12, 13, 14, 15, 16]
  const ATOI3: seq<nat> := [17, 18, 19, 20, 21, 22, 23, 24, 25, 26, 27, 64, 64, 64, 64, 64]
  const ATOI4: seq<nat> := [64, 28, 29, 30, 31, 32, 33, 34, 35, 36, 37, 38, 39, 40, 41, 42]
  const ATOI5: seq<nat> := [43, 44, 45, 46, 47, 48, 49, 50, 51, 52, 53, 64, 64, 64, 64, 64]

  type Six = c: nat | c < 64

  function Letter(c: Six): char {
    if c < 16 then ITOA0[c] else if c < 32 then ITOA1[c - 16] else if c < 48 then ITOA2[c - 32] else ITOA3[c - 48]
  }

  function Atoi(t: nat): nat
    requires t < 0x60
  {
    if t < 16 then ATOI0[t] else if t < 32 then ATOI1[t - 16] else if t < 48 then ATOI2[t - 32]
    else if t < 64 then ATOI3[t - 48] else if t < 80 then ATOI4[t - 64] else ATOI5[t - 80]
  }

  /** BF_safe_atoi64: the value of a letter, or failure. */
  function Value(ch: char): Option<Six> {
    var t := ch as int - 0x20;
    if t < 0 || t >= 0x60 || Atoi(t) > 63 then None else Some(Atoi(t))
  }

  /** The second table undoes the first. */
  lemma ValueOfLetter(c: Six)
    ensures Value(Letter(c)) == Some(c)
  {
    if c < 16 { Row0(c); } else if c < 32 { Row1(c); } else if c < 48 { Row2(c); } else { Row3(c); }
  }

  lemma Row0(c: Six)
    requires 0 <= c < 16
    ensures Value(Letter(c)) == Some(c)
  {
    assert Letter(c) == ITOA0[c];
  }

  lemma Row1(c: Six)
    requires 16 <= c < 32
    ensures Value(Letter(c)) == Some(c)
  {
    assert Letter(c) == ITOA1[c - 16];
  }

  lemma Row2(c: Six)
    requires 32 <= c < 48
    ensures Value(Letter(c)) == Some(c)
  {
    assert Letter(c) == ITOA2[c - 32];
  }

  lemma Row3(c: Six)
    requires 48 <= c < 64
    ensures Value(Letter(c)) == Some(c)
  {
    assert Letter(c) == ITOA3[c - 48];
  }

  /** The alphabet: dot, slash, capitals, small letters, digits. */
  function Alphabet(c: Six): int {
    if c < 2 then 46 + c else if c < 28 then 63 + c else if c < 54 then 69 + c else c - 6
  }

  /** The first table is the alphabet. */
  lemma LetterIs(c: Six)
    ensures Letter(c) as int == Alphabet(c)
  {
    if c < 16 { Table0(c); } else if c < 32 { Table1(c); } else if c < 48 { Table2(c); } else { Table3(c); }
  }

  lemma Table0(c: Six)
    requires c < 16
    ensures Letter(c) as int == Alphabet(c)
  {
  }

  lemma Table1(c: Six)
    requires 16 <= c < 32
    ensures Letter(c) as int == Alphabet(c)
  {
  }

  lemma Table2(c: Six)
    requires 32 <= c < 48
    ensures Letter(c) as int == Alphabet(c)
  {
  }

  lemma Table3(c: Six)
    requires 48 <= c
    ensures Letter(c) as int == Alphabet(c)
  {
  }

  predicate InAlphabet(ch: char) { 46 <= ch as int <= 57 || 65 <= ch as int <= 90 || 97 <= ch as int <= 122 }

  /** The second table gives a character's place in the alphabet, and nothing for any other character. */
  lemma ValueIff(ch: char, c: Six)
    ensures Value(ch) == Some(c) <==> ch as int == Alphabet(c)
    ensures Value(ch).Some? <==> InAlphabet(ch)
  {
    hide Letter;
    ValueOfLetter(c);
    LetterIs(c);
    Valued(ch);
    if ch as int == Alphabet(c) { assert ch == Letter(c); }
  }

  predicate RightValue(ch: char) {
    && (Value(ch).Some? <==> InAlphabet(ch))
    && (Value(ch).Some? ==> ch as int == Alphabet(Value(ch).value))
  }

  lemma Valued(ch: char)
    ensures RightValue(ch)
  {
    var t := ch as int - 0x20;
    if 0 <= t < 48 { Low(ch, t); } else if 48 <= t < 64 { Row3Value(ch, t); } else if 64 <= t < 80 { Row4Value(ch, t); }
    else if 80 <= t < 96 { Row5Value(ch, t); }
  }

  lemma Low(ch: char, t: nat)
    requires t == ch as int - 0x20 && t < 48
    ensures RightValue(ch)
  {
  }

  lemma Row3Value(ch: char, t: nat)
    requires t == ch as int - 0x20 && 48 <= t < 64
    ensures RightValue(ch)
  {
  }

  lemma Row4Value(ch: char, t: nat)
    requires t == ch as int - 0x20 && 64 <= t < 80
    ensures RightValue(ch)
  {
  }

  lemma Row5Value(ch: char, t: nat)
    requires t == ch as int - 0x20 && 80 <= t < 96
    ensures RightValue(ch)
  {
  }

  // ---------------------------------------------------------------- the codec on values

  /** Three bytes become four letters; one byte left over becomes two, two become three. */
  function Encoded(b: seq<byte>): (s: string)
    ensures |s| == (4 * |b| + 2) / 3
  {
    if b == [] then ""
    else if |b| == 1 then [Letter(b[0] / 4), Letter((b[0] % 4) * 16)]
    else if |b| == 2 then [Letter(b[0] / 4), Letter((b[0] % 4) * 16 + b[1] / 16), Letter((b[1] % 16) * 4)]
    else
      [Letter(b[0] / 4), Letter((b[0] % 4) * 16 + b[1] / 16), Letter((b[1] % 16) * 4 + b[2] / 64), Letter(b[2] % 64)]
      + Encoded(b[3..])
  }

  function Char(s: string, i: nat): char { if i < |s| then s[i] else '\0' }

  /** The size bytes that the letters from i on decode to; text ends in a NUL, which is no letter. */
  function Decoded(s: string, i: nat, size: nat): (r: Option<seq<byte>>)
    ensures r.Some? ==> |r.value| == size
    decreases size
  {
    if size == 0 then Some([])
    else
      var c1, c2 := Value(Char(s, i)), Value(Char(s, i + 1));
      if c1.None? || c2.None? then None
      else
        var b1: byte := c1.value * 4 + c2.value / 16;
        if size == 1 then Some([b1])
        else
          var c3 := Value(Char(s, i + 2));
          if c3.None? then None
          else
            var b2: byte := (c2.value % 16) * 16 + c3.value / 4;
            if size == 2 then Some([b1, b2])
            else
              var c4 := Value(Char(s, i + 3));
              if c4.None? then None
              else
                var b3: byte := (c3.value % 4) * 64 + c4.value;
                match Decoded(s, i + 4, size - 3) case None => None case Some(rest) => Some([b1, b2, b3] + rest)
  }

  // ---------------------------------------------------------------- the loops

  /** BF_encode; it writes before it looks at the size, which is at least one. */
  method Encode(dst: array<char>, src: seq<byte>)
    requires |src| >= 1 && (4 * |src| + 2) / 3 <= dst.Length
    modifies dst
    ensures forall k :: 0 <= k < dst.Length ==> dst[k] == if k < |Encoded(src)| then Encoded(src)[k] else old(dst[k])
  {
    hide Letter, Encoded;
    ghost var was := dst[..];
    ghost var all := Encoded(src);
    var sptr, dptr := 0, 0;
    assert src[0..] == src && all[0..] == all;
    while true
      invariant sptr < |src| && dptr <= |all| && all[dptr..] == Encoded(src[sptr..])
      invariant forall k :: 0 <= k < dst.Length ==> dst[k] == if k < dptr then all[k] else was[k]
      decreases |src| - sptr
    {
      EncodedStep(src, sptr, all, dptr);
      var c1: nat := src[sptr];
      sptr := sptr + 1;
      dst[dptr] := Letter(c1 / 4);
      dptr := dptr + 1;
      c1 := (c1 % 4) * 16;
      if sptr >= |src| {
        dst[dptr] := Letter(c1);
        break;
      }
      var c2: nat := src[sptr];
      sptr := sptr + 1;
      c1 := c1 + c2 / 16;
      dst[dptr] := Letter(c1);
      dptr := dptr + 1;
      c1 := (c2 % 16) * 4;
      if sptr >= |src| {
        dst[dptr] := Letter(c1);
        break;
      }
      c2 := src[sptr];
      sptr := sptr + 1;
      c1 := c1 + c2 / 64;
      dst[dptr] := Letter(c1);
      dptr := dptr + 1;
      dst[dptr] := Letter(c2 % 64);
      dptr := dptr + 1;
      if sptr >= |src| { break; }
    }
  }

  lemma EncodedStep(src: seq<byte>, i: nat, all: string, d: nat)
    requires i < |src| && d <= |all| && all[d..] == Encoded(src[i..]) && |all| == (4 * |src| + 2) / 3
    ensures d + 2 <= |all| && all[d] == Letter(src[i] / 4)
    ensures i + 1 == |src| ==> |all| == d + 2 && all[d + 1] == Letter((src[i] % 4) * 16)
    ensures i + 2 <= |src| ==> d + 3 <= |all| && all[d + 1] == Letter((src[i] % 4) * 16 + src[i + 1] / 16)
    ensures i + 2 == |src| ==> |all| == d + 3 && all[d + 2] == Letter((src[i + 1] % 16) * 4)
    ensures i + 3 <= |src| ==>
      && d + 4 <= |all| && all[d + 2] == Letter((src[i + 1] % 16) * 4 + src[i + 2] / 64) && all[d + 3] == Letter(src[i + 2] % 64)
      && all[d + 4..] == Encoded(src[i + 3..])
    ensures i + 3 == |src| ==> |all| == d + 4
  {
    hide Letter;
    var rest, e := src[i..], all[d..];
    assert all[d] == e[0] && all[d + 1] == e[1] && rest[0] == src[i];
    if i + 2 <= |src| { assert all[d + 2] == e[2] && rest[1] == src[i + 1]; }
    if i + 3 <= |src| {
      assert all[d + 3] == e[3] && rest[2] == src[i + 2];
      assert rest[3..] == src[i + 3..] && e[4..] == all[d + 4..];
    }
  }

  /** BF_decode: whether the text held `size` bytes; then they are what it decodes to. */
  method Decode(dst: array<byte>, src: string, size: nat) returns (ok: bool)
    requires 1 <= size <= dst.Length
    modifies dst
    ensures ok <==> Decoded(src, 0, size).Some?
    ensures ok ==> dst[..size] == Decoded(src, 0, size).value
    ensures forall k :: size <= k < dst.Length ==> dst[k] == old(dst[k])
  {
    hide Value, Decoded;
    ghost var all := Decoded(src, 0, size);
    var dptr, sptr := 0, 0;
    while true
      invariant dptr < size && (all.None? <==> Decoded(src, sptr, size - dptr).None?)
      invariant all.Some? ==> all.value[dptr..] == Decoded(src, sptr, size - dptr).value
      invariant all.Some? ==> forall k :: 0 <= k < dptr ==> dst[k] == all.value[k]
      invariant forall k :: size <= k < dst.Length ==> dst[k] == old(dst[k])
      decreases size - dptr
    {
      DecodedStep(src, sptr, size, dptr, all);
      var c1, c2 := Value(Char(src, sptr)), Value(Char(src, sptr + 1));
      if c1.None? || c2.None? { return false; }
      var v1: nat, v2: nat := c1.value, c2.value;
      dst[dptr] := v1 * 4 + v2 / 16;
      dptr := dptr + 1;
      if dptr >= size { break; }
      var c3 := Value(Char(src, sptr + 2));
      if c3.None? { return false; }
      var v3: nat := c3.value;
      dst[dptr] := (v2 % 16) * 16 + v3 / 4;
      dptr := dptr + 1;
      if dptr >= size { break; }
      var c4 := Value(Char(src, sptr + 3));
      if c4.None? { return false; }
      dst[dptr] := (v3 % 4) * 64 + c4.value;
      dptr := dptr + 1;
      sptr := sptr + 4;
      if dptr >= size { break; }
    }
    return true;
  }

  lemma DecodedStep(src: string, s: nat, size: nat, d: nat, all: Option<seq<byte>>)
    requires d < size && (all.None? <==> Decoded(src, s, size - d).None?) && (all.Some? ==> |all.value| == size)
    requires all.Some? ==> all.value[d..] == Decoded(src, s, size - d).value
    ensures
      var c1, c2, c3, c4 := Value(Char(src, s)), Value(Char(src, s + 1)), Value(Char(src, s + 2)), Value(Char(src, s + 3));
      && (all.Some? ==>
            && c1.Some? && c2.Some? && all.value[d] == c1.value * 4 + c2.value / 16
            && (d + 1 < size ==> c3.Some? && all.value[d + 1] == (c2.value % 16) * 16 + c3.value / 4)
            && (d + 2 < size ==> c4.Some? && all.value[d + 2] == (c3.value % 4) * 64 + c4.value)
            && (d + 3 < size ==>
                  Decoded(src, s + 4, size - d - 3).Some? && all.value[d + 3..] == Decoded(src, s + 4, size - d - 3).value))
      && (all.None? && c1.Some? && c2.Some? && d + 1 < size && c3.Some? && d + 2 < size && c4.Some? && d + 3 < size ==>
            Decoded(src, s + 4, size - d - 3).None?)
      && (all.None? ==>
            || c1.None? || c2.None? || (d + 1 < size && c3.None?) || (d + 2 < size && c4.None?)
            || (d + 3 < size && Decoded(src, s + 4, size - d - 3).None?))
  {
    hide Value;
    if all.Some? {
      var e := all.value[d..];
      assert all.value[d] == e[0];
      if d + 1 < size { assert all.value[d + 1] == e[1]; }
      if d + 2 < size { assert all.value[d + 2] == e[2]; }
      if d + 3 < size { assert all.value[d + 3..] == e[3..]; }
    }
  }

  // ---------------------------------------------------------------- the round trip

  lemma {:induction false} DecodesAt(b: seq<byte>, s: string, i: nat)
    requires i + |Encoded(b)| <= |s| && s[i..i + |Encoded(b)|] == Encoded(b)
    ensures Decoded(s, i, |b|) == Some(b)
    decreases |b|
  {
    hide Letter, Value;
    if b != [] {
      LettersAt(b, s, i);
      if |b| >= 3 {
        DecodesAt(b[3..], s, i + 4);
        BitsRejoin(b[0], b[1], b[2]);
        DecodeGroup(s, i, |b|, b[0], b[1], b[2]);
        assert b == [b[0], b[1], b[2]] + b[3..];
      } else if |b| == 2 {
        BitsRejoin(b[0], b[1], 0);
        assert b == [b[0], b[1]];
      } else {
        BitsRejoin(b[0], 0, 0);
        assert b == [b[0]];
      }
    }
  }

  lemma DecodeGroup(s: string, i: nat, size: nat, x: byte, y: byte, z: byte)
    requires size >= 3 && Decoded(s, i + 4, size - 3).Some?
    requires Value(Char(s, i)) == Some(x / 4) && Value(Char(s, i + 1)) == Some((x % 4) * 16 + y / 16)
    requires Value(Char(s, i + 2)) == Some((y % 16) * 4 + z / 64) && Value(Char(s, i + 3)) == Some(z % 64)
    ensures Decoded(s, i, size) == Some([x, y, z] + Decoded(s, i + 4, size - 3).value)
  {
    hide Value;
    BitsRejoin(x, y, z);
  }

  lemma BitsRejoin(x: byte, y: byte, z: byte)
    ensures (x / 4) * 4 + ((x % 4) * 16 + y / 16) / 16 == x
    ensures ((x % 4) * 16 + y / 16) % 16 == y / 16
    ensures (y / 16) * 16 + ((y % 16) * 4 + z / 64) / 4 == y
    ensures (((y % 16) * 4 + z / 64) % 4) * 64 + z % 64 == z
  {
  }

  /** The values of the next letters of an encoding. */
  lemma LettersAt(b: seq<byte>, s: string, i: nat)
    requires b != [] && i + |Encoded(b)| <= |s| && s[i..i + |Encoded(b)|] == Encoded(b)
    ensures Value(Char(s, i)) == Some(b[0] / 4)
    ensures Value(Char(s, i + 1)) == Some((b[0] % 4) * 16 + if |b| == 1 then 0 else b[1] / 16)
    ensures |b| >= 2 ==> Value(Char(s, i + 2)) == Some((b[1] % 16) * 4 + if |b| == 2 then 0 else b[2] / 64)
    ensures |b| >= 3 ==>
      && Value(Char(s, i + 3)) == Some(b[2] % 64)
      && i + 4 + |Encoded(b[3..])| <= |s| && s[i + 4..i + 4 + |Encoded(b[3..])|] == Encoded(b[3..])
  {
    hide Letter, Value, Encoded;
    var e := Encoded(b);
    assert b[0..] == b && e[0..] == e;
    EncodedStep(b, 0, e, 0);
    var part := s[i..i + |e|];
    assert s[i] == part[0] && s[i + 1] == part[1];
    if |b| >= 2 { assert s[i + 2] == part[2]; }
    if |b| >= 3 { assert s[i + 3] == part[3]; }
    ValueOfLetter(b[0] / 4);
    if |b| == 1 {
      ValueOfLetter((b[0] % 4) * 16);
    } else {
      ValueOfLetter((b[0] % 4) * 16 + b[1] / 16);
      if |b| == 2 {
        ValueOfLetter((b[1] % 16) * 4);
      } else {
        ValueOfLetter((b[1] % 16) * 4 + b[2] / 64);
        ValueOfLetter(b[2] % 64);
        assert s[i + 4..i + |e|] == s[i..i + |e|][4..] == e[4..];
      }
    }
  }

  /** Decoding the encoding of any bytes returns them, whatever the text goes on with. */
  lemma RoundTrip(b: seq<byte>, more: string)
    ensures Decoded(Encoded(b) + more, 0, |b|) == Some(b)
  {
    hide Encoded;
    var s := Encoded(b) + more;
    assert s[0..0 + |Encoded(b)|] == Encoded(b);
    DecodesAt(b, s, 0);
  }

  // ---------------------------------------------------------------- the digits

  function Number(x: nat, y: nat, z: nat): nat { 65536 * x + 256 * y + z }

  /** The digit to base 64 at a weight, as its letter. */
  function Digit(n: nat, weight: nat): char
    requires weight > 0
  {
    Letter(n / weight % 64)
  }

  /** The four digits of a number of 24 bits, most significant first. */
  function Digits(n: nat): (s: string)
    ensures |s| == 4
  {
    [Digit(n, 262144), Digit(n, 4096), Digit(n, 64), Digit(n, 1)]
  }

  /** The letters of three bytes. */
  function Letters(x: byte, y: byte, z: byte): string {
    [Letter(x / 4), Letter((x % 4) * 16 + y / 16), Letter((y % 16) * 4 + z / 64), Letter(z % 64)]
  }

  /** Three bytes are a number of 24 bits, written as its four digits to base 64. */
  lemma EncodedThree(b: seq<byte>)
    requires |b| >= 3
    ensures Encoded(b) == Digits(Number(b[0], b[1], b[2])) + Encoded(b[3..])
  {
    hide Letters, Digits, Number, Encoded;
    DigitsOf(b[0], b[1], b[2]);
    LettersFirst(b);
  }

  lemma LettersFirst(b: seq<byte>)
    requires |b| >= 3
    ensures Encoded(b) == Letters(b[0], b[1], b[2]) + Encoded(b[3..])
  {
    hide Letter;
  }

  /** The last one or two bytes are the first two or three digits of the number that zero bytes complete. */
  lemma EncodedRest(x: byte, y: byte)
    ensures Encoded([x]) == Digits(Number(x, 0, 0))[..2]
    ensures Encoded([x, y]) == Digits(Number(x, y, 0))[..3]
  {
    hide Digits, Letter;
    DigitsOf(x, 0, 0);
    DigitsOf(x, y, 0);
  }

  lemma DigitAt(high: nat, d: nat, low: nat, w: nat)
    requires d < 64 && low < w
    ensures ((high * 64 + d) * w + low) / w % 64 == d
  {
    ModUnique((high * 64 + d) * w + low, w, high * 64 + d, low);
    ModUnique(high * 64 + d, 64, high, d);
  }

  lemma DigitsOf(x: byte, y: byte, z: byte)
    ensures Digits(Number(x, y, z)) == Letters(x, y, z)
  {
    hide Letter;
    var a: nat, b: nat, c: nat, d: nat := x / 4, (x % 4) * 16 + y / 16, (y % 16) * 4 + z / 64, z % 64;
    assert Number(x, y, z) == 262144 * a + 4096 * b + 64 * c + d;
    DigitAt(0, a, 4096 * b + 64 * c + d, 262144);
    DigitAt(a, b, 64 * c + d, 4096);
    DigitAt(64 * a + b, c, d, 64);
    DigitAt(4096 * a + 64 * b + c, d, 0, 1);
  }
}
