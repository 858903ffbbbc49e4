/** Relocating by a and then by b is relocating by a + b, and touches nothing but the fixups. */
module RelocateLaws {
  import opened Bytes
  import opened Relocate

  predicate AllInRange(fixups: seq<Fixup>, len: nat) {
    forall k :: 0 <= k < |fixups| ==> InRange(fixups[k], len)
  }

  predicate Covers(f: Fixup, p: nat) { f.at <= p < f.at + Width(f.kind) }

  predicate Apart(f: Fixup, g: Fixup) {
    f.at + Width(f.kind) <= g.at || g.at + Width(g.kind) <= f.at
  }

  predicate PairwiseApart(fixups: seq<Fixup>) {
    forall i, j :: 0 <= i < j < |fixups| ==> Apart(fixups[i], fixups[j])
  }

  predicate NoHigh(fixups: seq<Fixup>) {
    forall k :: 0 <= k < |fixups| ==> fixups[k].kind != High
  }

  function Field(image: seq<byte>, f: Fixup): nat
    requires InRange(f, |image|)
  {
    if f.kind == Absolute then 0 else Get(image, f.at, Width(f.kind))
  }

  /** The value a field has after relocation. */
  function Moved(v: nat, k: Kind, adjust: nat): nat {
    (v + Addend(k, adjust)) % Pow256(Width(k))
  }

  lemma PatchedField(image: seq<byte>, f: Fixup, g: Fixup, adjust: nat)
    requires InRange(f, |image|) && InRange(g, |image|)
    ensures f == g ==> Field(Patched(image, f, adjust), g) == Moved(Field(image, g), g.kind, adjust)
    ensures Apart(f, g) ==> Field(Patched(image, f, adjust), g) == Field(image, g)
  {
    if f.kind != Absolute && g.kind != Absolute {
      var w := Width(f.kind);
      var v := Get(image, f.at, w) + Addend(f.kind, adjust);
      GetPut(image, f.at, ToLE(v, w), g.at, Width(g.kind));
      ToFromLE(v, w);
    }
  }

  /** Bytes no fixup covers keep their value. */
  lemma {:induction false} Untouched(image: seq<byte>, fixups: seq<Fixup>, adjust: nat, p: nat)
    requires p < |image| && forall k :: 0 <= k < |fixups| ==> !Covers(fixups[k], p)
    ensures PatchAll(image, fixups, adjust).0[p] == image[p]
    decreases |fixups|
  {
    if fixups != [] && InRange(fixups[0], |image|) {
      var image' := Patched(image, fixups[0], adjust);
      assert image'[p] == image[p] by { assert !Covers(fixups[0], p); }
      Untouched(image', fixups[1..], adjust, p);
    }
  }

  lemma {:induction false} FieldAfterOthers(image: seq<byte>, fixups: seq<Fixup>, adjust: nat, g: Fixup)
    requires AllInRange(fixups, |image|) && InRange(g, |image|)
    requires forall k :: 0 <= k < |fixups| ==> Apart(fixups[k], g)
    ensures Field(PatchAll(image, fixups, adjust).0, g) == Field(image, g)
    decreases |fixups|
  {
    hide Field, Patched;
    if fixups != [] {
      PatchedField(image, fixups[0], g, adjust);
      FieldAfterOthers(Patched(image, fixups[0], adjust), fixups[1..], adjust, g);
    }
  }

  /** Every fixup of a disjoint in-range list ends up moved exactly once. */
  lemma {:induction false} FieldAfterAll(image: seq<byte>, fixups: seq<Fixup>, adjust: nat, k: nat)
    requires AllInRange(fixups, |image|) && PairwiseApart(fixups) && k < |fixups|
    ensures PatchAll(image, fixups, adjust).1
    ensures Field(PatchAll(image, fixups, adjust).0, fixups[k]) == Moved(Field(image, fixups[k]), fixups[k].kind, adjust)
    decreases |fixups|
  {
    hide Field, Patched, Moved;
    var image', rest := Patched(image, fixups[0], adjust), fixups[1..];
    PatchedField(image, fixups[0], fixups[k], adjust);
    assert forall i :: 0 <= i < |rest| ==> rest[i] == fixups[i + 1];
    if k == 0 {
      assert forall i :: 0 <= i < |rest| ==> Apart(fixups[0], rest[i]);
      FieldAfterOthers(image', rest, adjust, fixups[0]);
      PatchAllRuns(image', rest, adjust);
    } else {
      assert Apart(fixups[0], fixups[k]);
      FieldAfterAll(image', rest, adjust, k - 1);
    }
  }

  lemma {:induction false} PatchAllRuns(image: seq<byte>, fixups: seq<Fixup>, adjust: nat)
    ensures PatchAll(image, fixups, adjust).1 <==> AllInRange(fixups, |image|)
    decreases |fixups|
  {
    if fixups != [] {
      var rest := fixups[1..];
      assert forall k :: 0 < k < |fixups| ==> fixups[k] == rest[k - 1];
      assert forall k :: 0 <= k < |rest| ==> rest[k] == fixups[k + 1];
      if InRange(fixups[0], |image|) {
        PatchAllRuns(Patched(image, fixups[0], adjust), rest, adjust);
      }
    }
  }

  lemma PowDivides(k: Kind)
    ensures k != High ==> exists q: nat :: U64 == q * Pow256(Width(k))
  {
    assert Pow256(2) == 0x10000 && Pow256(4) == U32 && Pow256(8) == U64 by {
      assert Pow256(1) == 256 && Pow256(3) == 0x1000000 && Pow256(4) == U32;
      assert Pow256(5) == 256 * U32 && Pow256(6) == 0x10000 * U32 && Pow256(7) == 0x1000000 * U32;
    }
    match k {
      case Absolute => assert U64 == U64 * Pow256(0);
      case High =>
      case Low => assert U64 == 0x1_0000_0000_0000 * Pow256(2);
      case HighLow => assert U64 == U32 * Pow256(4);
      case Dir64 => assert U64 == 1 * Pow256(8);
    }
  }

  lemma ModMultiple(x: nat, q: nat, m: nat)
    requires m > 0 && q > 0
    ensures (x % (q * m)) % m == x % m
  {
    MulAtLeast(q, m);
    var a, r := x / (q * m), x % (q * m);
    assert x == (a * q) * m + r by { assert a * (q * m) == (a * q) * m; }
    var b, s := r / m, r % m;
    assert x == (a * q + b) * m + s by { assert (a * q) * m + b * m == (a * q + b) * m; }
    ModUnique(x, m, a * q + b, s);
  }

  lemma ModAdd(x: nat, y: nat, m: nat)
    requires m > 0
    ensures (x + y % m) % m == (x + y) % m && (x % m + y) % m == (x + y) % m
  {
    ModShift(x, y, m);
    ModShift(y, x, m);
  }

  lemma ModShift(x: nat, y: nat, m: nat)
    requires m > 0
    ensures (x + y % m) % m == (x + y) % m
  {
    var q, r := y / m, y % m;
    var a, s := (x + r) / m, (x + r) % m;
    assert x + y == (q + a) * m + s by { assert q * m + a * m == (q + a) * m; }
    ModUnique(x + y, m, q + a, s);
  }

  lemma AddTwice(v: nat, a: nat, b: nat, q: nat, m: nat)
    requires m > 0 && q > 0
    ensures ((v + a % m) % m + b % m) % m == (v + ((a + b) % (q * m)) % m) % m
  {
    ModAdd(v, a, m);
    ModAdd((v + a) % m, b, m);
    ModAdd(v + a, b, m);
    ModMultiple(a + b, q, m);
    ModAdd(v, a + b, m);
  }

  /** For every type but HIGH, two moves of a field are one move by the 64-bit sum. */
  lemma MovedTwice(v: nat, k: Kind, a: nat, b: nat)
    requires k != High
    ensures Moved(Moved(v, k, a), k, b) == Moved(v, k, (a + b) % U64)
  {
    hide Pow256;
    PowDivides(k);
    var q: nat :| U64 == q * Pow256(Width(k));
    AddTwice(v, a, b, q, Pow256(Width(k)));
  }

  lemma SameFieldSameBytes(s: seq<byte>, t: seq<byte>, f: Fixup, p: nat)
    requires |s| == |t| && InRange(f, |s|) && Covers(f, p) && Field(s, f) == Field(t, f)
    ensures p < |s| && s[p] == t[p]
  {
    hide FromLE, ToLE;
    var x, y := s[f.at..f.at + Width(f.kind)], t[f.at..f.at + Width(f.kind)];
    FromToLE(x);
    FromToLE(y);
    assert x == y;
    assert s[p] == x[p - f.at] && t[p] == y[p - f.at];
  }

  /** Composition, for in-range, pairwise disjoint fixups of the types that carry whole words. */
  lemma PatchTwice(image: seq<byte>, fixups: seq<Fixup>, a: nat, b: nat)
    requires AllInRange(fixups, |image|) && PairwiseApart(fixups) && NoHigh(fixups)
    ensures PatchAll(PatchAll(image, fixups, a).0, fixups, b) == PatchAll(image, fixups, (a + b) % U64)
  {
    hide Moved, Field;
    var once := PatchAll(image, fixups, a).0;
    var twice := PatchAll(once, fixups, b).0;
    var sum := PatchAll(image, fixups, (a + b) % U64).0;
    forall p | 0 <= p < |image| ensures twice[p] == sum[p] {
      if k :| 0 <= k < |fixups| && Covers(fixups[k], p) {
        FieldAfterAll(image, fixups, a, k);
        FieldAfterAll(once, fixups, b, k);
        FieldAfterAll(image, fixups, (a + b) % U64, k);
        MovedTwice(Field(image, fixups[k]), fixups[k].kind, a, b);
        SameFieldSameBytes(twice, sum, fixups[k], p);
      } else {
        Untouched(image, fixups, a, p);
        Untouched(once, fixups, b, p);
        Untouched(image, fixups, (a + b) % U64, p);
      }
    }
    PatchAllRuns(once, fixups, b);
    PatchAllRuns(image, fixups, (a + b) % U64);
    assert twice == sum;
  }

  lemma MovedByZero(v: nat, k: Kind)
    requires v < Pow256(Width(k))
    ensures Moved(v, k, 0) == v
  {
    ModUnique(0, Pow256(Width(k)), 0, 0);
    ModUnique(v, Pow256(Width(k)), 0, v);
  }

  lemma PatchByZero(image: seq<byte>, fixups: seq<Fixup>)
    requires AllInRange(fixups, |image|) && PairwiseApart(fixups)
    ensures PatchAll(image, fixups, 0).0 == image
  {
    hide Field, Moved, PatchAll, Pow256;
    var r := PatchAll(image, fixups, 0).0;
    forall p | 0 <= p < |image| ensures r[p] == image[p] {
      if k :| 0 <= k < |fixups| && Covers(fixups[k], p) {
        FieldAfterAll(image, fixups, 0, k);
        FieldBound(image, fixups[k]);
        MovedByZero(Field(image, fixups[k]), fixups[k].kind);
        SameFieldSameBytes(r, image, fixups[k], p);
      } else {
        Untouched(image, fixups, 0, p);
      }
    }
    assert r == image;
  }

  lemma FieldBound(image: seq<byte>, f: Fixup)
    requires InRange(f, |image|)
    ensures Field(image, f) < Pow256(Width(f.kind))
  {
    if f.kind != Absolute { FromLEBound(image[f.at..f.at + Width(f.kind)]); }
  }

  /** A table the loader accepts whose fixups lie in the image, apart from each other, none of type HIGH. */
  ghost predicate Regular(orig: seq<byte>, t: Table, len: nat) {
    var plan := TablePlan(orig, t);
    && plan.status == Success && !BadTable(t)
    && AllInRange(plan.fixups, len) && PairwiseApart(plan.fixups) && NoHigh(plan.fixups)
  }

  /** Relocating twice from the same file is relocating once by the sum; both succeed. */
  lemma RelocationComposes(orig: seq<byte>, t: Table, image: seq<byte>, a: nat, b: nat)
    requires Regular(orig, t, |image|) && a < U64 && b < U64
    ensures Relocated(orig, t, b, Relocated(orig, t, a, image).0) == Relocated(orig, t, (a + b) % U64, image)
    ensures Relocated(orig, t, a, image).1 == Success
  {
    hide TablePlan, PatchAll, BadTable;
    var fixups := TablePlan(orig, t).fixups;
    PatchTwice(image, fixups, a, b);
    PatchAllRuns(image, fixups, a);
    PatchAllRuns(image, fixups, (a + b) % U64);
    PatchAllRuns(PatchAll(image, fixups, a).0, fixups, b);
    PatchByZero(image, fixups);
  }

  /** So moving an image and moving it back restores every byte. */
  lemma RelocationUndone(orig: seq<byte>, t: Table, image: seq<byte>, a: nat)
    requires Regular(orig, t, |image|) && a < U64
    ensures Relocated(orig, t, (U64 - a) % U64, Relocated(orig, t, a, image).0) == (image, Success)
  {
    hide Regular, Relocated;
    var back := if a == 0 then 0 else U64 - a;
    assert (U64 - a) % U64 == back && (a + back) % U64 == 0;
    RelocationComposes(orig, t, image, a, back);
    NotMoved(orig, t, image);
  }

  lemma NotMoved(orig: seq<byte>, t: Table, image: seq<byte>)
    requires Regular(orig, t, |image|)
    ensures Relocated(orig, t, 0, image) == (image, Success)
  {
  }

  /** What relocation adds to a field of one type, read from the bytes before and after. */
  predicate FieldMoved(kind: Kind, at: nat, before: seq<byte>, after: seq<byte>, adjust: nat) {
    |after| == |before| &&
    match kind
    case Absolute => true
    case Dir64 => at + 8 <= |before| && Get(after, at, 8) == (Get(before, at, 8) + adjust) % 0x1_0000_0000_0000_0000
    case HighLow => at + 4 <= |before| && Get(after, at, 4) == (Get(before, at, 4) + adjust) % 0x1_0000_0000
    case Low => at + 2 <= |before| && Get(after, at, 2) == (Get(before, at, 2) + adjust) % 0x1_0000
    case High => at + 2 <= |before| && Get(after, at, 2) == (Get(before, at, 2) + adjust / 0x1_0000) % 0x1_0000
  }

  lemma Powers256()
    ensures Pow256(2) == 0x1_0000 && Pow256(4) == 0x1_0000_0000 && Pow256(8) == 0x1_0000_0000_0000_0000
  {
    assert Pow256(1) == 256 && Pow256(3) == 0x1000000 && Pow256(4) == U32;
    assert Pow256(5) == 256 * U32 && Pow256(6) == 0x10000 * U32 && Pow256(7) == 0x1000000 * U32;
  }

  /** Every field of a disjoint in-range list goes up by the displacement, modulo its width; HIGH by its upper part. */
  lemma FieldsMove(image: seq<byte>, fixups: seq<Fixup>, adjust: nat, k: nat)
    requires AllInRange(fixups, |image|) && PairwiseApart(fixups) && k < |fixups|
    ensures FieldMoved(fixups[k].kind, fixups[k].at, image, PatchAll(image, fixups, adjust).0, adjust)
  {
    hide PatchAll, Get, Pow256;
    FieldAfterAll(image, fixups, adjust, k);
    Powers256();
    var f := fixups[k];
    var v := Field(image, f);
    match f.kind {
      case Absolute =>
      case Dir64 => ModAdd(v, adjust, 0x1_0000_0000_0000_0000);
      case HighLow => ModAdd(v, adjust, 0x1_0000_0000);
      case Low => ModAdd(v, adjust, 0x1_0000);
      case High => ModAdd(v, adjust / 0x1_0000, 0x1_0000);
    }
  }

  /** Whatever the table, a byte outside every fixup keeps its value. */
  lemma OnlyFixupsChange(orig: seq<byte>, t: Table, image: seq<byte>, a: nat, p: nat)
    requires p < |image| && forall k :: 0 <= k < |TablePlan(orig, t).fixups| ==> !Covers(TablePlan(orig, t).fixups[k], p)
    ensures |Relocated(orig, t, a, image).0| == |image| && Relocated(orig, t, a, image).0[p] == image[p]
  {
    Untouched(image, TablePlan(orig, t).fixups, a, p);
  }

  /** HIGH is excluded because it drops the carry out of the low half. */
  lemma HighDropsCarry()
    ensures
      var image, fixups: seq<Fixup> := [0, 0], [Fixup(High, 0)];
      PatchAll(PatchAll(image, fixups, 0x8000).0, fixups, 0x8000).0 != PatchAll(image, fixups, 0x10000).0
  {
    hide PatchAll, Field, Moved;
    var image: seq<byte>, fixups := [0, 0], [Fixup(High, 0)];
    var once := PatchAll(image, fixups, 0x8000).0;
    FieldAfterAll(image, fixups, 0x8000, 0);
    FieldAfterAll(once, fixups, 0x8000, 0);
    FieldAfterAll(image, fixups, 0x10000, 0);
    HighMoves(image, fixups[0]);
  }

  lemma HighMoves(image: seq<byte>, f: Fixup)
    requires f == Fixup(High, 0) && image == [0, 0]
    ensures Field(image, f) == 0 && Moved(0, High, 0x8000) == 0 && Moved(0, High, 0x10000) == 1
  {
    assert Pow256(1) == 256 && Pow256(2) == 0x10000;
    assert image[0..2] == image && image[1..] == [0] && image[1..][1..] == [];
    assert FromLE(image[1..]) == 0;
  }
}
