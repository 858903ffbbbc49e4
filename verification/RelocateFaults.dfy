/**
 When relocation reads outside the file or writes outside the image: relocate_coff checks where a block
 ends and where its page begins, against the image size, but not the file's length nor a fixup's end.
 */
module RelocateFaults {
  import opened Bytes
  import opened Relocate
  import opened RelocateLaws
  import opened RelocateTable

  // ---------------------------------------------------------------- in terms of the table's bytes

  function BlockEnd(orig: seq<byte>, off: nat): nat
    requires off + 8 <= |orig|
  {
    off + Get(orig, off + 4, 4)
  }

  /** The entry at r lies outside the file, or its field outside the image. */
  predicate EntryFaults(orig: seq<byte>, r: nat, va: nat, len: nat) {
    || r + 2 > |orig|
    || (var w := Get(orig, r, 2);
        var k := KindOf(w / 0x1000);
        k.Some? && k.value != Absolute && va + w % 0x1000 + Width(k.value) > len)
  }

  /** The entry at r is patched or skipped. */
  predicate EntryClean(orig: seq<byte>, r: nat, va: nat, len: nat) {
    !EntryFaults(orig, r, va, len) && KindOf(Get(orig, r, 2) / 0x1000).Some?
  }

  /** q is the position of an entry, counting in twos from r. */
  predicate OnStep(r: nat, q: nat) { r <= q && (q - r) % 2 == 0 }

  /** Some entry from r on faults, and every entry before it is clean. */
  ghost predicate EntriesFault(orig: seq<byte>, r: nat, end: nat, va: nat, len: nat) {
    exists q: nat :: OnStep(r, q) && q < end && EntryFaults(orig, q, va, len) && EntriesClean(orig, r, q, va, len)
  }

  predicate EntriesClean(orig: seq<byte>, r: nat, end: nat, va: nat, len: nat) {
    forall q: nat :: q < end && OnStep(r, q) ==> EntryClean(orig, q, va, len)
  }

  /** The walk stands at a block whose header, or the first entry that is not clean, faults. */
  ghost predicate BlockFaults(orig: seq<byte>, t: Table, off: nat, len: nat) {
    || off + 8 > |orig|
    || (BlockError(orig, t, off).None? && EntriesFault(orig, off + 8, BlockEnd(orig, off), Get(orig, off, 4), len))
  }

  /** The walk gets past this block. */
  ghost predicate BlockClean(orig: seq<byte>, t: Table, off: nat, len: nat) {
    off + 8 <= |orig| && BlockError(orig, t, off).None? && EntriesClean(orig, off + 8, BlockEnd(orig, off), Get(orig, off, 4), len)
  }

  /** Block offsets the walk visits from the first on: each is where the block before it ends, and all but the last are clean. */
  ghost predicate Visits(orig: seq<byte>, t: Table, first: nat, last: nat, len: nat, offs: seq<nat>) {
    && offs != [] && offs[0] == first && (forall k :: 0 <= k < |offs| ==> offs[k] < last)
    && forall k :: 0 <= k < |offs| - 1 ==> BlockClean(orig, t, offs[k], len) && offs[k + 1] == BlockEnd(orig, offs[k])
  }

  /** The walk from `first` reaches a block that faults. */
  ghost predicate WalkFaults(orig: seq<byte>, t: Table, first: nat, last: nat, len: nat) {
    exists offs: seq<nat> :: Visits(orig, t, first, last, len, offs) && BlockFaults(orig, t, offs[|offs| - 1], len)
  }

  // ---------------------------------------------------------------- the plan says the same

  /** What patching a plan over an image of this length ends with. */
  predicate PlanFaults(p: Plan, len: nat) { !AllInRange(p.fixups, len) || p.status == Fault }

  lemma ThenFaults(f: Fixup, p: Plan, len: nat)
    ensures PlanFaults(Then([f], p), len) <==> !InRange(f, len) || PlanFaults(p, len)
  {
    var all := Then([f], p).fixups;
    assert all[0] == f && forall k :: 0 < k < |all| ==> all[k] == p.fixups[k - 1];
    if !AllInRange(p.fixups, len) {
      var k :| 0 <= k < |p.fixups| && !InRange(p.fixups[k], len);
      assert all[k + 1] == p.fixups[k];
    }
  }

  lemma CleanStep(orig: seq<byte>, r: nat, end: nat, va: nat, len: nat)
    ensures EntriesClean(orig, r, end, va, len) <==>
      r < end ==> EntryClean(orig, r, va, len) && EntriesClean(orig, r + 2, end, va, len)
  {
    hide EntryClean;
    if EntriesClean(orig, r, end, va, len) && r < end {
      assert OnStep(r, r);
      forall q: nat | q < end && OnStep(r + 2, q) ensures EntryClean(orig, q, va, len) { assert OnStep(r, q); }
    }
    if r < end && EntryClean(orig, r, va, len) && EntriesClean(orig, r + 2, end, va, len) {
      forall q: nat | q < end && OnStep(r, q) ensures EntryClean(orig, q, va, len) {
        if q > r { assert OnStep(r + 2, q); }
      }
    }
  }

  lemma FaultStep(orig: seq<byte>, r: nat, end: nat, va: nat, len: nat)
    ensures EntriesFault(orig, r, end, va, len) <==>
      r < end && (EntryFaults(orig, r, va, len) || (EntryClean(orig, r, va, len) && EntriesFault(orig, r + 2, end, va, len)))
  {
    hide EntryFaults, EntryClean, EntriesClean;
    CleanStep(orig, r, r, va, len);
    if EntriesFault(orig, r, end, va, len) {
      var q: nat :| OnStep(r, q) && q < end && EntryFaults(orig, q, va, len) && EntriesClean(orig, r, q, va, len);
      CleanStep(orig, r, q, va, len);
      if q > r { assert OnStep(r + 2, q); }
    }
    if r < end && EntryFaults(orig, r, va, len) { assert OnStep(r, r); }
    if r < end && EntryClean(orig, r, va, len) && EntriesFault(orig, r + 2, end, va, len) {
      var q: nat :| OnStep(r + 2, q) && q < end && EntryFaults(orig, q, va, len) && EntriesClean(orig, r + 2, q, va, len);
      CleanStep(orig, r, q, va, len);
      assert OnStep(r, q);
    }
  }

  lemma {:induction false} EntriesPlan(orig: seq<byte>, r: nat, end: nat, va: nat, rest: Plan, len: nat)
    ensures PlanFaults(EntryPlan(orig, r, end, va, rest), len) <==>
      EntriesFault(orig, r, end, va, len) || (EntriesClean(orig, r, end, va, len) && PlanFaults(rest, len))
    decreases end - r
  {
    hide EntryPlan, EntriesFault, EntriesClean, PlanFaults;
    EntryPlanStep(orig, r, end, va, rest);
    FaultStep(orig, r, end, va, len);
    CleanStep(orig, r, end, va, len);
    PlanEnds(len);
    if r < end && r + 2 <= |orig| {
      var w := Get(orig, r, 2);
      var kind := KindOf(w / 0x1000);
      if kind.Some? {
        ThenFaults(Fixup(kind.value, va + w % 0x1000), EntryPlan(orig, r + 2, end, va, rest), len);
        EntriesPlan(orig, r + 2, end, va, rest, len);
      }
    }
  }

  lemma PlanEnds(len: nat)
    ensures PlanFaults(Plan([], Fault), len) && !PlanFaults(Plan([], Unsupported), len) && !PlanFaults(Plan([], Success), len)
  {
  }

  lemma {:induction false} BlocksPlan(orig: seq<byte>, t: Table, off: nat, last: nat, len: nat)
    ensures PlanFaults(BlockPlan(orig, t, off, last), len) <==> WalkFaults(orig, t, off, last, len)
    decreases last - off
  {
    hide BlockPlan, EntryPlan, EntriesFault, EntriesClean, PlanFaults, WalkFaults, BlockError, Get;
    BlockPlanStep(orig, t, off, last);
    PlanEnds(len);
    if off >= last {
      NoVisit(orig, t, off, last, len);
    } else {
      ErrorKinds(orig, t, off);
      if BlockError(orig, t, off).None? {
        var end := BlockEnd(orig, off);
        EntriesPlan(orig, off + 8, end, Get(orig, off, 4), BlockPlan(orig, t, end, last), len);
        BlocksPlan(orig, t, end, last, len);
      }
      VisitStep(orig, t, off, last, len);
    }
  }

  lemma ErrorKinds(orig: seq<byte>, t: Table, off: nat)
    ensures BlockError(orig, t, off) == Some(Fault) <==> off + 8 > |orig|
    ensures BlockError(orig, t, off).None? ==> off + 8 <= |orig| && BlockEnd(orig, off) > off
    ensures BlockError(orig, t, off) in {None, Some(Fault), Some(Unsupported)}
  {
  }

  lemma NoVisit(orig: seq<byte>, t: Table, off: nat, last: nat, len: nat)
    requires off >= last
    ensures !WalkFaults(orig, t, off, last, len)
  {
  }

  /** The walk faults at this block, or gets past it and faults further on. */
  lemma VisitStep(orig: seq<byte>, t: Table, off: nat, last: nat, len: nat)
    requires off < last
    ensures WalkFaults(orig, t, off, last, len) <==>
      BlockFaults(orig, t, off, len)
      || (BlockClean(orig, t, off, len) && WalkFaults(orig, t, BlockEnd(orig, off), last, len))
  {
    hide BlockFaults, BlockError, EntriesClean, Get;
    if WalkFaults(orig, t, off, last, len) {
      var offs: seq<nat> :| Visits(orig, t, off, last, len, offs) && BlockFaults(orig, t, offs[|offs| - 1], len);
      if |offs| > 1 {
        var rest := offs[1..];
        assert forall k :: 0 <= k < |rest| ==> rest[k] == offs[k + 1];
        assert Visits(orig, t, rest[0], last, len, rest);
      }
    }
    if BlockFaults(orig, t, off, len) {
      var one: seq<nat> := [off];
      assert Visits(orig, t, off, last, len, one) && BlockFaults(orig, t, one[|one| - 1], len);
    }
    if BlockClean(orig, t, off, len) && WalkFaults(orig, t, BlockEnd(orig, off), last, len) {
      var rest: seq<nat> :| Visits(orig, t, BlockEnd(orig, off), last, len, rest) && BlockFaults(orig, t, rest[|rest| - 1], len);
      var offs := [off] + rest;
      assert forall k :: 0 < k < |offs| ==> offs[k] == rest[k - 1];
      assert Visits(orig, t, off, last, len, offs) && offs[|offs| - 1] == rest[|rest| - 1];
    }
  }

  // ---------------------------------------------------------------- the condition

  /** Both ends of the table lie in the image, as far as its size goes. */
  predicate TableInside(t: Table) {
    var size := Widen(IntSize(t.imageSize));
    t.rawPointer < size && (t.rawPointer + t.relocSize - 1) % U32 < size
  }

  /** The bytes of the table make the loader leave the file or the image. */
  ghost predicate TableFaults(orig: seq<byte>, t: Table, len: nat) {
    TableInside(t) && WalkFaults(orig, t, t.rawPointer, (t.rawPointer + t.relocSize - 1) % U32, len)
  }

  /**
   Relocation leaves the file or the image exactly when the image moves and the walk over the table's
   blocks, every block before it clean, reaches a header outside the file, an entry outside the file, or
   an entry whose field ends outside the image.
   */
  lemma FaultIff(orig: seq<byte>, t: Table, adjust: nat, image: seq<byte>)
    ensures Relocated(orig, t, adjust, image).1 == Fault <==> adjust != 0 && TableFaults(orig, t, |image|)
  {
    hide PatchAll, BlockPlan, WalkFaults;
    PatchAllRuns(image, TablePlan(orig, t).fixups, adjust);
    PlanEnds(|image|);
    if TableInside(t) {
      BlocksPlan(orig, t, t.rawPointer, (t.rawPointer + t.relocSize - 1) % U32, |image|);
    }
  }

  // ---------------------------------------------------------------- inputs

  /** A 64-bit field that begins four bytes before the image's end. */
  lemma FieldOverEnd(before: seq<byte>, after: seq<byte>, image: seq<byte>, adjust: nat)
    requires |image| == 0x1000 && |before| + 10 <= 0x1000 && adjust != 0
    ensures
      var bs := [Block(0, [Entry(Dir64, 0xffc)])];
      var t := Table(0x1000, |PrintTable(bs)|, |before|);
      Relocated(before + PrintTable(bs) + after, t, adjust, image).1 == Fault
  {
    hide PatchAll, TablePlan, PrintTable, PrintBlock;
    var b := Block(0, [Entry(Dir64, 0xffc)]);
    var bs := [b];
    OneBlock(b);
    TableRoundTrip(before, bs, after, 0x1000);
    var fixups := TableFixups(bs);
    assert fixups == [Fixup(Dir64, 0xffc)] by { OneFixup(b); }
    var t := Table(0x1000, |PrintTable(bs)|, |before|);
    PatchAllRuns(image, fixups, adjust);
    assert !InRange(fixups[0], |image|);
    assert !BadTable(t);
  }

  lemma OneBlock(b: Block)
    ensures |PrintTable([b])| == 8 + 2 * |b.entries|
  {
    var one: seq<Block> := [b];
    assert one[1..] == [];
  }

  lemma OneFixup(b: Block)
    requires |b.entries| == 1
    ensures TableFixups([b]) == [Fixup(b.entries[0].kind, b.va + b.entries[0].offset)]
  {
    var one: seq<Block> := [b];
    assert one[1..] == [] && b.entries[1..] == [];
    assert BlockFixups(b.va, b.entries[1..]) == [];
  }

  /** A file that ends behind a block's header, while the header and the directory promise entries. */
  lemma EntryBehindFile(before: seq<byte>, image: seq<byte>, adjust: nat)
    requires |before| + 10 <= 0x1000 && adjust != 0
    ensures
      var t := Table(0x1000, 10, |before|);
      Relocated(before + (ToLE(0, 4) + ToLE(10, 4)), t, adjust, image).1 == Fault
  {
    hide Get, ToLE, At, WalkFaults, Pow256;
    var orig := before + (ToLE(0, 4) + ToLE(10, 4));
    var t := Table(0x1000, 10, |before|);
    var off, last := |before|, |before| + 9;
    assert At(orig, off, ToLE(0, 4) + ToLE(10, 4)) by { TailAt(before, ToLE(0, 4) + ToLE(10, 4)); }
    AtSplit(orig, off, ToLE(0, 4), ToLE(10, 4));
    Powers();
    ReadWord(orig, off, 0, 4);
    ReadWord(orig, off + 4, 10, 4);
    FaultStep(orig, off + 8, off + 10, 0, |image|);
    assert BlockFaults(orig, t, off, |image|);
    VisitStep(orig, t, off, last, |image|);
    assert (t.rawPointer + t.relocSize - 1) % U32 == last;
    FaultIff(orig, t, adjust, image);
  }

  lemma TailAt(before: seq<byte>, s: seq<byte>)
    ensures At(before + s, |before|, s)
  {
  }
}
