/** When relocation succeeds, in the table's bytes: block sizes, entry codes and the image's length. */
module RelocateStatus {
  import opened Bytes
  import opened Relocate
  import opened RelocateLaws
  import opened RelocateFaults

  /** Bytes of the field an entry with this code moves; no other code is allowed. */
  function FieldWidth(code: nat): Option<nat> {
    if code == 0 then Some(0) else if code == 1 || code == 2 then Some(2) else if code == 3 then Some(4)
    else if code == 10 then Some(8) else None
  }

  /** The entry at q is in the file, has a code that is allowed, and its field ends inside the image. */
  predicate GoodEntry(orig: seq<byte>, q: nat, va: nat, len: nat) {
    && q + 2 <= |orig|
    && var code, at := Get(orig, q, 2) / 0x1000, Get(orig, q, 2) % 0x1000;
       FieldWidth(code).Some? && (code != 0 ==> va + at + FieldWidth(code).value <= len)
  }

  /**
   The block at off has a header in the file, a size within the directory's that ends in the image, a page in
   the image, and good entries behind its header up to its end.
   */
  predicate GoodBlock(orig: seq<byte>, imageSize: nat, relocSize: nat, off: nat, len: nat) {
    && off + 8 <= |orig| && imageSize < 0x8000_0000
    && 0 < Get(orig, off + 4, 4) <= relocSize && off + Get(orig, off + 4, 4) <= imageSize && Get(orig, off, 4) < imageSize
    && forall q: nat :: q < off + Get(orig, off + 4, 4) && OnStep(off + 8, q) ==> GoodEntry(orig, q, Get(orig, off, 4), len)
  }

  predicate NextBlock(orig: seq<byte>, off: nat, next: nat) { off + 8 <= |orig| && next == off + Get(orig, off + 4, 4) }

  /** Good blocks, one where the other ends, until the last byte of the table is passed. */
  predicate GoodTable(orig: seq<byte>, imageSize: nat, relocSize: nat, first: nat, last: nat, len: nat, offs: seq<nat>) {
    && offs != [] && offs[0] == first && offs[|offs| - 1] >= last
    && (forall k :: 0 <= k < |offs| - 1 ==> offs[k] < last && GoodBlock(orig, imageSize, relocSize, offs[k], len))
    && forall k :: 0 <= k < |offs| - 1 ==> NextBlock(orig, offs[k], offs[k + 1])
  }

  ghost predicate WalkGood(orig: seq<byte>, imageSize: nat, relocSize: nat, first: nat, last: nat, len: nat) {
    exists offs: seq<nat> :: GoodTable(orig, imageSize, relocSize, first, last, len, offs)
  }

  // ---------------------------------------------------------------- the plan says the same

  predicate PlanGood(p: Plan, len: nat) { AllInRange(p.fixups, len) && p.status == Success }

  lemma ThenGood(f: Fixup, p: Plan, len: nat)
    ensures PlanGood(Then([f], p), len) <==> InRange(f, len) && PlanGood(p, len)
  {
    ThenFaults(f, Plan(p.fixups, Success), len);
  }

  lemma EntryIff(orig: seq<byte>, q: nat, va: nat, len: nat)
    ensures GoodEntry(orig, q, va, len) <==> EntryClean(orig, q, va, len)
  {
    hide Get;
  }

  lemma EntriesGood(orig: seq<byte>, r: nat, end: nat, va: nat, len: nat)
    ensures EntriesClean(orig, r, end, va, len) <==> forall q: nat :: q < end && OnStep(r, q) ==> GoodEntry(orig, q, va, len)
  {
    hide EntryClean, GoodEntry, OnStep;
    forall q: nat ensures GoodEntry(orig, q, va, len) <==> EntryClean(orig, q, va, len) { EntryIff(orig, q, va, len); }
  }

  lemma {:induction false} EntriesSucceed(orig: seq<byte>, r: nat, end: nat, va: nat, rest: Plan, len: nat)
    ensures PlanGood(EntryPlan(orig, r, end, va, rest), len) <==> EntriesClean(orig, r, end, va, len) && PlanGood(rest, len)
    decreases end - r
  {
    hide EntryPlan, EntriesClean, PlanGood;
    EntryPlanStep(orig, r, end, va, rest);
    CleanStep(orig, r, end, va, len);
    Ends(len);
    if r < end && r + 2 <= |orig| {
      var w := Get(orig, r, 2);
      var kind := KindOf(w / 0x1000);
      if kind.Some? {
        ThenGood(Fixup(kind.value, va + w % 0x1000), EntryPlan(orig, r + 2, end, va, rest), len);
        EntriesSucceed(orig, r + 2, end, va, rest, len);
      }
    }
  }

  lemma Ends(len: nat)
    ensures !PlanGood(Plan([], Fault), len) && !PlanGood(Plan([], Unsupported), len) && PlanGood(Plan([], Success), len)
  {
  }

  /** A block the walk gets past, in its bytes. */
  lemma BlockIff(orig: seq<byte>, t: Table, off: nat, len: nat)
    requires t.imageSize < U32
    ensures GoodBlock(orig, t.imageSize, t.relocSize, off, len) <==> BlockClean(orig, t, off, len)
  {
    hide Get, GoodEntry, EntriesClean, OnStep;
    if off + 8 <= |orig| { EntriesGood(orig, off + 8, BlockEnd(orig, off), Get(orig, off, 4), len); }
  }

  /** Past the table's last byte there is nothing to do. */
  lemma PastLast(orig: seq<byte>, n: nat, size: nat, first: nat, last: nat, len: nat)
    requires first >= last
    ensures WalkGood(orig, n, size, first, last, len)
  {
    assert GoodTable(orig, n, size, first, last, len, [first]);
  }

  /** One block further. */
  lemma GoodStep(orig: seq<byte>, n: nat, size: nat, first: nat, last: nat, len: nat)
    requires first < last
    ensures WalkGood(orig, n, size, first, last, len) <==>
      && GoodBlock(orig, n, size, first, len)
      && WalkGood(orig, n, size, first + Get(orig, first + 4, 4), last, len)
  {
    hide GoodBlock, Get;
    BlockHeader(orig, n, size, first, len);
    if WalkGood(orig, n, size, first, last, len) {
      var offs: seq<nat> :| GoodTable(orig, n, size, first, last, len, offs);
      var rest := offs[1..];
      assert forall k :: 0 <= k < |rest| ==> rest[k] == offs[k + 1];
      assert NextBlock(orig, offs[0], offs[0 + 1]);
      forall k | 0 <= k < |rest| - 1 ensures NextBlock(orig, rest[k], rest[k + 1]) {
        assert NextBlock(orig, offs[k + 1], offs[k + 1 + 1]);
      }
      assert GoodTable(orig, n, size, rest[0], last, len, rest);
    }
    if GoodBlock(orig, n, size, first, len) && WalkGood(orig, n, size, first + Get(orig, first + 4, 4), last, len) {
      var rest: seq<nat> :| GoodTable(orig, n, size, first + Get(orig, first + 4, 4), last, len, rest);
      var offs := [first] + rest;
      assert forall k :: 0 < k < |offs| ==> offs[k] == rest[k - 1];
      forall k | 0 <= k < |offs| - 1 ensures NextBlock(orig, offs[k], offs[k + 1]) {
        if k > 0 { assert NextBlock(orig, rest[k - 1], rest[k - 1 + 1]); }
      }
      assert GoodTable(orig, n, size, first, last, len, offs);
    }
  }

  lemma BlockHeader(orig: seq<byte>, n: nat, size: nat, off: nat, len: nat)
    ensures GoodBlock(orig, n, size, off, len) ==> off + 8 <= |orig|
  {
  }

  lemma {:induction false} BlocksSucceed(orig: seq<byte>, t: Table, off: nat, last: nat, len: nat)
    requires t.imageSize < U32
    ensures PlanGood(BlockPlan(orig, t, off, last), len) <==> WalkGood(orig, t.imageSize, t.relocSize, off, last, len)
    decreases last - off
  {
    hide BlockPlan, EntryPlan, EntriesClean, PlanGood, WalkGood, BlockError, Get, GoodBlock;
    BlockPlanStep(orig, t, off, last);
    Ends(len);
    if off >= last {
      PastLast(orig, t.imageSize, t.relocSize, off, last, len);
    } else {
      ErrorKinds(orig, t, off);
      BlockIff(orig, t, off, len);
      GoodStep(orig, t.imageSize, t.relocSize, off, last, len);
      if BlockError(orig, t, off).None? {
        var end := BlockEnd(orig, off);
        EntriesSucceed(orig, off + 8, end, Get(orig, off, 4), BlockPlan(orig, t, end, last), len);
        BlocksSucceed(orig, t, end, last, len);
      }
    }
  }

  /** An address the loader takes as inside the image; a size from 2^31 on is sign-extended and admits any. */
  predicate InImage(imageSize: nat, address: nat) { imageSize >= 0x8000_0000 || address < imageSize }

  /**
   Relocation succeeds exactly when the table lies outside the image with both ends, or inside with both and the
   image either stays where it was linked or the table is good blocks up to its last byte.
   */
  lemma SuccessIff(orig: seq<byte>, t: Table, adjust: nat, image: seq<byte>)
    requires t.imageSize < U32 && t.rawPointer < U32 && t.relocSize < U32
    ensures
      var last := (t.rawPointer + t.relocSize - 1) % 0x1_0000_0000;
      Relocated(orig, t, adjust, image).1 == Success <==>
        || (!InImage(t.imageSize, t.rawPointer) && !InImage(t.imageSize, last))
        || (InImage(t.imageSize, t.rawPointer) && InImage(t.imageSize, last)
            && (adjust == 0 || WalkGood(orig, t.imageSize, t.relocSize, t.rawPointer, last, |image|)))
  {
    hide PatchAll, BlockPlan, WalkGood;
    var last := (t.rawPointer + t.relocSize - 1) % U32;
    PatchAllRuns(image, TablePlan(orig, t).fixups, adjust);
    Ends(|image|);
    BlocksSucceed(orig, t, t.rawPointer, last, |image|);
  }
}
