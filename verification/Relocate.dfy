/**
 pe-relocate.c: base relocations.  `orig` is the file, `data` the loaded image; pointers into either
 are offsets.  Reading or writing outside them is undefined in C and shows here as Fault.
 */
module Relocate {
  import opened Bytes

  const U32 := 0x1_0000_0000
  const U64 := 0x1_0000_0000_0000_0000

  datatype Status = Success | Unsupported | Fault
  datatype Kind = Absolute | High | Low | HighLow | Dir64
  datatype Fixup = Fixup(kind: Kind, at: nat)

  /** The loader fields relocation reads. */
  datatype Table = Table(imageSize: nat, relocSize: nat, rawPointer: nat)

  function ImageAddress(size: nat, address: nat): Option<nat> {
    if address >= size then None else Some(address)
  }

  /** ImageSize after conversion to a C int. */
  function IntSize(imageSize: nat): int {
    var t := imageSize % U32;
    if t >= 0x8000_0000 then t - U32 else t
  }

  /** A C int passed where a 64-bit unsigned is expected. */
  function Widen(n: int): nat
    requires -U64 <= n < U64
  {
    if n < 0 then n + U64 else n
  }

  function Width(k: Kind): nat {
    match k case Absolute => 0 case High => 2 case Low => 2 case HighLow => 4 case Dir64 => 8
  }

  function KindOf(code: nat): Option<Kind> {
    if code == 0 then Some(Absolute)
    else if code == 1 then Some(High)
    else if code == 2 then Some(Low)
    else if code == 3 then Some(HighLow)
    else if code == 10 then Some(Dir64)
    else None
  }

  // ---------------------------------------------------------------- the flattened table

  datatype Plan = Plan(fixups: seq<Fixup>, status: Status)

  function Then(fixups: seq<Fixup>, p: Plan): Plan { Plan(fixups + p.fixups, p.status) }

  /** The 16-bit entries at offsets r, r + 2, ... below `end`, for a block based at `base`; then `rest`. */
  function EntryPlan(orig: seq<byte>, r: nat, end: nat, base: nat, rest: Plan): Plan
    decreases end - r
  {
    if r >= end then rest
    else if r + 2 > |orig| then Plan([], Fault)
    else
      var w := Get(orig, r, 2);
      match KindOf(w / 0x1000)
      case None => Plan([], Unsupported)
      case Some(k) => Then([Fixup(k, base + w % 0x1000)], EntryPlan(orig, r + 2, end, base, rest))
  }

  /** Why a block header stops the walk, if it does. */
  function BlockError(orig: seq<byte>, t: Table, off: nat): Option<Status> {
    if off + 8 > |orig| then Some(Fault)
    else
      var va, sz := Get(orig, off, 4), Get(orig, off + 4, 4);
      if sz == 0 || sz > t.relocSize || off + sz > IntSize(t.imageSize)
         || va >= Widen(IntSize(t.imageSize)) then Some(Unsupported)
      else None
  }

  /** The blocks from offset `off` on; the last byte of the table is at `last`. */
  function BlockPlan(orig: seq<byte>, t: Table, off: nat, last: nat): Plan
    decreases last - off
  {
    if off >= last then Plan([], Success)
    else match BlockError(orig, t, off)
      case Some(e) => Plan([], e)
      case None =>
        var end := off + Get(orig, off + 4, 4);
        EntryPlan(orig, off + 8, end, Get(orig, off, 4), BlockPlan(orig, t, end, last))
  }

  /** Everything relocate_coff is going to do, before the first byte is patched. */
  function TablePlan(orig: seq<byte>, t: Table): Plan {
    var size := Widen(IntSize(t.imageSize));
    var first := ImageAddress(size, t.rawPointer);
    var last := ImageAddress(size, (t.rawPointer + t.relocSize - 1) % U32);
    if first.None? && last.None? then Plan([], Success)
    else if first.None? || last.None? then Plan([], Unsupported)
    else BlockPlan(orig, t, first.value, last.value)
  }

  // ---------------------------------------------------------------- patching

  /** What one fixup adds to its field. */
  function Addend(k: Kind, adjust: nat): nat {
    if k == High then (adjust / 0x10000) % 0x10000 else adjust % Pow256(Width(k))
  }

  predicate InRange(f: Fixup, len: nat) { f.kind == Absolute || f.at + Width(f.kind) <= len }

  function Patched(image: seq<byte>, f: Fixup, adjust: nat): (r: seq<byte>)
    requires InRange(f, |image|)
    ensures |r| == |image|
  {
    if f.kind == Absolute then image
    else
      var w := Width(f.kind);
      Put(image, f.at, ToLE(Get(image, f.at, w) + Addend(f.kind, adjust), w))
  }

  /** Patch in order, stopping before the first fixup that leaves the image. */
  function PatchAll(image: seq<byte>, fixups: seq<Fixup>, adjust: nat): (r: (seq<byte>, bool))
    ensures |r.0| == |image|
    decreases |fixups|
  {
    if fixups == [] then (image, true)
    else if !InRange(fixups[0], |image|) then (image, false)
    else PatchAll(Patched(image, fixups[0], adjust), fixups[1..], adjust)
  }

  /** Image and status after relocating by `adjust`. */
  function Relocated(orig: seq<byte>, t: Table, adjust: nat, image: seq<byte>): (seq<byte>, Status) {
    var plan := TablePlan(orig, t);
    if adjust == 0 then (image, if BadTable(t) then Unsupported else Success)
    else
      var (image', ok) := PatchAll(image, plan.fixups, adjust);
      (image', if ok then plan.status else Fault)
  }

  /** The table's two ends are not both inside or both outside the image. */
  predicate BadTable(t: Table) {
    var size := Widen(IntSize(t.imageSize));
    ImageAddress(size, t.rawPointer).None? != ImageAddress(size, (t.rawPointer + t.relocSize - 1) % U32).None?
  }

  lemma {:induction false} PatchAllAppend(image: seq<byte>, a: seq<Fixup>, b: seq<Fixup>, adjust: nat)
    requires PatchAll(image, a, adjust).1
    ensures PatchAll(image, a + b, adjust) == PatchAll(PatchAll(image, a, adjust).0, b, adjust)
    decreases |a|
  {
    if a == [] {
      assert a + b == b;
    } else {
      assert (a + b)[1..] == a[1..] + b;
      PatchAllAppend(Patched(image, a[0], adjust), a[1..], b, adjust);
    }
  }

  /** What a loop that has patched `done` and still has `rest` ahead has to know. */
  ghost predicate Underway(image: seq<byte>, image': seq<byte>, adjust: nat, done: seq<Fixup>, rest: Plan, whole: Plan) {
    PatchAll(image, done, adjust) == (image', true) && whole == Then(done, rest)
  }

  ghost predicate Finished(image: seq<byte>, image': seq<byte>, adjust: nat, whole: Plan, status: Status) {
    var (r, ok) := PatchAll(image, whole.fixups, adjust);
    image' == r && status == if ok then whole.status else Fault
  }

  /** One more entry: patched, or out of the image. */
  lemma UnderwayStep(image: seq<byte>, image': seq<byte>, adjust: nat, done: seq<Fixup>, f: Fixup, rest: Plan, whole: Plan)
    requires Underway(image, image', adjust, done, Then([f], rest), whole)
    ensures InRange(f, |image'|) ==> Underway(image, Patched(image', f, adjust), adjust, done + [f], rest, whole)
    ensures !InRange(f, |image'|) ==> Finished(image, image', adjust, whole, Fault)
  {
    PatchAllAppend(image, done, [f], adjust);
    assert done + ([f] + rest.fixups) == (done + [f]) + rest.fixups;
    if !InRange(f, |image'|) {
      PatchAllAppend(image, done, [f] + rest.fixups, adjust);
    } else {
      assert PatchAll(Patched(image', f, adjust), [f][1..], adjust) == (Patched(image', f, adjust), true);
    }
  }

  lemma UnderwayEnds(image: seq<byte>, image': seq<byte>, adjust: nat, done: seq<Fixup>, status: Status, whole: Plan)
    requires Underway(image, image', adjust, done, Plan([], status), whole)
    ensures Finished(image, image', adjust, whole, status)
  {
    assert done + [] == done;
  }

  /** Read-modify-write of one little-endian field of the image. */
  method PatchField(data: array<byte>, f: Fixup, adjust: nat)
    requires InRange(f, data.Length)
    modifies data
    ensures data[..] == Patched(old(data[..]), f, adjust)
  {
    if f.kind == Absolute { return; }
    var w := Width(f.kind);
    var val := FromLE(data[f.at..f.at + w]) + Addend(f.kind, adjust);
    var bytes := ToLE(val, w);
    assert data[f.at..f.at + w] == data[..][f.at..f.at + w];
    ghost var before := data[..];
    for i := 0 to w
      invariant forall k :: 0 <= k < data.Length ==>
        data[k] == if f.at <= k < f.at + i then bytes[k - f.at] else before[k]
    {
      data[f.at + i] := bytes[i];
    }
    assert data[..] == Put(before, f.at, bytes);
  }

  /** Apply the relocation table of `orig` to the image. */
  method RelocateCoff(orig: seq<byte>, t: Table, adjust: nat, data: array<byte>) returns (status: Status)
    requires t.rawPointer < U32 && t.relocSize < U32 && adjust < U64
    modifies data
    ensures (data[..], status) == Relocated(orig, t, adjust, old(data[..]))
  {
    hide PatchAll, Patched, BlockPlan, EntryPlan;
    var size: int := IntSize(t.imageSize);
    var first := ImageAddress(Widen(size), t.rawPointer);
    var last := ImageAddress(Widen(size), (t.rawPointer + t.relocSize - 1) % U32);
    NothingToPatch(data[..], adjust);
    if first.None? && last.None? { return Success; }
    if first.None? || last.None? { return Unsupported; }
    if adjust == 0 { return Success; }
    status := RelocateBlocks(orig, t, adjust, data, first.value, last.value);
  }

  lemma NothingToPatch(image: seq<byte>, adjust: nat)
    ensures PatchAll(image, [], adjust) == (image, true)
  {
  }

  lemma BlockPlanStep(orig: seq<byte>, t: Table, off: nat, last: nat)
    ensures off >= last ==> BlockPlan(orig, t, off, last) == Plan([], Success)
    ensures off < last && BlockError(orig, t, off).Some? ==>
      BlockPlan(orig, t, off, last) == Plan([], BlockError(orig, t, off).value)
    ensures off < last && BlockError(orig, t, off).None? ==>
      var end := off + Get(orig, off + 4, 4);
      end > off && BlockPlan(orig, t, off, last) ==
        EntryPlan(orig, off + 8, end, Get(orig, off, 4), BlockPlan(orig, t, end, last))
  {
  }

  lemma EntryPlanStep(orig: seq<byte>, r: nat, end: nat, base: nat, rest: Plan)
    ensures r >= end ==> EntryPlan(orig, r, end, base, rest) == rest
    ensures r < end && r + 2 > |orig| ==> EntryPlan(orig, r, end, base, rest) == Plan([], Fault)
    ensures r < end && r + 2 <= |orig| ==>
      var w := Get(orig, r, 2);
      EntryPlan(orig, r, end, base, rest) ==
        match KindOf(w / 0x1000)
        case None => Plan([], Unsupported)
        case Some(k) => Then([Fixup(k, base + w % 0x1000)], EntryPlan(orig, r + 2, end, base, rest))
  {
  }

  method RelocateBlocks(orig: seq<byte>, t: Table, adjust: nat, data: array<byte>, first: nat, last: nat)
    returns (status: Status)
    modifies data
    ensures Finished(old(data[..]), data[..], adjust, BlockPlan(orig, t, first, last), status)
  {
    hide PatchAll, Patched, BlockPlan, EntryPlan, Finished, BlockError;
    ghost var image, whole := data[..], BlockPlan(orig, t, first, last);
    ghost var done: seq<Fixup> := [];
    var off := first;
    NothingToPatch(image, adjust);
    while off < last
      invariant Underway(image, data[..], adjust, done, BlockPlan(orig, t, off, last), whole)
      decreases last - off
    {
      BlockPlanStep(orig, t, off, last);
      var error := CheckBlock(orig, t, off);
      if error.Some? {
        UnderwayEnds(image, data[..], adjust, done, error.value, whole);
        return error.value;
      }
      var end := off + Get(orig, off + 4, 4);
      var stop;
      stop, done := RelocateEntries(orig, adjust, data, off + 8, end, Get(orig, off, 4),
                                    image, done, BlockPlan(orig, t, end, last), whole);
      if stop.Some? { return stop.value; }
      off := end;
    }
    BlockPlanStep(orig, t, off, last);
    UnderwayEnds(image, data[..], adjust, done, Success, whole);
    return Success;
  }

  /** The checks on one block header, in the order the loader makes them. */
  method CheckBlock(orig: seq<byte>, t: Table, off: nat) returns (error: Option<Status>)
    ensures error == BlockError(orig, t, off)
    ensures error.None? ==> off + 8 <= |orig| && Get(orig, off + 4, 4) > 0
  {
    if off + 8 > |orig| { return Some(Fault); }
    var sz := Get(orig, off + 4, 4);
    if sz == 0 { return Some(Unsupported); }
    if sz > t.relocSize { return Some(Unsupported); }
    if off + sz > IntSize(t.imageSize) { return Some(Unsupported); }
    if ImageAddress(Widen(IntSize(t.imageSize)), Get(orig, off, 4)).None? { return Some(Unsupported); }
    return None;
  }

  /** The entries of one block: keeps patching, or reports why it stopped. */
  method RelocateEntries(orig: seq<byte>, adjust: nat, data: array<byte>, from: nat, end: nat, base: nat,
                         ghost image: seq<byte>, ghost done0: seq<Fixup>, ghost rest: Plan, ghost whole: Plan)
    returns (stop: Option<Status>, ghost done: seq<Fixup>)
    requires Underway(image, data[..], adjust, done0, EntryPlan(orig, from, end, base, rest), whole)
    modifies data
    ensures stop.None? ==> Underway(image, data[..], adjust, done, rest, whole)
    ensures stop.Some? ==> Finished(image, data[..], adjust, whole, stop.value)
  {
    hide PatchAll, Patched, EntryPlan, Finished, Underway, InRange;
    var r := from;
    done := done0;
    while r < end
      invariant Underway(image, data[..], adjust, done, EntryPlan(orig, r, end, base, rest), whole)
      decreases end - r
    {
      EntryPlanStep(orig, r, end, base, rest);
      if r + 2 > |orig| {
        UnderwayEnds(image, data[..], adjust, done, Fault, whole);
        return Some(Fault), done;
      }
      var w := Get(orig, r, 2);
      var kind := KindOf(w / 0x1000);
      if kind.None? {
        UnderwayEnds(image, data[..], adjust, done, Unsupported, whole);
        return Some(Unsupported), done;
      }
      var f := Fixup(kind.value, base + w % 0x1000);
      UnderwayStep(image, data[..], adjust, done, f, EntryPlan(orig, r + 2, end, base, rest), whole);
      if !InRange(f, data.Length) { return Some(Fault), done; }
      PatchField(data, f, adjust);
      done := done + [f];
      r := r + 2;
    }
    EntryPlanStep(orig, r, end, base, rest);
    return None, done;
  }
}
