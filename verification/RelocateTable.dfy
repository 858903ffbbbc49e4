/** The relocation-table format: printing blocks and walking them gives the flattened fixups back. */
module RelocateTable {
  import opened Bytes
  import opened Relocate
  import opened RelocateLaws

  datatype Entry = Entry(kind: Kind, offset: nat)
  datatype Block = Block(va: nat, entries: seq<Entry>)

  function CodeOf(k: Kind): nat {
    match k case Absolute => 0 case High => 1 case Low => 2 case HighLow => 3 case Dir64 => 10
  }

  predicate BlockOk(b: Block, imageSize: nat) {
    b.va < imageSize && forall k :: 0 <= k < |b.entries| ==> b.entries[k].offset < 0x1000
  }

  function PrintEntries(es: seq<Entry>): (s: seq<byte>)
    ensures |s| == 2 * |es|
  {
    if es == [] then [] else ToLE(CodeOf(es[0].kind) * 0x1000 + es[0].offset, 2) + PrintEntries(es[1..])
  }

  /** Header with the block's own size, then its entries. */
  function PrintBlock(b: Block): (s: seq<byte>)
    ensures |s| == 8 + 2 * |b.entries|
  {
    ToLE(b.va, 4) + ToLE(8 + 2 * |b.entries|, 4) + PrintEntries(b.entries)
  }

  function PrintTable(bs: seq<Block>): seq<byte> {
    if bs == [] then [] else PrintBlock(bs[0]) + PrintTable(bs[1..])
  }

  function BlockFixups(va: nat, es: seq<Entry>): seq<Fixup> {
    if es == [] then [] else [Fixup(es[0].kind, va + es[0].offset)] + BlockFixups(va, es[1..])
  }

  function TableFixups(bs: seq<Block>): seq<Fixup> {
    if bs == [] then [] else BlockFixups(bs[0].va, bs[0].entries) + TableFixups(bs[1..])
  }

  lemma EntryWord(e: Entry)
    requires e.offset < 0x1000
    ensures
      var word := CodeOf(e.kind) * 0x1000 + e.offset;
      word < 0x10000 && KindOf(word / 0x1000) == Some(e.kind) && word % 0x1000 == e.offset
  {
  }

  lemma PrintEntriesCons(es: seq<Entry>, va: nat)
    requires es != []
    ensures PrintEntries(es) == ToLE(CodeOf(es[0].kind) * 0x1000 + es[0].offset, 2) + PrintEntries(es[1..])
    ensures BlockFixups(va, es) == [Fixup(es[0].kind, va + es[0].offset)] + BlockFixups(va, es[1..])
  {
  }

  /** One printed entry, walked. */
  lemma WalkEntry(orig: seq<byte>, r: nat, end: nat, va: nat, e: Entry, rest: Plan)
    requires At(orig, r, ToLE(CodeOf(e.kind) * 0x1000 + e.offset, 2)) && e.offset < 0x1000 && r < end
    ensures EntryPlan(orig, r, end, va, rest) ==
      Then([Fixup(e.kind, va + e.offset)], EntryPlan(orig, r + 2, end, va, rest))
  {
    hide EntryPlan, ToLE, Get, At, Pow256;
    EntryPlanStep(orig, r, end, va, rest);
    EntryWord(e);
    Powers();
    ReadWord(orig, r, CodeOf(e.kind) * 0x1000 + e.offset, 2);
    AtBound(orig, r, ToLE(CodeOf(e.kind) * 0x1000 + e.offset, 2));
  }

  lemma {:induction false} WalkEntries(orig: seq<byte>, r: nat, va: nat, es: seq<Entry>, rest: Plan)
    requires At(orig, r, PrintEntries(es))
    requires forall k :: 0 <= k < |es| ==> es[k].offset < 0x1000
    ensures EntryPlan(orig, r, r + 2 * |es|, va, rest) == Then(BlockFixups(va, es), rest)
    decreases |es|
  {
    if es == [] {
      EntryPlanStep(orig, r, r, va, rest);
      assert [] + rest.fixups == rest.fixups;
    } else {
      hide *;
      PrintEntriesCons(es, va);
      AtSplit(orig, r, ToLE(CodeOf(es[0].kind) * 0x1000 + es[0].offset, 2), PrintEntries(es[1..]));
      WalkEntry(orig, r, r + 2 * |es|, va, es[0], rest);
      WalkEntries(orig, r + 2, va, es[1..], rest);
      ThenThen([Fixup(es[0].kind, va + es[0].offset)], BlockFixups(va, es[1..]), rest);
    }
  }

  lemma ThenThen(a: seq<Fixup>, b: seq<Fixup>, rest: Plan)
    ensures Then(a, Then(b, rest)) == Then(a + b, rest)
  {
    assert a + (b + rest.fixups) == (a + b) + rest.fixups;
  }

  /** The header of a printed block passes the loader's checks. */
  lemma ReadHeader(orig: seq<byte>, t: Table, off: nat, b: Block)
    requires At(orig, off, PrintBlock(b)) && t.imageSize < 0x8000_0000 && BlockOk(b, t.imageSize)
    requires off + |PrintBlock(b)| <= t.imageSize && |PrintBlock(b)| <= t.relocSize
    ensures BlockError(orig, t, off).None? && Get(orig, off, 4) == b.va && Get(orig, off + 4, 4) == |PrintBlock(b)|
    ensures At(orig, off + 8, PrintEntries(b.entries))
  {
    hide ToLE, Get, Pow256, PrintEntries, At;
    var sz := 8 + 2 * |b.entries|;
    AtSplit(orig, off, ToLE(b.va, 4) + ToLE(sz, 4), PrintEntries(b.entries));
    AtSplit(orig, off, ToLE(b.va, 4), ToLE(sz, 4));
    AtBound(orig, off + 4, ToLE(sz, 4));
    Powers();
    ReadWord(orig, off, b.va, 4);
    ReadWord(orig, off + 4, sz, 4);
  }

  lemma {:induction false} WalkBlocks(orig: seq<byte>, t: Table, off: nat, bs: seq<Block>)
    requires At(orig, off, PrintTable(bs)) && t.imageSize < 0x8000_0000
    requires off + |PrintTable(bs)| <= t.imageSize && |PrintTable(bs)| <= t.relocSize
    requires forall k :: 0 <= k < |bs| ==> BlockOk(bs[k], t.imageSize)
    requires off + |PrintTable(bs)| > 0
    ensures BlockPlan(orig, t, off, off + |PrintTable(bs)| - 1) == Plan(TableFixups(bs), Success)
    decreases |bs|
  {
    hide BlockPlan, EntryPlan, PrintBlock, At, Get, BlockError, BlockFixups;
    BlockPlanStep(orig, t, off, off + |PrintTable(bs)| - 1);
    if bs != [] {
      var b, rest := bs[0], bs[1..];
      assert BlockOk(b, t.imageSize);
      assert forall k :: 0 <= k < |rest| ==> rest[k] == bs[k + 1];
      AtSplit(orig, off, PrintBlock(b), PrintTable(rest));
      ReadHeader(orig, t, off, b);
      WalkBlocks(orig, t, off + |PrintBlock(b)|, rest);
      WalkEntries(orig, off + 8, b.va, b.entries, Plan(TableFixups(rest), Success));
    }
  }

  /**
   A printed table anywhere in the file, with the header fields describing it, is walked into
   exactly its blocks' entries in order.
   */
  lemma TableRoundTrip(before: seq<byte>, bs: seq<Block>, after: seq<byte>, imageSize: nat)
    requires bs != [] && imageSize < 0x8000_0000 && |before| + |PrintTable(bs)| <= imageSize
    requires forall k :: 0 <= k < |bs| ==> BlockOk(bs[k], imageSize)
    ensures TablePlan(before + PrintTable(bs) + after, Table(imageSize, |PrintTable(bs)|, |before|)) ==
      Plan(TableFixups(bs), Success)
  {
    hide PrintTable, BlockPlan, TableFixups;
    var orig := before + PrintTable(bs) + after;
    TableNotEmpty(bs);
    assert At(orig, |before|, PrintTable(bs));
    WalkBlocks(orig, Table(imageSize, |PrintTable(bs)|, |before|), |before|, bs);
  }

  lemma TableNotEmpty(bs: seq<Block>)
    requires bs != []
    ensures |PrintTable(bs)| >= 8
  {
  }

  // ---------------------------------------------------------------- one field, end to end

  /** The bytes of a table with one block of one 64-bit entry: type 10 in the top bits, the offset below. */
  function OneDir64(va: nat, offset: nat): seq<byte> { ToLE(va, 4) + (ToLE(10, 4) + ToLE(0xa000 + offset, 2)) }

  lemma PrintsOneDir64(va: nat, offset: nat)
    requires offset < 0x1000
    ensures PrintTable([Block(va, [Entry(Dir64, offset)])]) == OneDir64(va, offset)
    ensures TableFixups([Block(va, [Entry(Dir64, offset)])]) == [Fixup(Dir64, va + offset)]
  {
    hide ToLE;
    var e: seq<Entry> := [Entry(Dir64, offset)];
    var bs: seq<Block> := [Block(va, e)];
    assert e[1..] == [] && bs[1..] == [];
    assert PrintEntries(e[1..]) == [] && PrintTable(bs[1..]) == [];
    assert BlockFixups(va, e[1..]) == [] && TableFixups(bs[1..]) == [];
    assert PrintEntries(e) == ToLE(0xa000 + offset, 2) + [];
    assert PrintBlock(bs[0]) == ToLE(va, 4) + ToLE(10, 4) + PrintEntries(e);
  }

  /** Such an entry adds the displacement to the eight bytes it names and changes nothing else. */
  lemma OneDir64Moves(before: seq<byte>, after: seq<byte>, va: nat, offset: nat, imageSize: nat, image: seq<byte>, adjust: nat)
    requires va < imageSize < 0x8000_0000 && offset < 0x1000 && |before| + 10 <= imageSize && 0 < adjust < U64
    requires va + offset + 8 <= |image|
    ensures
      var (r, status) := Relocated(before + OneDir64(va, offset) + after, Table(imageSize, 10, |before|), adjust, image);
      && status == Success && |r| == |image|
      && Get(r, va + offset, 8) == (Get(image, va + offset, 8) + adjust) % 0x1_0000_0000_0000_0000
      && forall p :: 0 <= p < |image| && !(va + offset <= p < va + offset + 8) ==> r[p] == image[p]
  {
    hide ToLE, Get, PatchAll, TablePlan, PrintTable, TableFixups, BlockPlan;
    var bs: seq<Block> := [Block(va, [Entry(Dir64, offset)])];
    PrintsOneDir64(va, offset);
    TableRoundTrip(before, bs, after, imageSize);
    var fixups: seq<Fixup> := [Fixup(Dir64, va + offset)];
    PatchAllRuns(image, fixups, adjust);
    FieldsMove(image, fixups, adjust, 0);
    forall p | 0 <= p < |image| && !(va + offset <= p < va + offset + 8) ensures PatchAll(image, fixups, adjust).0[p] == image[p] {
      Untouched(image, fixups, adjust, p);
    }
    assert !BadTable(Table(imageSize, 10, |before|));
  }
}
