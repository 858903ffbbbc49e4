/** When handle_image's section loop goes through, and what it counts, in the section headers' own numbers. */
module PeLoadLaws {
  import opened Bytes
  import opened PeHeader
  import opened PeHash
  import opened PeLoad
  import PeHashLaws
  import Relocate

  /** Bit k of a section's characteristics, given 2^k. */
  predicate Bit(s: Section, bit: nat)
    requires bit > 0
  {
    (s.flags / bit) % 2 == 1
  }

  /** The loop looks at readable sections, except empty discardable ones. */
  predicate Visited(s: Section) { Bit(s, 0x4000_0000) && !(Bit(s, 0x0200_0000) && s.virtualSize == 0) }

  /** Readable sections that are not discardable end up in memory. */
  predicate InMemory(s: Section) { Bit(s, 0x4000_0000) && !Bit(s, 0x0200_0000) }

  lemma MappedIff(s: Section)
    ensures Mapped(s) <==> InMemory(s)
    ensures !Skipped(s) <==> Visited(s)
    ensures s.Uninitialized() <==> Bit(s, 0x80)
  {
  }

  /** ".reloc" padded with zeros. */
  predicate NamedReloc(s: Section) { s.name == [46, 114, 101, 108, 111, 99, 0, 0] }

  /** The relocation section is the one the directory points at, and the directory's end, if inside the image, is not behind its. */
  predicate RelocSound(s: Section, c: Context, dirVa: nat, dirSize: nat) {
    var dirEnd := (dirVa + dirSize - 1) % 0x1_0000_0000;
    && s.rawSize > 0 && s.virtualSize > 0 && s.virtualAddress + s.virtualSize <= c.imageSize && dirVa == s.virtualAddress
    && (dirEnd >= c.imageSize || dirEnd < s.virtualAddress + s.virtualSize)
  }

  /** A visited section the loop goes past. */
  predicate LoadSound(s: Section, c: Context, nx: bool, dirVa: nat, dirSize: nat) {
    var discardable := Bit(s, 0x0200_0000);
    && !(nx && !discardable && Bit(s, 0x8000_0000) && Bit(s, 0x2000_0000))
    && ((s.virtualSize > 0 && s.virtualAddress + s.virtualSize <= c.imageSize) || (discardable && s.virtualAddress >= c.imageSize))
    && (!discardable && !Bit(s, 0x80) ==> s.virtualAddress >= c.sizeOfHeaders && s.rawPointer >= c.sizeOfHeaders)
    && (NamedReloc(s) ==> RelocSound(s, c, dirVa, dirSize))
  }

  /** The section's bytes but the last hold the entry point. */
  predicate HasEntry(s: Section, entry: nat) { s.virtualAddress <= entry < s.virtualAddress + s.virtualSize - 1 }

  lemma RefusedIff(s: Section, c: Context, nx: bool, dirVa: nat, dirSize: nat, reloc: Option<Section>)
    requires Fits32(s) && c.imageSize < 0x1_0000_0000 && Visited(s)
    ensures !Refused(s, c, nx, dirVa, dirSize, reloc) <==> LoadSound(s, c, nx, dirVa, dirSize) && !(NamedReloc(s) && reloc.Some?)
  {
    PeHashLaws.EndIs(s, c);
  }

  lemma HoldsIff(s: Section, c: Context, nx: bool, dirVa: nat, dirSize: nat)
    requires Fits32(s) && c.imageSize < 0x1_0000_0000 && LoadSound(s, c, nx, dirVa, dirSize) && c.entryPoint < c.imageSize
    ensures HoldsEntry(s, c) <==> HasEntry(s, c.entryPoint)
  {
    var sum := s.virtualAddress + s.virtualSize - 1;
    if s.virtualAddress < c.imageSize { assert sum % 0x1_0000_0000 == sum; }
  }

  /** Visited sections that hold the entry point. */
  function Entries(table: seq<Section>, entry: nat): nat {
    if table == [] then 0 else (if Visited(table[0]) && HasEntry(table[0], entry) then 1 else 0) + Entries(table[1..], entry)
  }

  /** Visited relocation sections. */
  function Relocs(table: seq<Section>): nat {
    if table == [] then 0 else (if Visited(table[0]) && NamedReloc(table[0]) then 1 else 0) + Relocs(table[1..])
  }

  predicate AllSound(table: seq<Section>, c: Context, nx: bool, dirVa: nat, dirSize: nat) {
    forall k :: 0 <= k < |table| && Visited(table[k]) ==> LoadSound(table[k], c, nx, dirVa, dirSize)
  }

  lemma SoundCons(table: seq<Section>, c: Context, nx: bool, dirVa: nat, dirSize: nat)
    requires table != []
    ensures AllSound(table, c, nx, dirVa, dirSize) <==>
      (Visited(table[0]) ==> LoadSound(table[0], c, nx, dirVa, dirSize)) && AllSound(table[1..], c, nx, dirVa, dirSize)
  {
    hide Visited, LoadSound;
    var rest := table[1..];
    assert forall k :: 0 <= k < |rest| ==> rest[k] == table[k + 1];
    if (Visited(table[0]) ==> LoadSound(table[0], c, nx, dirVa, dirSize)) && AllSound(rest, c, nx, dirVa, dirSize) {
      forall k | 0 <= k < |table| && Visited(table[k]) ensures LoadSound(table[k], c, nx, dirVa, dirSize) {
        if k > 0 { assert table[k] == rest[k - 1]; }
      }
    }
  }

  /** One turn of the loop, in these terms. */
  lemma StepIff(file: seq<byte>, c: Context, nx: bool, dirVa: nat, dirSize: nat, s: Section, p: Progress)
    requires Fits32(s) && RawInFile(s, |file|) && c.imageSize <= |p.image| && c.imageSize < Relocate.U32 && c.entryPoint < c.imageSize
    ensures
      var r := Step(file, c, nx, dirVa, dirSize, s, p);
      && (r.Some? <==> (Visited(s) ==> LoadSound(s, c, nx, dirVa, dirSize) && !(NamedReloc(s) && p.reloc.Some?)))
      && (r.Some? ==>
            && r.value.found == p.found + (if Visited(s) && HasEntry(s, c.entryPoint) then 1 else 0)
            && r.value.reloc == (if Visited(s) && NamedReloc(s) then Some(s) else p.reloc)
            && |r.value.image| == |p.image|)
  {
    hide Visited, LoadSound, HasEntry, Refused, Content, Skipped, HoldsEntry, Fits32;
    MappedIff(s);
    if Visited(s) {
      RefusedIff(s, c, nx, dirVa, dirSize, p.reloc);
      if LoadSound(s, c, nx, dirVa, dirSize) { HoldsIff(s, c, nx, dirVa, dirSize); }
    }
  }

  /**
   The whole loop: it goes through exactly when every visited section is sound and at most one of them is
   the relocation section, and it has counted the sections that hold the entry point.
   */
  lemma {:induction false} LoadIff(file: seq<byte>, c: Context, nx: bool, dirVa: nat, dirSize: nat, table: seq<Section>, p: Progress)
    requires TableReady(file, table) && c.imageSize <= |p.image| && c.imageSize < Relocate.U32 && c.entryPoint < c.imageSize
    ensures
      var r := LoadAll(file, c, nx, dirVa, dirSize, table, p);
      && (r.Some? <==> AllSound(table, c, nx, dirVa, dirSize) && Relocs(table) + (if p.reloc.Some? then 1 else 0) <= 1)
      && (r.Some? ==> r.value.found == p.found + Entries(table, c.entryPoint) && (r.value.reloc.Some? <==> p.reloc.Some? || Relocs(table) > 0))
    decreases |table|
  {
    hide Visited, LoadSound, HasEntry, NamedReloc, Step, Fits32, RawInFile, AllSound;
    if table == [] {
      NoneSound(c, nx, dirVa, dirSize);
    } else {
      var s, rest := table[0], table[1..];
      assert forall k :: 0 <= k < |rest| ==> rest[k] == table[k + 1];
      SoundCons(table, c, nx, dirVa, dirSize);
      StepIff(file, c, nx, dirVa, dirSize, s, p);
      var q := Step(file, c, nx, dirVa, dirSize, s, p);
      if q.Some? { LoadIff(file, c, nx, dirVa, dirSize, rest, q.value); }
    }
  }

  lemma NoneSound(c: Context, nx: bool, dirVa: nat, dirSize: nat)
    ensures AllSound([], c, nx, dirVa, dirSize)
  {
  }
}
