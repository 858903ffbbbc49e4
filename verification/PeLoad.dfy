/**
 pe.c: handle_image.  `buffer` is the allocated image, index 0 being its aligned base; what the
 firmware left in it is arbitrary.
 */
module PeLoad {
  import opened Bytes
  import opened PeHeader
  import opened PeHash
  import Relocate

  const RELOC_NAME: seq<byte> := [46, 114, 101, 108, 111, 99, 0, 0]

  // ---------------------------------------------------------------- allocation

  /** Bytes asked of the firmware: image size plus alignment, in whole pages, kept in 32 bits. */
  function AllocationSize(c: Context): nat { AlignValue(c.imageSize + c.sectionAlignment, PAGE) % Relocate.U32 }

  /**
   The aligned image fits the allocation, wherever the firmware puts it, when the rounded sum does not
   wrap.  When it does wrap, the allocation falls short of image and alignment, and but for an alignment
   in the last page below 4 GiB even of the image.
   */
  lemma AllocationFits(c: Context, address: nat)
    requires 0 < c.sectionAlignment < Relocate.U32 && c.imageSize < Relocate.U32
    ensures
      var rounded := AlignValue(c.imageSize + c.sectionAlignment, PAGE);
      && (rounded < Relocate.U32 ==>
            AlignValue(address, c.sectionAlignment) + c.imageSize <= address + AllocationSize(c))
      && (rounded >= Relocate.U32 ==> AllocationSize(c) < c.imageSize + c.sectionAlignment + PAGE - Relocate.U32)
      && (rounded >= Relocate.U32 && c.sectionAlignment <= Relocate.U32 - PAGE ==> AllocationSize(c) < c.imageSize)
  {
    hide AlignValue;
    var rounded := AlignValue(c.imageSize + c.sectionAlignment, PAGE);
    if rounded < Relocate.U32 {
      ModUnique(rounded, Relocate.U32, 0, rounded);
    } else if rounded < 2 * Relocate.U32 {
      ModUnique(rounded, Relocate.U32, 1, rounded - Relocate.U32);
    } else {
      ModUnique(rounded, Relocate.U32, 2, rounded - 2 * Relocate.U32);
    }
  }

  // ---------------------------------------------------------------- section contents

  function Zeros(n: nat): (z: seq<byte>)
    ensures |z| == n && forall k :: 0 <= k < n ==> z[k] == 0
  {
    seq(n, _ => 0)
  }

  /** Bytes copied from the file for a section. */
  function CopySize(s: Section): nat {
    if s.Uninitialized() then 0 else if s.virtualSize > s.rawSize then s.rawSize else s.virtualSize
  }

  /** A section as it should appear in memory: its raw bytes, then zeros up to its virtual size. */
  function Content(file: seq<byte>, s: Section): (b: seq<byte>)
    requires RawInFile(s, |file|)
    ensures |b| == s.virtualSize
  {
    (if CopySize(s) == 0 then [] else file[s.rawPointer..s.rawPointer + CopySize(s)]) + Zeros(s.virtualSize - CopySize(s))
  }

  // ---------------------------------------------------------------- the section loop

  datatype Progress = Progress(image: seq<byte>, found: nat, reloc: Option<Section>)

  predicate Skipped(s: Section) { (s.Discardable() && s.virtualSize == 0) || !HasFlag(s.flags, SCN_READ) }

  predicate Mapped(s: Section) { !Skipped(s) && !s.Discardable() }

  predicate HoldsEntry(s: Section, c: Context) {
    s.virtualAddress <= c.entryPoint && (s.virtualAddress + s.virtualSize - 1) % Relocate.U32 > c.entryPoint
  }

  /** The .reloc section is believed when it is nonempty and starts where the directory says. */
  predicate RelocOk(s: Section, c: Context, dirVa: nat, dirSize: nat) {
    && s.rawSize != 0 && s.virtualSize != 0 && Base(s, c.imageSize).Some? && End(s, c.imageSize).Some?
    && Relocate.ImageAddress(c.imageSize, dirVa) == Base(s, c.imageSize)
    && !PointerLess(End(s, c.imageSize), Relocate.ImageAddress(c.imageSize, (dirVa + dirSize - 1) % Relocate.U32))
  }

  /** A section the loop refuses outright. */
  predicate Refused(s: Section, c: Context, nx: bool, dirVa: nat, dirSize: nat, reloc: Option<Section>) {
    || (!s.Discardable() && HasFlag(s.flags, SCN_WRITE) && HasFlag(s.flags, SCN_EXECUTE) && nx)
    || PointerLess(End(s, c.imageSize), Base(s, c.imageSize))
    || (s.name == RELOC_NAME && (reloc.Some? || !RelocOk(s, c, dirVa, dirSize)))
    || (!s.Discardable()
        && (|| Base(s, c.imageSize).None? || End(s, c.imageSize).None?
            || (!s.Uninitialized() && (s.virtualAddress < c.sizeOfHeaders || s.rawPointer < c.sizeOfHeaders))))
  }

  /** One turn of the loop; nothing when the image is refused. */
  function Step(file: seq<byte>, c: Context, nx: bool, dirVa: nat, dirSize: nat, s: Section, p: Progress): (r: Option<Progress>)
    requires Fits32(s) && RawInFile(s, |file|) && c.imageSize <= |p.image| && c.imageSize < Relocate.U32
    ensures r.Some? ==> |r.value.image| == |p.image|
  {
    if Skipped(s) then Some(p)
    else if Refused(s, c, nx, dirVa, dirSize, p.reloc) then None
    else
      var found := p.found + if HoldsEntry(s, c) then 1 else 0;
      var reloc := if s.name == RELOC_NAME then Some(s) else p.reloc;
      if s.Discardable() then Some(Progress(p.image, found, reloc))
      else
        Spans(s, c);
        Some(Progress(Put(p.image, s.virtualAddress, Content(file, s)), found, reloc))
  }

  /** The loop's own checks keep a mapped section inside the image: the end did not wrap. */
  lemma Spans(s: Section, c: Context)
    requires Fits32(s) && c.imageSize < Relocate.U32
    requires Base(s, c.imageSize).Some? && End(s, c.imageSize).Some? && !PointerLess(End(s, c.imageSize), Base(s, c.imageSize))
    ensures s.virtualAddress + s.virtualSize <= c.imageSize
  {
    var sum := s.virtualAddress + s.virtualSize - 1;
    assert sum % Relocate.U32 == if sum >= Relocate.U32 then sum - Relocate.U32 else if sum < 0 then Relocate.U32 - 1 else sum;
  }

  predicate TableReady(file: seq<byte>, table: seq<Section>) {
    forall k :: 0 <= k < |table| ==> Fits32(table[k]) && RawInFile(table[k], |file|)
  }

  function LoadAll(file: seq<byte>, c: Context, nx: bool, dirVa: nat, dirSize: nat, table: seq<Section>, p: Progress): (r: Option<Progress>)
    requires TableReady(file, table) && c.imageSize <= |p.image| && c.imageSize < Relocate.U32
    ensures r.Some? ==> |r.value.image| == |p.image|
    decreases |table|
  {
    if table == [] then Some(p)
    else match Step(file, c, nx, dirVa, dirSize, table[0], p)
      case None => None
      case Some(q) => LoadAll(file, c, nx, dirVa, dirSize, table[1..], q)
  }

  /** Copy `n` bytes of the file to the image. */
  method CopyMem(file: seq<byte>, from: nat, buffer: array<byte>, to: nat, n: nat)
    requires from + n <= |file| && to + n <= buffer.Length
    modifies buffer
    ensures buffer[..] == Put(old(buffer[..]), to, file[from..from + n])
  {
    ghost var before := buffer[..];
    for i := 0 to n
      invariant forall k :: 0 <= k < buffer.Length ==>
        buffer[k] == if to <= k < to + i then file[from + (k - to)] else before[k]
    {
      buffer[to + i] := file[from + i];
    }
    assert buffer[..] == Put(before, to, file[from..from + n]);
  }

  method ZeroMem(buffer: array<byte>, to: nat, n: nat)
    requires to + n <= buffer.Length
    modifies buffer
    ensures buffer[..] == Put(old(buffer[..]), to, Zeros(n))
  {
    ghost var before := buffer[..];
    for i := 0 to n
      invariant forall k :: 0 <= k < buffer.Length ==> buffer[k] == if to <= k < to + i then 0 else before[k]
    {
      buffer[to + i] := 0;
    }
    assert buffer[..] == Put(before, to, Zeros(n));
  }

  /** Fill one mapped section: copy, then zero the rest. */
  method MapSection(file: seq<byte>, s: Section, buffer: array<byte>)
    requires RawInFile(s, |file|) && s.virtualAddress + s.virtualSize <= buffer.Length
    modifies buffer
    ensures buffer[..] == Put(old(buffer[..]), s.virtualAddress, Content(file, s))
  {
    ghost var before := buffer[..];
    if s.Uninitialized() {
      ZeroMem(buffer, s.virtualAddress, s.virtualSize);
      assert [] + Zeros(s.virtualSize) == Zeros(s.virtualSize);
    } else {
      var size := s.virtualSize;
      if size > s.rawSize { size := s.rawSize; }
      if size > 0 { CopyMem(file, s.rawPointer, buffer, s.virtualAddress, size); }
      if size < s.virtualSize { ZeroMem(buffer, s.virtualAddress + size, s.virtualSize - size); }
      assert buffer[..] == Put(before, s.virtualAddress, Content(file, s));
    }
  }

  /** The loop over the section table, in file order. */
  method LoadSections(file: seq<byte>, c: Context, nx: bool, dirVa: nat, dirSize: nat, table: seq<Section>, buffer: array<byte>)
    returns (ok: bool, found: nat, reloc: Option<Section>)
    requires TableReady(file, table) && c.imageSize <= buffer.Length && c.imageSize < Relocate.U32
    modifies buffer
    ensures
      var r := LoadAll(file, c, nx, dirVa, dirSize, table, Progress(old(buffer[..]), 0, None));
      && ok == r.Some? && (ok ==> r.value == Progress(buffer[..], found, reloc))
  {
    hide Content, Refused, Skipped, HoldsEntry, TableReady;
    found, reloc := 0, None;
    ghost var whole := LoadAll(file, c, nx, dirVa, dirSize, table, Progress(buffer[..], 0, None));
    var i := 0;
    assert table[0..] == table;
    while i < |table|
      invariant i <= |table| && TableReady(file, table[i..])
      invariant whole == LoadAll(file, c, nx, dirVa, dirSize, table[i..], Progress(buffer[..], found, reloc))
    {
      ReadyStep(file, table, i);
      var s := table[i];
      assert table[i..][0] == s && table[i..][1..] == table[i + 1..];
      var stop;
      stop, found, reloc := LoadSection(file, c, nx, dirVa, dirSize, s, buffer, found, reloc);
      if stop { return false, found, reloc; }
      i := i + 1;
    }
    assert table[i..] == [];
    return true, found, reloc;
  }

  lemma ReadyStep(file: seq<byte>, table: seq<Section>, i: nat)
    requires i < |table| && TableReady(file, table[i..])
    ensures Fits32(table[i]) && RawInFile(table[i], |file|) && TableReady(file, table[i + 1..])
  {
    var here, rest := table[i..], table[i + 1..];
    assert here[0] == table[i];
    assert forall k :: 0 <= k < |rest| ==> rest[k] == here[k + 1];
  }

  method LoadSection(file: seq<byte>, c: Context, nx: bool, dirVa: nat, dirSize: nat, s: Section, buffer: array<byte>,
                     found0: nat, reloc0: Option<Section>)
    returns (stop: bool, found: nat, reloc: Option<Section>)
    requires Fits32(s) && RawInFile(s, |file|) && c.imageSize <= buffer.Length && c.imageSize < Relocate.U32
    modifies buffer
    ensures
      var r := Step(file, c, nx, dirVa, dirSize, s, Progress(old(buffer[..]), found0, reloc0));
      && stop == r.None? && (!stop ==> r.value == Progress(buffer[..], found, reloc))
  {
    hide Content;
    found, reloc := found0, reloc0;
    if s.Discardable() && s.virtualSize == 0 { return false, found, reloc; }
    if !HasFlag(s.flags, SCN_READ) { return false, found, reloc; }
    if !s.Discardable() && HasFlag(s.flags, SCN_WRITE) && HasFlag(s.flags, SCN_EXECUTE) && nx {
      return true, found, reloc;
    }
    var base := Relocate.ImageAddress(c.imageSize, s.virtualAddress);
    var end := Relocate.ImageAddress(c.imageSize, (s.virtualAddress + s.virtualSize - 1) % Relocate.U32);
    if PointerLess(end, base) { return true, found, reloc; }
    if HoldsEntry(s, c) { found := found + 1; }
    if s.name == RELOC_NAME {
      if reloc.Some? || !RelocOk(s, c, dirVa, dirSize) { return true, found, reloc; }
      reloc := Some(s);
    }
    if s.Discardable() { return false, found, reloc; }
    if base.None? || end.None? { return true, found, reloc; }
    if !s.Uninitialized() && (s.virtualAddress < c.sizeOfHeaders || s.rawPointer < c.sizeOfHeaders) {
      return true, found, reloc;
    }
    Spans(s, c);
    MapSection(file, s, buffer);
    return false, found, reloc;
  }
}
