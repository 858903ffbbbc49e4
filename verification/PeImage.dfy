/** pe.c: handle_image as a whole, and what the loaded image holds. */
module PeImage {
  import opened Bytes
  import opened PeHeader
  import opened PeHash
  import opened PeLoad
  import opened PeLoadLaws
  import PeHashLaws
  import Relocate
  import RelocateLaws
  import RelocateFaults

  datatype Status = Success | Rejected | BadParameter | SecurityViolation | Fault

  function FromError(e: Error): Status { if e == InvalidParameter then BadParameter else Rejected }

  function FromReloc(s: Relocate.Status): Status {
    match s case Success => Success case Unsupported => Rejected case Fault => Fault
  }

  lemma WordBounds(file: seq<byte>, at: nat)
    ensures at + 4 <= |file| ==> Get(file, at, 4) < Relocate.U32
    ensures at + 8 <= |file| ==> Get(file, at, 8) < Relocate.U64
  {
    assert Pow256(4) == Relocate.U32 by { assert Pow256(1) == 256 && Pow256(2) == 0x10000 && Pow256(3) == 0x1000000; }
    assert Pow256(8) == Relocate.U64 by {
      assert Pow256(5) == 256 * Relocate.U32 && Pow256(6) == 0x10000 * Relocate.U32 && Pow256(7) == 0x1000000 * Relocate.U32;
    }
    if at + 4 <= |file| { FromLEBound(file[at..at + 4]); }
    if at + 8 <= |file| { FromLEBound(file[at..at + 8]); }
  }

  /** An accepted header's fields lie in the file, and their widths. */
  lemma HeaderBounds(file: seq<byte>, arch: Arch, nx: bool)
    requires ReadHeader(file, arch, nx).Ok?
    ensures
      var c := ReadHeader(file, arch, nx).value;
      && Consistent(file, c) && c.imageSize < Relocate.U32 && c.sizeOfHeaders < Relocate.U32 && c.imageBase < Relocate.U64
      && CertSize(file, c) < Relocate.U32 && CertStart(file, c) < Relocate.U32
      && Get(file, c.relocDir, 4) < Relocate.U32 && Get(file, c.relocDir + 4, 4) < Relocate.U32
  {
    hide Get;
    var c := ReadHeader(file, arch, nx).value;
    WordBounds(file, c.pe + 80);
    WordBounds(file, c.pe + 84);
    WordBounds(file, c.pe + 48);
    WordBounds(file, c.pe + 52);
    WordBounds(file, c.secDir);
    WordBounds(file, c.secDir + 4);
    WordBounds(file, c.relocDir);
    WordBounds(file, c.relocDir + 4);
  }

  lemma TableIsReady(file: seq<byte>, c: Context)
    requires Consistent(file, c) && HashInput(file, c).Ok?
    ensures IsMz(file) && TableReady(file, SectionTable(file, c)) && c.sizeOfHeaders <= |file|
  {
    hide SectionAt, Fits32;
    PeHashLaws.AcceptedSum(file, c);
    var table := SectionTable(file, c);
    forall k | 0 <= k < |table| ensures Fits32(table[k]) && RawInFile(table[k], |file|) {
      SectionAtFits32(file, c.firstSection + k * SECTION_HEADER);
    }
  }

  function DirVa(file: seq<byte>, c: Context): nat requires Consistent(file, c) { Get(file, c.relocDir, 4) }

  function DirSize(file: seq<byte>, c: Context): nat requires Consistent(file, c) { Get(file, c.relocDir + 4, 4) }

  /** The image once headers and sections are in place, before relocation; nothing if refused. */
  function Layout(file: seq<byte>, c: Context, nx: bool, initial: seq<byte>): (r: Option<Progress>)
    requires Consistent(file, c) && HashInput(file, c).Ok? && c.imageSize < Relocate.U32 && c.imageSize <= |initial|
    ensures r.Some? ==> |r.value.image| == |initial|
  {
    TableIsReady(file, c);
    LoadAll(file, c, nx, DirVa(file, c), DirSize(file, c), SectionTable(file, c),
            Progress(Put(initial, 0, file[..c.sizeOfHeaders]), 0, None))
  }

  /** Pointer difference between where the image is and where it was linked to be. */
  function Adjust(bufferAddress: nat, c: Context): nat { (bufferAddress - c.imageBase) % Relocate.U64 }

  function Relocation(c: Context, dirSize: nat, s: Section): Relocate.Table {
    Relocate.Table(c.imageSize, dirSize, s.rawPointer)
  }

  /** The loaded image and the status, given the verdict of signature verification. */
  function Handled(file: seq<byte>, arch: Arch, nx: bool, verified: bool, bufferAddress: nat, initial: seq<byte>)
    : (seq<byte>, Status)
    requires var h := ReadHeader(file, arch, nx); h.Ok? ==> h.value.imageSize <= |initial|
  {
    var h := ReadHeader(file, arch, nx);
    if h.Err? then (initial, FromError(h.error))
    else
      HeaderBounds(file, arch, nx);
      var c := h.value;
      if !verified then (initial, SecurityViolation)
      else if HashInput(file, c).Err? then (initial, FromError(HashInput(file, c).error))
      else
        var laid := Layout(file, c, nx, initial);
        if Relocate.ImageAddress(c.imageSize, c.entryPoint).None? || laid.None? || c.numberOfRvaAndSizes <= 5
        then (initial, Rejected)
        else
          var p := laid.value;
          var (image, status) :=
            if DirSize(file, c) != 0 && p.reloc.Some?
            then Relocate.Relocated(file, Relocation(c, DirSize(file, c), p.reloc.value), Adjust(bufferAddress, c), p.image)
            else (p.image, Relocate.Success);
          if status != Relocate.Success then (initial, FromReloc(status))
          else if p.found != 1 then (initial, Rejected)
          else (image, Success)
  }

  /** The table handle_image relocates with, if it gets that far. */
  function RelocationOf(file: seq<byte>, arch: Arch, nx: bool, verified: bool, initial: seq<byte>): Option<Relocate.Table>
    requires var h := ReadHeader(file, arch, nx); h.Ok? ==> h.value.imageSize <= |initial|
  {
    var h := ReadHeader(file, arch, nx);
    if h.Err? || !verified || HashInput(file, h.value).Err? then None
    else
      HeaderBounds(file, arch, nx);
      var c := h.value;
      var laid := Layout(file, c, nx, initial);
      if Relocate.ImageAddress(c.imageSize, c.entryPoint).None? || laid.None? || c.numberOfRvaAndSizes <= 5
         || DirSize(file, c) == 0 || laid.value.reloc.None?
      then None
      else Some(Relocation(c, DirSize(file, c), laid.value.reloc.value))
  }

  /**
   handle_image leaves the file or its buffer exactly when it gets as far as relocating, the image moves,
   and the relocation table's bytes fault; headers and sections never do.
   */
  lemma FaultIff(file: seq<byte>, arch: Arch, nx: bool, verified: bool, bufferAddress: nat, initial: seq<byte>)
    requires var h := ReadHeader(file, arch, nx); h.Ok? ==> h.value.imageSize <= |initial|
    ensures
      var t := RelocationOf(file, arch, nx, verified, initial);
      Handled(file, arch, nx, verified, bufferAddress, initial).1 == Fault <==>
        t.Some? && Adjust(bufferAddress, ReadHeader(file, arch, nx).value) != 0
        && RelocateFaults.TableFaults(file, t.value, |initial|)
  {
    hide ReadHeader, HashInput, Layout, Relocate.Relocated, Consistent, Get, RelocateFaults.TableFaults;
    var t := RelocationOf(file, arch, nx, verified, initial);
    if t.Some? {
      HeaderBounds(file, arch, nx);
      var c := ReadHeader(file, arch, nx).value;
      RelocateFaults.FaultIff(file, t.value, Adjust(bufferAddress, c), Layout(file, c, nx, initial).value.image);
    }
  }

  /** On success the buffer holds the loaded image; the entry point is an offset into it. */
  method HandleImage(file: seq<byte>, arch: Arch, nx: bool, verified: bool, bufferAddress: nat, buffer: array<byte>)
    returns (status: Status, entry: nat)
    requires |file| < Relocate.U32
    requires var h := ReadHeader(file, arch, nx); h.Ok? ==> h.value.imageSize <= buffer.Length
    modifies buffer
    ensures status == Handled(file, arch, nx, verified, bufferAddress, old(buffer[..])).1
    ensures status == Success ==>
      && buffer[..] == Handled(file, arch, nx, verified, bufferAddress, old(buffer[..])).0
      && entry == ReadHeader(file, arch, nx).value.entryPoint && entry < ReadHeader(file, arch, nx).value.imageSize
  {
    hide ReadHeader, HashInput, LoadAll, Relocate.Relocated, SectionTable, Consistent, Get, TableReady, IsMz;
    entry := 0;
    var h := ReadHeader(file, arch, nx);
    if h.Err? { return FromError(h.error), entry; }
    HeaderBounds(file, arch, nx);
    var c := h.value;
    if !verified { return SecurityViolation, entry; }
    var hash := GenerateHash(file, c);
    if hash.Err? { return FromError(hash.error), entry; }
    TableIsReady(file, c);
    HeadersFit(file, c);
    ghost var initial := buffer[..];
    CopyMem(file, 0, buffer, 0, c.sizeOfHeaders);
    assert buffer[..] == Put(initial, 0, file[..c.sizeOfHeaders]);
    var at := Relocate.ImageAddress(c.imageSize, c.entryPoint);
    if at.None? { return Rejected, entry; }
    TableReadable(file, c);
    var ok, found, reloc := LoadSections(file, c, nx, DirVa(file, c), DirSize(file, c), SectionTable(file, c), buffer);
    if !ok { return Rejected, entry; }
    if c.numberOfRvaAndSizes <= 5 { return Rejected, entry; }
    if DirSize(file, c) != 0 && reloc.Some? {
      RelocPointerBound(file, c, nx, initial);
      var relocated := Relocate.RelocateCoff(file, Relocation(c, DirSize(file, c), reloc.value), Adjust(bufferAddress, c), buffer);
      if relocated != Relocate.Success { return FromReloc(relocated), entry; }
    }
    if found != 1 { return Rejected, entry; }
    return Success, at.value;
  }

  lemma HeadersFit(file: seq<byte>, c: Context)
    requires Consistent(file, c)
    ensures c.sizeOfHeaders <= c.imageSize
  {
  }

  lemma TableReadable(file: seq<byte>, c: Context)
    requires Consistent(file, c) && IsMz(file)
    ensures c.firstSection + c.numberOfSections * SECTION_HEADER <= |file|
  {
  }

  lemma RelocPointerBound(file: seq<byte>, c: Context, nx: bool, initial: seq<byte>)
    requires Consistent(file, c) && HashInput(file, c).Ok? && c.imageSize < Relocate.U32 && c.imageSize <= |initial|
    requires Layout(file, c, nx, initial).Some? && Layout(file, c, nx, initial).value.reloc.Some?
    ensures Layout(file, c, nx, initial).value.reloc.value.rawPointer < Relocate.U32
  {
    hide HashInput, SectionTable, Consistent, Step, LoadAll, IsMz, Get;
    TableIsReady(file, c);
    TableReadable(file, c);
    RelocFromTable(file, c, nx, DirVa(file, c), DirSize(file, c), SectionTable(file, c),
                   Progress(Put(initial, 0, file[..c.sizeOfHeaders]), 0, None));
  }

  lemma {:induction false} RelocFromTable(file: seq<byte>, c: Context, nx: bool, dirVa: nat, dirSize: nat, table: seq<Section>, p: Progress)
    requires TableReady(file, table) && c.imageSize <= |p.image| && c.imageSize < Relocate.U32
    requires p.reloc.Some? ==> p.reloc.value.rawPointer < Relocate.U32
    ensures
      var r := LoadAll(file, c, nx, dirVa, dirSize, table, p);
      r.Some? && r.value.reloc.Some? ==> r.value.reloc.value.rawPointer < Relocate.U32
    decreases |table|
  {
    hide Content, Refused, Skipped, HoldsEntry;
    if table != [] {
      var q := Step(file, c, nx, dirVa, dirSize, table[0], p);
      if q.Some? { RelocFromTable(file, c, nx, dirVa, dirSize, table[1..], q.value); }
    }
  }

  // ---------------------------------------------------------------- contents

  predicate Inside(s: Section, p: nat) { s.virtualAddress <= p < s.virtualAddress + s.virtualSize }

  /** No two mapped sections share a byte, and none reaches into the headers. */
  predicate MappedApart(table: seq<Section>, headers: nat) {
    && (forall i, j :: 0 <= i < j < |table| && Mapped(table[i]) && Mapped(table[j]) ==>
          || table[i].virtualAddress + table[i].virtualSize <= table[j].virtualAddress
          || table[j].virtualAddress + table[j].virtualSize <= table[i].virtualAddress)
    && forall i :: 0 <= i < |table| && Mapped(table[i]) ==> headers <= table[i].virtualAddress
  }

  lemma StepContent(file: seq<byte>, c: Context, nx: bool, dirVa: nat, dirSize: nat, s: Section, p: Progress, at: nat)
    requires Fits32(s) && RawInFile(s, |file|) && c.imageSize <= |p.image| && c.imageSize < Relocate.U32
    requires Step(file, c, nx, dirVa, dirSize, s, p).Some? && at < |p.image|
    ensures
      var q := Step(file, c, nx, dirVa, dirSize, s, p).value;
      && (Mapped(s) ==> s.virtualAddress + s.virtualSize <= c.imageSize)
      && q.image[at] == if Mapped(s) && Inside(s, at) then Content(file, s)[at - s.virtualAddress] else p.image[at]
  {
    hide Content, HoldsEntry, RelocOk;
    if Mapped(s) { Spans(s, c); }
  }

  /** A byte outside every mapped section is left as it was. */
  lemma {:induction false} LoadKeeps(file: seq<byte>, c: Context, nx: bool, dirVa: nat, dirSize: nat, table: seq<Section>, p: Progress, at: nat)
    requires TableReady(file, table) && c.imageSize <= |p.image| && c.imageSize < Relocate.U32
    requires LoadAll(file, c, nx, dirVa, dirSize, table, p).Some? && at < |p.image|
    requires forall k :: 0 <= k < |table| && Mapped(table[k]) ==> !Inside(table[k], at)
    ensures LoadAll(file, c, nx, dirVa, dirSize, table, p).value.image[at] == p.image[at]
    decreases |table|
  {
    hide Step, Content, Mapped, Inside, Fits32, RawInFile;
    if table != [] {
      StepContent(file, c, nx, dirVa, dirSize, table[0], p, at);
      var rest := table[1..];
      assert forall k :: 0 <= k < |rest| ==> rest[k] == table[k + 1];
      LoadKeeps(file, c, nx, dirVa, dirSize, rest, Step(file, c, nx, dirVa, dirSize, table[0], p).value, at);
    }
  }

  /** A byte inside a mapped section ends up with that section's content. */
  lemma {:induction false} LoadPlaces(file: seq<byte>, c: Context, nx: bool, dirVa: nat, dirSize: nat, table: seq<Section>, p: Progress, k: nat, at: nat)
    requires TableReady(file, table) && c.imageSize <= |p.image| && c.imageSize < Relocate.U32
    requires LoadAll(file, c, nx, dirVa, dirSize, table, p).Some?
    requires MappedApart(table, 0) && k < |table| && Mapped(table[k]) && Inside(table[k], at)
    ensures at < c.imageSize
    ensures LoadAll(file, c, nx, dirVa, dirSize, table, p).value.image[at] == Content(file, table[k])[at - table[k].virtualAddress]
    decreases |table|
  {
    hide Step, Content, Mapped, Fits32, RawInFile;
    var rest, q := table[1..], Step(file, c, nx, dirVa, dirSize, table[0], p).value;
    assert forall i :: 0 <= i < |rest| ==> rest[i] == table[i + 1];
    if k == 0 {
      if |p.image| > 0 { StepContent(file, c, nx, dirVa, dirSize, table[0], p, 0); }
      SectionInImage(file, c, nx, dirVa, dirSize, table[0], p);
      StepContent(file, c, nx, dirVa, dirSize, table[0], p, at);
      assert forall i :: 0 <= i < |rest| && Mapped(rest[i]) ==> !Inside(rest[i], at);
      LoadKeeps(file, c, nx, dirVa, dirSize, rest, q, at);
    } else {
      assert rest[k - 1] == table[k];
      LoadPlaces(file, c, nx, dirVa, dirSize, rest, q, k - 1, at);
    }
  }

  lemma SectionInImage(file: seq<byte>, c: Context, nx: bool, dirVa: nat, dirSize: nat, s: Section, p: Progress)
    requires Fits32(s) && RawInFile(s, |file|) && c.imageSize <= |p.image| && c.imageSize < Relocate.U32
    requires Step(file, c, nx, dirVa, dirSize, s, p).Some? && Mapped(s)
    ensures s.virtualAddress + s.virtualSize <= c.imageSize
  {
    hide Content, HoldsEntry, RelocOk;
    Spans(s, c);
  }

  /** No two sections in memory share a byte, and none reaches into the headers. */
  predicate LoadedApart(table: seq<Section>, headers: nat) {
    && (forall i, j :: 0 <= i < j < |table| && InMemory(table[i]) && InMemory(table[j]) ==>
          || table[i].virtualAddress + table[i].virtualSize <= table[j].virtualAddress
          || table[j].virtualAddress + table[j].virtualSize <= table[i].virtualAddress)
    && forall i :: 0 <= i < |table| && InMemory(table[i]) ==> headers <= table[i].virtualAddress
  }

  predicate Spanned(s: Section, at: nat) { s.virtualAddress <= at < s.virtualAddress + s.virtualSize }

  /** Byte q of a section in memory: its raw byte while the file has one, zero behind it and in uninitialized sections. */
  predicate SectionByte(file: seq<byte>, s: Section, q: nat, b: byte) {
    if Bit(s, 0x80) || q >= s.rawSize then b == 0 else s.rawPointer + q < |file| && b == file[s.rawPointer + q]
  }

  /**
   The image before relocation, byte by byte, when the sections in memory keep apart from each other and
   from the headers: the headers, then for each section its raw bytes followed by zeros up to its virtual
   size; every other byte is what the firmware left there.
   */
  lemma LayoutBytes(file: seq<byte>, c: Context, nx: bool, initial: seq<byte>, at: nat)
    requires Consistent(file, c) && HashInput(file, c).Ok? && c.imageSize < Relocate.U32 && c.imageSize <= |initial|
    requires Layout(file, c, nx, initial).Some? && at < |initial|
    requires IsMz(file) && LoadedApart(SectionTable(file, c), c.sizeOfHeaders)
    ensures
      var image, table := Layout(file, c, nx, initial).value.image, SectionTable(file, c);
      && |image| == |initial| && c.sizeOfHeaders <= |file|
      && (at < c.sizeOfHeaders ==> image[at] == file[at])
      && (forall k :: 0 <= k < |table| && InMemory(table[k]) && Spanned(table[k], at) ==>
            SectionByte(file, table[k], at - table[k].virtualAddress, image[at]))
      && (at >= c.sizeOfHeaders && (forall k :: 0 <= k < |table| && InMemory(table[k]) ==> !Spanned(table[k], at)) ==>
            image[at] == initial[at])
  {
    hide HashInput, LoadAll, SectionTable, Consistent, Get, Mapped, InMemory, Fits32, RawInFile, SectionByte;
    TableIsReady(file, c);
    HeadersFit(file, c);
    TableReadable(file, c);
    var table, p := SectionTable(file, c), Progress(Put(initial, 0, file[..c.sizeOfHeaders]), 0, None);
    forall k | 0 <= k < |table| ensures Mapped(table[k]) <==> InMemory(table[k]) { MappedIff(table[k]); }
    assert MappedApart(table, 0);
    forall k | 0 <= k < |table| && InMemory(table[k]) && Inside(table[k], at)
      ensures SectionByte(file, table[k], at - table[k].virtualAddress, Layout(file, c, nx, initial).value.image[at])
    {
      LoadPlaces(file, c, nx, DirVa(file, c), DirSize(file, c), table, p, k, at);
      ContentBytes(file, table[k], at - table[k].virtualAddress);
    }
    if forall k :: 0 <= k < |table| && InMemory(table[k]) ==> !Inside(table[k], at) {
      LoadKeeps(file, c, nx, DirVa(file, c), DirSize(file, c), table, p, at);
    }
  }

  lemma ContentBytes(file: seq<byte>, s: Section, q: nat)
    requires RawInFile(s, |file|) && q < s.virtualSize
    ensures SectionByte(file, s, q, Content(file, s)[q])
  {
    MappedIff(s);
  }

  // ---------------------------------------------------------------- when the image is loaded

  /** What loading a hashed image asks of its sections, entry point and directories. */
  predicate LoadableImage(file: seq<byte>, c: Context, nx: bool)
    requires Consistent(file, c) && IsMz(file)
  {
    TableReadable(file, c);
    var table := SectionTable(file, c);
    && c.entryPoint < c.imageSize && c.numberOfRvaAndSizes >= 6
    && AllSound(table, c, nx, Get(file, c.relocDir, 4), Get(file, c.relocDir + 4, 4))
    && Relocs(table) <= 1 && Entries(table, c.entryPoint) == 1
  }

  /**
   handle_image succeeds exactly for an acceptable header, a verified signature, a digest, sections that
   are sound, one of which alone holds the entry point, and a relocation table, if any, that goes through.
   */
  lemma LoadedIff(file: seq<byte>, arch: Arch, nx: bool, verified: bool, bufferAddress: nat, initial: seq<byte>)
    requires var h := ReadHeader(file, arch, nx); h.Ok? ==> h.value.imageSize <= |initial|
    ensures ReadHeader(file, arch, nx).Ok? ==> Consistent(file, ReadHeader(file, arch, nx).value) && ReadHeader(file, arch, nx).value.imageSize < Relocate.U32
    ensures
      var h, t := ReadHeader(file, arch, nx), RelocationOf(file, arch, nx, verified, initial);
      Handled(file, arch, nx, verified, bufferAddress, initial).1 == Success <==>
        && h.Ok? && verified && HashInput(file, h.value).Ok? && IsMz(file) && LoadableImage(file, h.value, nx)
        && (t.Some? ==> Relocate.Relocated(file, t.value, Adjust(bufferAddress, h.value), Layout(file, h.value, nx, initial).value.image).1 == Relocate.Success)
  {
    hide ReadHeader, HashInput, Relocate.Relocated, Consistent, Layout, IsMz, Handled, RelocationOf, LoadableImage;
    HandledCases(file, arch, nx, verified, bufferAddress, initial);
    var h := ReadHeader(file, arch, nx);
    if h.Ok? && HashInput(file, h.value).Ok? { LayoutLoads(file, h.value, nx, initial); }
  }

  lemma LayoutLoads(file: seq<byte>, c: Context, nx: bool, initial: seq<byte>)
    requires Consistent(file, c) && HashInput(file, c).Ok? && c.imageSize < Relocate.U32 && c.imageSize <= |initial|
    ensures IsMz(file)
    ensures LoadableImage(file, c, nx) <==>
      c.entryPoint < c.imageSize && c.numberOfRvaAndSizes >= 6 && Layout(file, c, nx, initial).Some? && Layout(file, c, nx, initial).value.found == 1
  {
    hide HashInput, Consistent, Get, Layout, SectionTable, IsMz, AllSound, Relocs, Entries, TableReady;
    TableIsReady(file, c);
    TableReadable(file, c);
    if c.entryPoint < c.imageSize { LayoutIff(file, c, nx, initial); }
  }

  /** The branches of handle_image that lead to success. */
  lemma HandledCases(file: seq<byte>, arch: Arch, nx: bool, verified: bool, bufferAddress: nat, initial: seq<byte>)
    requires var h := ReadHeader(file, arch, nx); h.Ok? ==> h.value.imageSize <= |initial|
    ensures ReadHeader(file, arch, nx).Ok? ==> Consistent(file, ReadHeader(file, arch, nx).value) && ReadHeader(file, arch, nx).value.imageSize < Relocate.U32
    ensures
      var h, t := ReadHeader(file, arch, nx), RelocationOf(file, arch, nx, verified, initial);
      Handled(file, arch, nx, verified, bufferAddress, initial).1 == Success <==>
        && h.Ok? && verified && HashInput(file, h.value).Ok? && h.value.entryPoint < h.value.imageSize && h.value.numberOfRvaAndSizes >= 6
        && Layout(file, h.value, nx, initial).Some? && Layout(file, h.value, nx, initial).value.found == 1
        && (t.Some? ==> Relocate.Relocated(file, t.value, Adjust(bufferAddress, h.value), Layout(file, h.value, nx, initial).value.image).1 == Relocate.Success)
  {
    hide ReadHeader, HashInput, Relocate.Relocated, Consistent, Get, Layout;
    if ReadHeader(file, arch, nx).Ok? { HeaderBounds(file, arch, nx); }
  }

  lemma LayoutIff(file: seq<byte>, c: Context, nx: bool, initial: seq<byte>)
    requires Consistent(file, c) && HashInput(file, c).Ok? && IsMz(file) && c.imageSize < Relocate.U32 && c.imageSize <= |initial|
    requires c.entryPoint < c.imageSize
    ensures c.firstSection + c.numberOfSections * SECTION_HEADER <= |file|
    ensures
      var table, laid := SectionTable(file, c), Layout(file, c, nx, initial);
      && (laid.Some? <==> AllSound(table, c, nx, Get(file, c.relocDir, 4), Get(file, c.relocDir + 4, 4)) && Relocs(table) <= 1)
      && (laid.Some? ==> laid.value.found == Entries(table, c.entryPoint))
  {
    hide HashInput, Consistent, Get, LoadAll, SectionTable, IsMz, AllSound, Relocs, Entries, TableReady;
    TableIsReady(file, c);
    TableReadable(file, c);
    HeadersFit(file, c);
    LoadIff(file, c, nx, DirVa(file, c), DirSize(file, c), SectionTable(file, c), Progress(Put(initial, 0, file[..c.sizeOfHeaders]), 0, None));
  }

  /**
   A relocated field of the loaded image: the field as laid out, plus the distance from where the image was
   linked to where it is.
   */
  lemma LoadedFields(file: seq<byte>, arch: Arch, nx: bool, bufferAddress: nat, initial: seq<byte>, k: nat)
    requires var h := ReadHeader(file, arch, nx); h.Ok? && h.value.imageSize <= |initial|
    requires Handled(file, arch, nx, true, bufferAddress, initial).1 == Success
    requires RelocationOf(file, arch, nx, true, initial).Some?
    requires
      var fixups := Relocate.TablePlan(file, RelocationOf(file, arch, nx, true, initial).value).fixups;
      && RelocateLaws.AllInRange(fixups, |initial|) && RelocateLaws.PairwiseApart(fixups) && k < |fixups|
      && fixups[k].kind == Relocate.Dir64
    ensures ReadHeader(file, arch, nx).value.imageBase < Relocate.U64
    ensures
      var c := ReadHeader(file, arch, nx).value;
      var at := Relocate.TablePlan(file, RelocationOf(file, arch, nx, true, initial).value).fixups[k].at;
      && Consistent(file, c) && HashInput(file, c).Ok? && c.imageSize < Relocate.U32 && Layout(file, c, nx, initial).Some?
      && var image, laid := Handled(file, arch, nx, true, bufferAddress, initial).0, Layout(file, c, nx, initial).value.image;
         && at + 8 <= |image| == |laid|
         && Get(image, at, 8) == (Get(laid, at, 8) + bufferAddress - c.imageBase) % 0x1_0000_0000_0000_0000
  {
    hide ReadHeader, HashInput, Consistent, Get, Layout, Relocate.TablePlan, Relocate.PatchAll, Relocate.BadTable;
    HeaderBounds(file, arch, nx);
    var c := ReadHeader(file, arch, nx).value;
    var t := RelocationOf(file, arch, nx, true, initial).value;
    var laid := Layout(file, c, nx, initial).value.image;
    var fixups := Relocate.TablePlan(file, t).fixups;
    var adjust := Adjust(bufferAddress, c);
    RelocateLaws.FieldsMove(laid, fixups, adjust, k);
    RelocateLaws.PatchByZero(laid, fixups);
    SignedDistance(Get(laid, fixups[k].at, 8), bufferAddress, c.imageBase);
  }

  lemma SignedDistance(v: nat, to: nat, from: nat)
    ensures (v + (to - from) % 0x1_0000_0000_0000_0000) % 0x1_0000_0000_0000_0000 == (v + to - from) % 0x1_0000_0000_0000_0000
  {
  }
}
