/** pe-relocate.c: read_header and get_section_vma.  Pointers into the file are offsets. */
module PeHeader {
  import opened Bytes
  import Relocate

  datatype Error = Unsupported | InvalidParameter | NotFound
  datatype Result<+T> = Ok(value: T) | Err(error: Error)

  /** The machine this shim was built for, and which image widths it may load. */
  datatype Arch = Arch(machine: nat, allow64: bool, allow32: bool)

  const DOS_HEADER := 64
  const PE32 := 248
  const PE32_PLUS := 264
  const SECTION_HEADER := 40
  const MACHINE_I386 := 0x14c
  const MACHINE_X64 := 0x8664
  const MAGIC_32 := 0x10b
  const MAGIC_64 := 0x20b
  const PAGE := 4096

  const SCN_UNINITIALIZED := 0x80
  const SCN_DISCARDABLE := 0x0200_0000
  const SCN_EXECUTE := 0x2000_0000
  const SCN_READ := 0x4000_0000
  const SCN_WRITE := 0x8000_0000

  predicate HasFlag(flags: nat, bit: nat)
    requires bit > 0
  {
    (flags / bit) % 2 == 1
  }

  datatype Section = Section(name: seq<byte>, virtualSize: nat, virtualAddress: nat, rawSize: nat,
                             rawPointer: nat, flags: nat)
  {
    predicate Discardable() { HasFlag(flags, SCN_DISCARDABLE) }
    predicate Uninitialized() { HasFlag(flags, SCN_UNINITIALIZED) }
  }

  /** What read_header leaves for the loader; header fields it points at stay offsets into the file. */
  datatype Context = Context(pe: nat, is64: bool, numberOfRvaAndSizes: nat, sizeOfHeaders: nat, imageSize: nat,
                             sectionAlignment: nat, numberOfSections: nat, firstSection: nat, relocDir: nat,
                             secDir: nat, entryPoint: nat, imageBase: nat)
  {
    function CheckSum(): nat { pe + 88 }
  }

  predicate IsMz(file: seq<byte>) { |file| >= DOS_HEADER && Get(file, 0, 2) == 0x5a4d }

  /** The PE header's offset: e_lfanew behind a DOS stub, otherwise the start of the file. */
  function PeOffset(file: seq<byte>): nat
    requires |file| >= DOS_HEADER
  {
    if IsMz(file) then Get(file, 60, 4) else 0
  }

  predicate Loadable(machine: nat, magic: nat, arch: Arch) {
    && (machine == arch.machine || (arch.machine == MACHINE_I386 && machine == MACHINE_X64 && arch.allow64))
    && (magic == MAGIC_64 || magic == MAGIC_32)
    && if magic == MAGIC_64 then arch.allow64 else arch.allow32
  }

  /** Whether the PE header can be read at all. */
  predicate HeaderFits(file: seq<byte>) {
    && |file| >= DOS_HEADER
    && (IsMz(file) ==> DOS_HEADER <= Get(file, 60, 4) <= |file| - 4)
    && PeOffset(file) + PE32 <= |file|
    && (Get(file, PeOffset(file) + 24, 2) == MAGIC_64 ==> PeOffset(file) + PE32_PLUS <= |file|)
  }

  /** The header fields, with the alignment defaults filled in. */
  function Fields(file: seq<byte>): Context
    requires HeaderFits(file)
  {
    var pe := PeOffset(file);
    var is64 := Get(file, pe + 24, 2) == MAGIC_64;
    var fileAlignment := if Get(file, pe + 60, 4) == 0 then 0x200 else Get(file, pe + 60, 4);
    var sectionAlignment := if Get(file, pe + 56, 4) == 0 then PAGE else Get(file, pe + 56, 4);
    Context(pe, is64, Get(file, if is64 then pe + 132 else pe + 116, 4), Get(file, pe + 84, 4), Get(file, pe + 80, 4),
            if sectionAlignment < fileAlignment then fileAlignment else sectionAlignment,
            Get(file, pe + 6, 2), pe + 24 + Get(file, pe + 20, 2),
            if is64 then pe + 176 else pe + 160, if is64 then pe + 168 else pe + 152,
            Get(file, pe + 40, 4), if is64 then Get(file, pe + 48, 8) else Get(file, pe + 52, 4))
  }

  /** read_header: the context of an acceptable image, or the status it is refused with. */
  function ReadHeader(file: seq<byte>, arch: Arch, requireNx: bool): (r: Result<Context>)
    ensures r.Ok? ==> HeaderFits(file) && r.value == Fields(file)
    ensures r.Ok? ==> Consistent(file, r.value)
  {
    if !HeaderFits(file) then Err(Unsupported)
    else
      var c := Fields(file);
      var optionalSize := Get(file, c.pe + 20, 2);
      var fixedPart := if c.is64 then 112 else 96;
      var sectionTable := Get(file, 60, 4) + 24 + optionalSize;
      if !Loadable(Get(file, c.pe + 4, 2), Get(file, c.pe + 24, 2), arch) then Err(Unsupported)
      else if Get(file, c.pe + 60, 4) % 2 != 0 then Err(Unsupported)
      else if c.numberOfRvaAndSizes > 16 then Err(Unsupported)
      else if optionalSize < fixedPart || optionalSize - fixedPart != 8 * c.numberOfRvaAndSizes then Err(Unsupported)
      else if c.imageSize < sectionTable || (c.imageSize - sectionTable) / SECTION_HEADER <= c.numberOfSections then Err(Unsupported)
      else if c.sizeOfHeaders < sectionTable || (c.sizeOfHeaders - sectionTable) / SECTION_HEADER < c.numberOfSections then Err(Unsupported)
      else if c.numberOfSections * SECTION_HEADER + sectionTable > |file| then Err(Unsupported)
      else if c.pe + PE32_PLUS > |file| then Err(Unsupported)
      else if Get(file, c.pe, 2) != 0x4550 then Err(Unsupported)
      else if Get(file, c.pe + 22, 2) % 2 == 1 then Err(Unsupported)
      else if requireNx && !HasFlag(Get(file, c.pe + 94, 2), 0x100) then Err(Unsupported)
      else if c.firstSection > |file| then Err(Unsupported)
      else if c.imageSize < c.sizeOfHeaders then Err(Unsupported)
      else if c.secDir > |file| - 8 then Err(Unsupported)
      else if Get(file, c.secDir, 4) > |file| || (Get(file, c.secDir, 4) == |file| && Get(file, c.secDir + 4, 4) > 0)
      then Err(InvalidParameter)
      else
        assert Consistent(file, c);
        Ok(c)
  }

  /** What later code relies on: every header field lies in the file, sizes nest. */
  predicate Consistent(file: seq<byte>, c: Context) {
    && c.pe + PE32_PLUS <= |file| && c.CheckSum() + 4 <= c.secDir && c.secDir + 8 <= |file| && c.relocDir == c.secDir + 8
    && c.pe + 168 >= c.secDir && c.firstSection <= |file|
    && c.sizeOfHeaders <= c.imageSize
    && (IsMz(file) ==> c.firstSection + c.numberOfSections * SECTION_HEADER <= |file|
                       && c.firstSection + c.numberOfSections * SECTION_HEADER <= c.sizeOfHeaders)
  }

  // ---------------------------------------------------------------- acceptance in the file's own numbers

  /** The bytes a 64-bit optional header has in front of its directories more than a 32-bit one. */
  function Wider(file: seq<byte>, pe: nat): nat
    requires pe + 264 <= |file|
  {
    if Get(file, pe + 24, 2) == 0x20b then 16 else 0
  }

  /** Machine and magic number are ones this build may load. */
  predicate MachineOk(file: seq<byte>, pe: nat, arch: Arch)
    requires pe + 264 <= |file|
  {
    var machine, magic := Get(file, pe + 4, 2), Get(file, pe + 24, 2);
    && (machine == arch.machine || (arch.machine == 0x14c && machine == 0x8664 && arch.allow64))
    && ((magic == 0x20b && arch.allow64) || (magic == 0x10b && arch.allow32))
  }

  /**
   The header is whole, and its sizes fit: the optional header holds its fixed part and its directories, and
   the section table, placed by e_lfanew in any file, ends inside the headers and the file, with one section
   header to spare in the image.
   */
  predicate SizesOk(file: seq<byte>, pe: nat)
    requires pe + 264 <= |file|
  {
    var optional, sections, image := Get(file, pe + 20, 2), Get(file, pe + 6, 2), Get(file, pe + 80, 4);
    var rvas := Get(file, pe + 116 + Wider(file, pe), 4);
    var table := Get(file, 60, 4) + 24 + optional;
    && rvas <= 16 && optional == 96 + Wider(file, pe) + 8 * rvas
    && table + 40 * sections + 40 <= image && table + 40 * sections <= Get(file, pe + 84, 4) <= image
    && table + 40 * sections <= |file|
  }

  predicate FlagsOk(file: seq<byte>, pe: nat, requireNx: bool)
    requires pe + 264 <= |file|
  {
    && Get(file, pe, 2) == 0x4550 && Get(file, pe + 60, 4) % 2 == 0 && Get(file, pe + 22, 2) % 2 == 0
    && (requireNx ==> Get(file, pe + 94, 2) / 0x100 % 2 == 1)
  }

  /** The certificate directory begins inside the file, or is empty at its end. */
  predicate CertsOk(file: seq<byte>, pe: nat)
    requires pe + 264 <= |file|
  {
    var dir := pe + 152 + Wider(file, pe);
    Get(file, dir, 4) < |file| || (Get(file, dir, 4) == |file| && Get(file, dir + 4, 4) == 0)
  }

  lemma RoomIff(room: nat, n: nat)
    ensures room / 40 <= n <==> room < 40 * n + 40
    ensures room / 40 < n <==> room < 40 * n
  {
  }

  lemma SizesIff(file: seq<byte>)
    requires HeaderFits(file) && PeOffset(file) + 264 <= |file|
    ensures
      var c := Fields(file);
      var optionalSize := Get(file, c.pe + 20, 2);
      var table := Get(file, 60, 4) + 24 + optionalSize;
      var fixedPart := if c.is64 then 112 else 96;
      SizesOk(file, c.pe) <==>
        && c.numberOfRvaAndSizes <= 16 && optionalSize >= fixedPart && optionalSize - fixedPart == 8 * c.numberOfRvaAndSizes
        && c.imageSize >= table && (c.imageSize - table) / SECTION_HEADER > c.numberOfSections
        && c.sizeOfHeaders >= table && (c.sizeOfHeaders - table) / SECTION_HEADER >= c.numberOfSections
        && c.numberOfSections * SECTION_HEADER + table <= |file| && c.imageSize >= c.sizeOfHeaders
  {
    hide Get;
    var c := Fields(file);
    var table := Get(file, 60, 4) + 24 + Get(file, c.pe + 20, 2);
    if c.imageSize >= table { RoomIff(c.imageSize - table, c.numberOfSections); }
    if c.sizeOfHeaders >= table { RoomIff(c.sizeOfHeaders - table, c.numberOfSections); }
  }

  /** Where the PE header begins, if it can be there: at e_lfanew behind an MZ stub, else at the file's start. */
  predicate HeaderAt(file: seq<byte>, pe: nat) {
    && |file| >= 264 && pe + 264 <= |file|
    && if Get(file, 0, 2) == 0x5a4d then pe == Get(file, 60, 4) && pe >= 64 else pe == 0
  }

  /** Which files read_header accepts, and when the certificate directory is what it refuses. */
  lemma AcceptedIff(file: seq<byte>, arch: Arch, requireNx: bool, pe: nat)
    requires HeaderAt(file, pe)
    ensures
      var ok := MachineOk(file, pe, arch) && SizesOk(file, pe) && FlagsOk(file, pe, requireNx);
      && (ReadHeader(file, arch, requireNx).Ok? <==> ok && CertsOk(file, pe))
      && (ReadHeader(file, arch, requireNx) == Err(InvalidParameter) <==> ok && !CertsOk(file, pe))
  {
    hide Get, SizesOk, Consistent;
    SizesIff(file);
    OptionalBound(file, pe);
  }

  lemma OptionalBound(file: seq<byte>, pe: nat)
    requires pe + 264 <= |file|
    ensures SizesOk(file, pe) ==> pe + 24 + Get(file, pe + 20, 2) <= |file|
  {
    hide Get;
  }

  /** What an accepted image's context holds, by place in the file. */
  lemma ContextFields(file: seq<byte>, arch: Arch, requireNx: bool)
    requires ReadHeader(file, arch, requireNx).Ok?
    ensures
      var c := ReadHeader(file, arch, requireNx).value;
      var w := Wider(file, c.pe);
      var fileAlign, sectionAlign := Get(file, c.pe + 60, 4), Get(file, c.pe + 56, 4);
      && c.secDir == c.pe + 152 + w && c.relocDir == c.pe + 160 + w && c.is64 == (w == 16)
      && c.sizeOfHeaders == Get(file, c.pe + 84, 4) && c.imageSize == Get(file, c.pe + 80, 4)
      && c.numberOfSections == Get(file, c.pe + 6, 2) && c.firstSection == c.pe + 24 + Get(file, c.pe + 20, 2)
      && c.entryPoint == Get(file, c.pe + 40, 4) && c.imageBase == (if w == 16 then Get(file, c.pe + 48, 8) else Get(file, c.pe + 52, 4))
      && c.sectionAlignment >= (if fileAlign == 0 then 512 else fileAlign)
      && c.sectionAlignment >= (if sectionAlign == 0 then 4096 else sectionAlign)
      && c.sectionAlignment in {fileAlign, sectionAlign, 512, 4096}
  {
    hide Get, SizesOk, Consistent;
  }

  /** A file without room for the header there is refused. */
  lemma HeaderNeeded(file: seq<byte>, arch: Arch, requireNx: bool)
    ensures ReadHeader(file, arch, requireNx).Ok? ==> HeaderAt(file, ReadHeader(file, arch, requireNx).value.pe)
  {
    hide Get;
  }

  // ---------------------------------------------------------------- sections

  function SectionAt(file: seq<byte>, at: nat): Section
    requires at + SECTION_HEADER <= |file|
  {
    Section(file[at..at + 8], Get(file, at + 8, 4), Get(file, at + 12, 4), Get(file, at + 16, 4),
            Get(file, at + 20, 4), Get(file, at + 36, 4))
  }

  /** The section table in file order. */
  function SectionTable(file: seq<byte>, c: Context): (s: seq<Section>)
    requires c.firstSection + c.numberOfSections * SECTION_HEADER <= |file|
    ensures |s| == c.numberOfSections
  {
    seq(c.numberOfSections, i requires 0 <= i < c.numberOfSections => SectionAt(file, c.firstSection + i * SECTION_HEADER))
  }

  /** Comparing two possibly-null pointers into one buffer. */
  predicate PointerLess(a: Option<nat>, b: Option<nat>) {
    match (a, b)
    case (_, None) => false
    case (None, Some(_)) => true
    case (Some(x), Some(y)) => x < y
  }

  function Base(s: Section, imageSize: nat): Option<nat> { Relocate.ImageAddress(imageSize, s.virtualAddress) }

  /** Address of the section's last byte, in 32-bit arithmetic. */
  function End(s: Section, imageSize: nat): Option<nat> {
    Relocate.ImageAddress(imageSize, (s.virtualAddress + s.virtualSize - 1) % Relocate.U32)
  }

  /** get_section_vma's checks on one section. */
  predicate SectionOk(s: Section, c: Context) {
    && (!s.Discardable() ==> Base(s, c.imageSize).Some? && End(s, c.imageSize).Some?)
    && (!s.Uninitialized() ==> s.virtualAddress >= c.sizeOfHeaders && s.rawPointer >= c.sizeOfHeaders)
    && !PointerLess(End(s, c.imageSize), Base(s, c.imageSize))
  }

  predicate Fits32(s: Section) {
    s.virtualSize < Relocate.U32 && s.virtualAddress < Relocate.U32 && s.rawSize < Relocate.U32 && s.rawPointer < Relocate.U32 && s.flags < Relocate.U32
  }

  /**
   A section that passes with a valid base spans exactly virtualSize bytes of the image: the 32-bit
   sum in its end address did not wrap.
   */
  lemma SectionSpans(s: Section, c: Context)
    requires Fits32(s) && c.imageSize < Relocate.U32 && SectionOk(s, c) && Base(s, c.imageSize).Some?
    ensures s.virtualAddress + s.virtualSize <= c.imageSize && s.virtualSize > 0
  {
    var sum := s.virtualAddress + s.virtualSize - 1;
    assert sum % Relocate.U32 == if sum >= Relocate.U32 then sum - Relocate.U32 else if sum < 0 then Relocate.U32 - 1 else sum;
  }

  lemma SectionAtFits32(file: seq<byte>, at: nat)
    requires at + SECTION_HEADER <= |file|
    ensures Fits32(SectionAt(file, at))
  {
    assert Pow256(4) == Relocate.U32 by { assert Pow256(1) == 256 && Pow256(2) == 0x10000 && Pow256(3) == 0x1000000; }
    FromLEBound(file[at + 8..at + 8 + 4]);
    FromLEBound(file[at + 12..at + 12 + 4]);
    FromLEBound(file[at + 16..at + 16 + 4]);
    FromLEBound(file[at + 20..at + 20 + 4]);
    FromLEBound(file[at + 36..at + 36 + 4]);
  }
}
