/**
 post-process-pe.c: the build-time fix-up of a linked image, in the mapped file.  A rejected file keeps
 whatever was already written, as the mapping is shared.
 */
module PostProcess {
  import opened Bytes

  const U32 := 0x1_0000_0000
  const SECTION_HEADER := 40
  const PAGE := 4096
  const UNION_SIZE := 264
  const NX_COMPAT := 0x100

  /** The header fields the checks read; none of them is ever written. */
  datatype Head = Head(mz: bool, pe: nat, signature: bool, is64: bool, fileAlignment: nat, sections: nat,
                       optionalSize: nat, relocsStripped: bool, imageSize: nat, rvas: nat, secVa: nat, secSize: nat)

  /** Whether the fields lie in the file at all. */
  predicate Mapped(file: seq<byte>) {
    |file| >= 248 && Get(file, 60, 4) + 176 <= |file|
  }

  /** The file is refused before its header is read: too short, no DOS header, or a header that begins outside it. */
  predicate Early(file: seq<byte>) {
    |file| < 248 || Get(file, 0, 2) != 0x5a4d || Get(file, 60, 4) >= |file|
  }

  function HeadOf(file: seq<byte>): (h: Head)
    requires Mapped(file)
    ensures h.pe + 176 <= |file|
  {
    var pe := Get(file, 60, 4);
    var is64 := Get(file, pe + 24, 2) == 0x20b;
    Head(Get(file, 0, 2) == 0x5a4d, pe, Get(file, pe, 4) == 0x4550, is64, Get(file, pe + 60, 4),
         Get(file, pe + 6, 2), Get(file, pe + 20, 2), Get(file, pe + 22, 2) % 2 == 1, Get(file, pe + 80, 4),
         if is64 then Get(file, pe + 132, 4) else Get(file, pe + 116, 4),
         if is64 then Get(file, pe + 168, 4) else Get(file, pe + 152, 4),
         if is64 then Get(file, pe + 172, 4) else Get(file, pe + 156, 4))
  }

  function Alignment(h: Head): nat { if h.fileAlignment == 0 then 0x200 else h.fileAlignment }

  /** End of the section table. */
  function TableEnd(h: Head): nat { h.pe + 24 + h.optionalSize + h.sections * SECTION_HEADER }

  /** The checks before the repair. */
  predicate Admitted(h: Head) {
    var headerSize := if h.is64 then 112 else 96;
    && h.mz && h.signature && h.fileAlignment % 2 == 0 && h.rvas <= 16
    && h.optionalSize >= headerSize && h.optionalSize - headerSize == h.rvas * 8
    && h.imageSize >= h.pe + 24 + h.optionalSize
    && (h.imageSize - h.pe - 24 - h.optionalSize) / SECTION_HEADER > h.sections
  }

  predicate TooSmall(h: Head, sizeOfHeaders: nat) {
    || sizeOfHeaders < h.pe + 24 + h.optionalSize
    || (sizeOfHeaders - h.pe - 24 - h.optionalSize) / SECTION_HEADER < h.sections
  }

  /** (end + align - 1) & ~(align - 1), for any alignment. */
  function RoundedUp(end: nat, align: nat): (r: nat)
    requires align > 0
    ensures end <= r <= end + align - 1
  {
    var x := end + align - 1;
    x - BitAnd(x, align - 1)
  }

  function NeededHeaders(h: Head): nat { RoundedUp(TableEnd(h), Alignment(h)) }

  /** The checks behind the repair, on the header size the loader works with. */
  predicate Accepted(h: Head, headers: nat, size: nat) {
    && h.pe + UNION_SIZE <= size && !h.relocsStripped && headers <= h.imageSize
    && h.pe + (if h.is64 then 168 else 152) + 8 <= size
    && h.secVa <= size && (h.secVa == size ==> h.secSize == 0)
  }

  // ---------------------------------------------------------------- the steps on values

  function Write(file: seq<byte>, at: nat, v: nat, w: nat): (r: seq<byte>)
    requires at + w <= |file|
    ensures |r| == |file|
  {
    Put(file, at, ToLE(v, w))
  }

  /** load_pe: whether the file is accepted, and the file behind the repair. */
  function Loaded(file: seq<byte>): (bool, seq<byte>)
    requires Early(file) || Mapped(file)
  {
    if Early(file) then (false, file)
    else if !Admitted(HeadOf(file)) then (false, file)
    else
      var h := HeadOf(file);
      var old_ := Get(file, h.pe + 84, 4);
      if TooSmall(h, old_) then (Accepted(h, NeededHeaders(h), |file|), Write(file, h.pe + 84, NeededHeaders(h), 4))
      else (Accepted(h, old_, |file|), file)
  }

  function WithNx(flags: nat, nx: bool): (r: nat)
    ensures (r / NX_COMPAT % 2 == 1) == nx
    ensures r == flags || r == flags + NX_COMPAT || r + NX_COMPAT == flags
    ensures (flags / NX_COMPAT % 2 == 1) == nx ==> r == flags
  {
    if (flags / NX_COMPAT % 2 == 1) == nx then flags else if nx then flags + NX_COMPAT else flags - NX_COMPAT
  }

  function Characterised(file: seq<byte>, pe: nat, nx: bool): (r: seq<byte>)
    requires pe + 176 <= |file|
    ensures |r| == |file|
  {
    Write(file, pe + 94, WithNx(Get(file, pe + 94, 2), nx), 2)
  }

  function Undated(file: seq<byte>, pe: nat): (r: seq<byte>)
    requires pe + 176 <= |file|
    ensures |r| == |file|
  {
    Write(file, pe + 8, 0, 4)
  }

  function Word(file: seq<byte>, i: nat): nat
    requires i + 1 < |file|
  {
    var high: nat, low: nat := file[i + 1], file[i];
    high * 256 + low
  }

  function FoldOne(sum: nat, word: nat): nat {
    var c := (sum + word) % U32;
    (c + c / 0x1_0000) % 0x1_0000
  }

  /** The checksum loop over the words before i. */
  function Folded(file: seq<byte>, i: nat): nat
    requires i % 2 == 0 && i <= |file|
    decreases i
  {
    if i == 0 then 0 else FoldOne(Folded(file, i - 2), Word(file, i - 2))
  }

  function WordsEnd(n: nat): (e: nat)
    ensures e % 2 == 0 && e <= n < e + 2
  {
    n - n % 2
  }

  function Checksummed(file: seq<byte>, pe: nat): (r: seq<byte>)
    requires pe + 176 <= |file|
    ensures |r| == |file|
  {
    var cleared := Write(file, pe + 88, 0, 4);
    Write(cleared, pe + 88, (Folded(cleared, WordsEnd(|file|)) + |file|) % U32, 4)
  }

  /** handle_one. */
  function Processed(file: seq<byte>, nx: bool): (bool, seq<byte>)
    requires Early(file) || Mapped(file)
  {
    var (ok, loaded) := Loaded(file);
    if !ok then (false, loaded)
    else
      var pe := HeadOf(file).pe;
      (true, Checksummed(Undated(Characterised(loaded, pe, nx), pe), pe))
  }

  // ---------------------------------------------------------------- the steps in the mapped file

  method WriteField(file: array<byte>, at: nat, v: nat, w: nat)
    requires at + w <= file.Length
    modifies file
    ensures file[..] == Write(old(file[..]), at, v, w)
  {
    Store(file, at, ToLE(v, w));
  }

  method LoadPe(file: array<byte>) returns (ok: bool)
    requires Early(file[..]) || Mapped(file[..])
    modifies file
    ensures (ok, file[..]) == Loaded(old(file[..]))
  {
    hide Get, ToLE, Write, Put, RoundedUp, Accepted, Admitted, TooSmall;
    if file.Length < 248 || Get(file[..], 0, 2) != 0x5a4d || Get(file[..], 60, 4) >= file.Length { return false; }
    var h := HeadOf(file[..]);
    if !Admitted(h) { return false; }
    var headers := Get(file[..], h.pe + 84, 4);
    if TooSmall(h, headers) {
      headers := NeededHeaders(h);
      WriteField(file, h.pe + 84, headers, 4);
    }
    return Accepted(h, headers, file.Length);
  }

  method SetDllCharacteristics(file: array<byte>, pe: nat, nx: bool)
    requires pe + 176 <= file.Length
    modifies file
    ensures file[..] == Characterised(old(file[..]), pe, nx)
  {
    hide Get, ToLE, Write;
    var flags := Get(file[..], pe + 94, 2);
    var changed := WithNx(flags, nx);
    if flags == changed {
      Rewrite(file[..], pe + 94, 2);
      return;
    }
    WriteField(file, pe + 94, changed, 2);
  }

  /** Writing a field's own value changes nothing. */
  lemma Rewrite(file: seq<byte>, at: nat, w: nat)
    requires at + w <= |file|
    ensures Write(file, at, Get(file, at, w), w) == file
  {
    hide ToLE, FromLE;
    FromToLE(file[at..at + w]);
    var r := Put(file, at, file[at..at + w]);
    assert forall k :: 0 <= k < |file| ==> r[k] == file[k];
  }

  method FixTimestamp(file: array<byte>, pe: nat)
    requires pe + 176 <= file.Length
    modifies file
    ensures file[..] == Undated(old(file[..]), pe)
  {
    hide Get, ToLE, Write;
    if Get(file[..], pe + 8, 4) != 0 {
      WriteField(file, pe + 8, 0, 4);
    } else {
      Rewrite(file[..], pe + 8, 4);
    }
  }

  method FixChecksum(file: array<byte>, pe: nat)
    requires pe + 176 <= file.Length
    modifies file
    ensures file[..] == Checksummed(old(file[..]), pe)
  {
    hide ToLE, Write, Folded;
    WriteField(file, pe + 88, 0, 4);
    ghost var cleared := file[..];
    var checksum, i := 0, 0;
    FoldedStep(cleared, 0);
    while i < file.Length - 1
      invariant i % 2 == 0 && i <= file.Length && checksum == Folded(cleared, i) && file[..] == cleared
      decreases file.Length - i
    {
      var high: nat, low: nat := file[i + 1], file[i];
      var word := high * 256 + low;
      FoldedStep(cleared, i + 2);
      checksum := (checksum + word) % U32;
      checksum := (checksum + checksum / 0x1_0000) % 0x1_0000;
      i := i + 2;
    }
    assert i == WordsEnd(file.Length);
    WriteField(file, pe + 88, (checksum + file.Length) % U32, 4);
  }

  lemma FoldedStep(file: seq<byte>, i: nat)
    requires i % 2 == 0 && i <= |file|
    ensures Folded(file, i) == if i == 0 then 0 else FoldOne(Folded(file, i - 2), Word(file, i - 2))
  {
  }

  method HandleOne(file: array<byte>, nx: bool) returns (ok: bool)
    requires Early(file[..]) || Mapped(file[..])
    modifies file
    ensures (ok, file[..]) == Processed(old(file[..]), nx)
  {
    hide Characterised, Undated, Checksummed, Get, Admitted, TooSmall, Accepted, Write, NeededHeaders;
    var pe := if file.Length < 64 then 0 else Get(file[..], 60, 4);
    ok := LoadPe(file);
    if !ok { return; }
    SetDllCharacteristics(file, pe, nx);
    FixTimestamp(file, pe);
    FixChecksum(file, pe);
  }

  // ---------------------------------------------------------------- laws

  /** The repaired header size covers the section table, whatever the file alignment. */
  lemma RepairCovers(file: seq<byte>)
    requires (Early(file) || Mapped(file)) && Loaded(file).0
    ensures Mapped(file)
    ensures
      var h := HeadOf(file);
      && |Loaded(file).1| == |file|
      && TableEnd(h) <= Get(Loaded(file).1, h.pe + 84, 4) <= h.imageSize
  {
    hide HeadOf, RoundedUp, Get, Write, TooSmall;
    var h := HeadOf(file);
    var old_ := Get(file, h.pe + 84, 4);
    ImageSizeBound(file);
    if TooSmall(h, old_) {
      WrittenValue(file, h.pe + 84, NeededHeaders(h), 4);
    } else {
      Covers(h, old_);
    }
  }

  lemma Covers(h: Head, headers: nat)
    requires !TooSmall(h, headers)
    ensures TableEnd(h) <= headers
  {
    var q := (headers - h.pe - 24 - h.optionalSize) / SECTION_HEADER;
    assert q * SECTION_HEADER <= headers - h.pe - 24 - h.optionalSize;
  }

  lemma CoveredIsLargeEnough(h: Head, headers: nat)
    requires TableEnd(h) <= headers
    ensures !TooSmall(h, headers)
  {
  }

  lemma ImageSizeBound(file: seq<byte>)
    requires Mapped(file)
    ensures HeadOf(file).imageSize < U32
  {
    hide FromLE;
    Powers();
    FromLEBound(file[HeadOf(file).pe + 80..HeadOf(file).pe + 84]);
  }

  lemma WrittenValue(file: seq<byte>, at: nat, v: nat, w: nat)
    requires at + w <= |file|
    ensures Get(Write(file, at, v, w), at, w) == v % Pow256(w)
    ensures Pow256(2) == 0x1_0000 && Pow256(4) == U32
  {
    hide ToLE, FromLE;
    GetPut(file, at, ToLE(v, w), at, w);
    ToFromLE(v, w);
    Powers();
  }

  lemma {:induction false} FoldIsSmall(file: seq<byte>, i: nat)
    requires i % 2 == 0 && i <= |file|
    ensures Folded(file, i) <= 0xffff
    ensures Folded(file, i) % 0xffff == SumWords(file, i) % 0xffff
    decreases i
  {
    hide Get, FoldOne;
    if i > 0 {
      WordIs(file, i - 2);
      FoldIsSmall(file, i - 2);
      FoldOneKeeps(Folded(file, i - 2), Word(file, i - 2));
      SameRemainder(Folded(file, i - 2), SumWords(file, i - 2), Word(file, i - 2));
    }
  }

  lemma WordIs(file: seq<byte>, i: nat)
    requires i + 1 < |file|
    ensures Word(file, i) == Get(file, i, 2) <= 0xffff
  {
    var w := file[i..i + 2];
    assert w[1..] == [w[1]] && w[1..][1..] == [];
    assert FromLE(w[1..]) == w[1] + 256 * FromLE(w[1..][1..]);
  }

  function SumWords(file: seq<byte>, i: nat): nat
    requires i % 2 == 0 && i <= |file|
    decreases i
  {
    if i == 0 then 0 else SumWords(file, i - 2) + Get(file, i - 2, 2)
  }

  lemma FoldOneKeeps(sum: nat, word: nat)
    requires sum <= 0xffff && word <= 0xffff
    ensures FoldOne(sum, word) <= 0xffff && FoldOne(sum, word) % 0xffff == (sum + word) % 0xffff
  {
  }

  lemma SameRemainder(a: nat, b: nat, c: nat)
    requires a % 0xffff == b % 0xffff
    ensures (a + c) % 0xffff == (b + c) % 0xffff
  {
  }

  /** The final checksum, before the size is added: small, and the file's words modulo 65535. */
  lemma ChecksumIsSum(file: seq<byte>, pe: nat)
    requires pe + 176 <= |file|
    ensures
      var cleared := Write(file, pe + 88, 0, 4);
      var sum := Folded(cleared, WordsEnd(|file|));
      && sum <= 0xffff && sum % 0xffff == SumWords(cleared, WordsEnd(|file|)) % 0xffff
      && Get(Checksummed(file, pe), pe + 88, 4) == (sum + |file|) % U32
  {
    hide ToLE, Folded, SumWords, Write, Get;
    var cleared := Write(file, pe + 88, 0, 4);
    FoldIsSmall(cleared, WordsEnd(|file|));
    WrittenValue(cleared, pe + 88, (Folded(cleared, WordsEnd(|file|)) + |file|) % U32, 4);
  }

  // ---------------------------------------------------------------- the result in the file's own numbers

  /** End of the section table, read from the header at pe. */
  function SectionsEnd(file: seq<byte>, pe: nat): nat
    requires pe + 176 <= |file|
  {
    pe + 24 + Get(file, pe + 20, 2) + 40 * Get(file, pe + 6, 2)
  }

  /** The header size behind the repair: the one in the file unless the section table goes past it. */
  function HeaderSize(file: seq<byte>, pe: nat): nat
    requires pe + 176 <= |file|
  {
    var align := if Get(file, pe + 60, 4) == 0 then 512 else Get(file, pe + 60, 4);
    if Get(file, pe + 84, 4) < SectionsEnd(file, pe) then RoundedUp(SectionsEnd(file, pe), align) else Get(file, pe + 84, 4)
  }

  /** For a power of two the header size is rounded to the next multiple. */
  lemma RoundsToMultiple(end: nat, k: nat)
    ensures RoundedUp(end, Pow2(k)) % Pow2(k) == 0
  {
    hide Pow2, BitAnd;
    MaskIsMod(end + Pow2(k) - 1, k);
    LessRemainder(end + Pow2(k) - 1, Pow2(k));
  }

  lemma LessRemainder(x: nat, a: nat)
    requires a > 0
    ensures (x - x % a) % a == 0
  {
    var q, r := x / a, x % a;
    assert x == q * a + r;
    ModUnique(q * a, a, q, 0);
  }

  lemma TooSmallIff(h: Head, headers: nat)
    ensures TooSmall(h, headers) <==> headers < TableEnd(h)
  {
    if !TooSmall(h, headers) { Covers(h, headers); }
    if TableEnd(h) <= headers { CoveredIsLargeEnough(h, headers); }
  }

  lemma RoomIff(room: nat, n: nat)
    ensures room / 40 > n <==> room >= 40 * (n + 1)
  {
  }

  /** The bytes a 64-bit optional header has in front of its directories more than a 32-bit one. */
  function Wider(file: seq<byte>, pe: nat): nat
    requires pe + 176 <= |file|
  {
    if Get(file, pe + 24, 2) == 0x20b then 16 else 0
  }

  lemma HeadIn(file: seq<byte>)
    requires Mapped(file)
    ensures
      var h, pe := HeadOf(file), Get(file, 60, 4);
      var wide := Wider(file, pe);
      && h.pe == pe && pe + 176 <= |file| && h.is64 == (wide == 16)
      && h.rvas == Get(file, pe + 116 + wide, 4)
      && h.secVa == Get(file, pe + 152 + wide, 4) && h.secSize == Get(file, pe + 156 + wide, 4)
      && TableEnd(h) == SectionsEnd(file, pe)
      && (if TooSmall(h, Get(file, pe + 84, 4)) then NeededHeaders(h) else Get(file, pe + 84, 4)) == HeaderSize(file, pe)
  {
    hide Get, RoundedUp, TooSmall;
    TooSmallIff(HeadOf(file), Get(file, Get(file, 60, 4) + 84, 4));
  }

  /**
   Which files the tool accepts, in the file's fields: both signatures, an even file alignment, an optional
   header of exactly its fixed part and its directories, an image with room for one more section header than it
   has, room for the whole header union, relocations not stripped, a header size inside the image, and a
   certificate directory that begins in the file or is empty at its end.
   */
  lemma AcceptedIff(file: seq<byte>, nx: bool)
    requires Mapped(file)
    ensures
      var pe := Get(file, 60, 4);
      var wide := Wider(file, pe);
      var rvas, certs := Get(file, pe + 116 + wide, 4), Get(file, pe + 152 + wide, 4);
      Processed(file, nx).0 <==>
        && Get(file, 0, 2) == 0x5a4d && Get(file, pe, 4) == 0x4550 && Get(file, pe + 60, 4) % 2 == 0
        && rvas <= 16 && Get(file, pe + 20, 2) == 96 + wide + 8 * rvas
        && pe + 24 + Get(file, pe + 20, 2) + 40 * (Get(file, pe + 6, 2) + 1) <= Get(file, pe + 80, 4)
        && pe + 264 <= |file| && Get(file, pe + 22, 2) % 2 == 0 && HeaderSize(file, pe) <= Get(file, pe + 80, 4)
        && (certs < |file| || (certs == |file| && Get(file, pe + 156 + wide, 4) == 0))
  {
    hide Get, RoundedUp, TooSmall, HeaderSize, NeededHeaders, Write;
    HeadIn(file);
    var h := HeadOf(file);
    AdmittedIff(h);
    LoadedIs(file);
  }

  lemma AdmittedIff(h: Head)
    ensures Admitted(h) <==>
      && h.mz && h.signature && h.fileAlignment % 2 == 0 && h.rvas <= 16
      && h.optionalSize == (if h.is64 then 112 else 96) + 8 * h.rvas
      && h.pe + 24 + h.optionalSize + 40 * (h.sections + 1) <= h.imageSize
  {
    if h.imageSize >= h.pe + 24 + h.optionalSize { RoomIff(h.imageSize - h.pe - 24 - h.optionalSize, h.sections); }
  }

  lemma LoadedIs(file: seq<byte>)
    requires Mapped(file)
    ensures
      var h := HeadOf(file);
      var headers := if TooSmall(h, Get(file, h.pe + 84, 4)) then NeededHeaders(h) else Get(file, h.pe + 84, 4);
      && Loaded(file).0 == (Admitted(h) && Accepted(h, headers, |file|))
      && Loaded(file).1 == if Admitted(h) && TooSmall(h, Get(file, h.pe + 84, 4)) then Write(file, h.pe + 84, headers, 4) else file
  {
    hide Get, RoundedUp, TooSmall, NeededHeaders, Write;
    EarlyIs(file);
  }

  lemma WrittenBytes(file: seq<byte>, at: nat, v: nat, w: nat)
    requires at + w <= |file|
    ensures forall k :: 0 <= k < |file| && !(at <= k < at + w) ==> Write(file, at, v, w)[k] == file[k]
  {
    hide ToLE;
  }

  /** The bytes of the time stamp, the header size, the checksum and the flags. */
  predicate Rewritten(pe: nat, k: nat) { pe + 8 <= k < pe + 12 || pe + 84 <= k < pe + 92 || pe + 94 <= k < pe + 96 }

  /** The words of the file without those of its checksum, which the tool reads as zero. */
  function WordsBut(file: seq<byte>, at: nat): nat
    requires at + 4 <= |file|
  {
    SumWords(Write(file, at, 0, 4), WordsEnd(|file|))
  }

  /**
   What the tool leaves of a file it accepts: time stamp zero, the wanted NX bit beside the other flags, the
   header size it needs, a checksum that is the file's words folded to 16 bits plus its length, and no other
   byte changed.
   */
  lemma ProcessedFields(file: seq<byte>, nx: bool)
    requires Mapped(file) && Processed(file, nx).0
    ensures
      var out, pe := Processed(file, nx).1, Get(file, 60, 4);
      && |out| == |file| && pe + 176 <= |file|
      && (forall k :: 0 <= k < |file| && !Rewritten(pe, k) ==> out[k] == file[k])
      && Get(out, pe + 8, 4) == 0 && Get(out, pe + 84, 4) == HeaderSize(file, pe)
      && (Get(out, pe + 94, 2) / 256 % 2 == 1 <==> nx)
      && Get(out, pe + 94, 2) % 256 == Get(file, pe + 94, 2) % 256 && Get(out, pe + 94, 2) / 512 == Get(file, pe + 94, 2) / 512
      && exists sum :: 0 <= sum <= 0xffff && sum % 0xffff == WordsBut(out, pe + 88) % 0xffff
           && Get(out, pe + 88, 4) == (sum + |file|) % 0x1_0000_0000
  {
    hide Get, Write, HeadOf, TooSmall, WithNx, Folded, SumWords, RoundedUp, HeaderSize;
    HeadIn(file);
    LoadedIs(file);
    var pe := Get(file, 60, 4);
    var loaded := Loaded(file).1;
    LoadedLeaves(file);
    var flags := WithNx(Get(loaded, pe + 94, 2), nx);
    var a := Characterised(loaded, pe, nx);
    var b := Undated(a, pe);
    var cleared := Write(b, pe + 88, 0, 4);
    var sum := (Folded(cleared, WordsEnd(|file|)) + |file|) % U32;
    var out := Write(cleared, pe + 88, sum, 4);
    FlagsBound(loaded, pe + 94);
    StepsLeave(loaded, pe, flags, sum);
    FlagBits(Get(loaded, pe + 94, 2), nx);
    ChecksumIsSum(b, pe);
    WriteTwice(b, pe + 88, 0, sum, 4);
    WriteTwice(b, pe + 88, sum, 0, 4);
    assert Write(out, pe + 88, 0, 4) == cleared;
  }

  lemma FlagBits(flags: nat, nx: bool)
    ensures
      var r := WithNx(flags, nx);
      (r / 256 % 2 == 1 <==> nx) && r % 256 == flags % 256 && r / 512 == flags / 512
  {
  }

  lemma LoadedLeaves(file: seq<byte>)
    requires Mapped(file) && Loaded(file).0
    ensures
      var loaded, pe := Loaded(file).1, Get(file, 60, 4);
      && |loaded| == |file| && pe + 176 <= |file| && Get(loaded, pe + 84, 4) == HeaderSize(file, pe)
      && Get(loaded, pe + 94, 2) == Get(file, pe + 94, 2)
      && forall k :: 0 <= k < |file| && !Rewritten(pe, k) ==> loaded[k] == file[k]
  {
    hide Get, Write, HeadOf, TooSmall, HeaderSize, RoundedUp;
    HeadIn(file);
    LoadedIs(file);
    ImageSizeBound(file);
    var h := HeadOf(file);
    if TooSmall(h, Get(file, h.pe + 84, 4)) {
      WrittenValue(file, h.pe + 84, NeededHeaders(h), 4);
      WrittenBytes(file, h.pe + 84, NeededHeaders(h), 4);
      FieldKept(file, h.pe + 84, NeededHeaders(h), 4, h.pe + 94, 2);
    }
  }

  /** The three later steps: what they write, and that they write nothing else. */
  lemma StepsLeave(file: seq<byte>, pe: nat, flags: nat, sum: nat)
    requires pe + 176 <= |file| && flags < 0x1_0000
    ensures
      var out := Write(Write(Write(Write(file, pe + 94, flags, 2), pe + 8, 0, 4), pe + 88, 0, 4), pe + 88, sum, 4);
      && Get(out, pe + 8, 4) == 0 && Get(out, pe + 94, 2) == flags && Get(out, pe + 84, 4) == Get(file, pe + 84, 4)
      && forall k :: 0 <= k < |file| && !Rewritten(pe, k) ==> out[k] == file[k]
  {
    hide Get, Write;
    var a := Write(file, pe + 94, flags, 2);
    var b := Write(a, pe + 8, 0, 4);
    WrittenBytes(file, pe + 94, flags, 2);
    WrittenBytes(a, pe + 8, 0, 4);
    WriteTwice(b, pe + 88, 0, sum, 4);
    WrittenBytes(b, pe + 88, sum, 4);
    WrittenValue(file, pe + 94, flags, 2);
    WrittenValue(a, pe + 8, 0, 4);
    FieldKept(a, pe + 8, 0, 4, pe + 94, 2);
    FieldKept(file, pe + 94, flags, 2, pe + 84, 4);
    FieldKept(a, pe + 8, 0, 4, pe + 84, 4);
    OthersKept(b, pe, sum);
  }

  // ---------------------------------------------------------------- running it twice

  /** The four fields the tool writes. */
  predicate Fixed(pe: nat, at: nat, w: nat) {
    || (at == pe + 84 && w == 4) || (at == pe + 94 && w == 2) || (at == pe + 8 && w == 4) || (at == pe + 88 && w == 4)
  }

  lemma FieldKept(file: seq<byte>, at: nat, v: nat, w: nat, at': nat, w': nat)
    requires at + w <= |file| && at' + w' <= |file| && (at + w <= at' || at' + w' <= at)
    ensures Get(Write(file, at, v, w), at', w') == Get(file, at', w')
  {
    hide ToLE, FromLE;
    GetPut(file, at, ToLE(v, w), at', w');
  }

  /** Writing one of them leaves every other field as it was. */
  lemma HeadKept(file: seq<byte>, at: nat, v: nat, w: nat)
    requires Mapped(file) && HeadOf(file).pe >= 64 && Fixed(HeadOf(file).pe, at, w)
    ensures Mapped(Write(file, at, v, w)) && HeadOf(Write(file, at, v, w)) == HeadOf(file)
  {
    hide Get, Write;
    var pe := HeadOf(file).pe;
    FieldKept(file, at, v, w, 0, 2);
    FieldKept(file, at, v, w, 60, 4);
    FieldKept(file, at, v, w, pe, 4);
    FieldKept(file, at, v, w, pe + 6, 2);
    FieldKept(file, at, v, w, pe + 20, 2);
    FieldKept(file, at, v, w, pe + 22, 2);
    FieldKept(file, at, v, w, pe + 24, 2);
    FieldKept(file, at, v, w, pe + 60, 4);
    FieldKept(file, at, v, w, pe + 80, 4);
    FieldKept(file, at, v, w, pe + 116, 4);
    FieldKept(file, at, v, w, pe + 132, 4);
    FieldKept(file, at, v, w, pe + 152, 4);
    FieldKept(file, at, v, w, pe + 156, 4);
    FieldKept(file, at, v, w, pe + 168, 4);
    FieldKept(file, at, v, w, pe + 172, 4);
  }

  lemma WriteTwice(file: seq<byte>, at: nat, v: nat, u: nat, w: nat)
    requires at + w <= |file|
    ensures Write(Write(file, at, v, w), at, u, w) == Write(file, at, u, w)
  {
    hide ToLE;
  }

  lemma EarlyIs(file: seq<byte>)
    requires Mapped(file)
    ensures Early(file) <==> !HeadOf(file).mz
  {
  }

  /** The loader accepts what it left behind, and leaves it alone. */
  lemma LoadTwice(file: seq<byte>)
    requires Mapped(file) && HeadOf(file).pe >= 64
    ensures
      var (ok, once) := Loaded(file);
      && |once| == |file| && Mapped(once) && HeadOf(once) == HeadOf(file) && Loaded(once) == (ok, once)
  {
    hide Get, Write, HeadOf, RoundedUp, TooSmall, Accepted;
    var h := HeadOf(file);
    var old_, need := Get(file, h.pe + 84, 4), NeededHeaders(h);
    EarlyIs(file);
    EarlyIs(Loaded(file).1) by { if TooSmall(h, old_) { HeadKept(file, h.pe + 84, need, 4); } }
    if Admitted(h) && TooSmall(h, old_) {
      HeadKept(file, h.pe + 84, need, 4);
      WrittenValue(file, h.pe + 84, need, 4);
      WriteTwice(file, h.pe + 84, need, need, 4);
      AlignmentBound(file);
      if need < U32 {
        CoveredIsLargeEnough(h, need);
      } else {
        WrapsSmall(h, need);
      }
    }
  }

  lemma AlignmentBound(file: seq<byte>)
    requires Mapped(file)
    ensures Alignment(HeadOf(file)) < U32
  {
    hide FromLE;
    Powers();
    FromLEBound(file[HeadOf(file).pe + 60..HeadOf(file).pe + 64]);
  }

  /** A size that does not fit its field is stored too small, so it is repaired to the same value again. */
  lemma WrapsSmall(h: Head, need: nat)
    requires need == NeededHeaders(h) && need >= U32 && Alignment(h) < U32
    ensures TooSmall(h, need % U32)
  {
    hide RoundedUp;
    if !TooSmall(h, need % U32) {
      Covers(h, need % U32);
      assert false;
    }
  }

  /** The later steps leave the header fields alone. */
  lemma StepsKeepHead(file: seq<byte>, nx: bool)
    requires Mapped(file) && HeadOf(file).pe >= 64
    ensures
      var pe := HeadOf(file).pe;
      var a := Characterised(file, pe, nx);
      var b := Undated(a, pe);
      var c := Checksummed(b, pe);
      && Mapped(c) && HeadOf(c) == HeadOf(file) && Get(c, pe + 84, 4) == Get(file, pe + 84, 4)
      && Get(c, pe + 94, 2) == Get(a, pe + 94, 2) && Get(c, pe + 8, 4) == 0
  {
    hide Get, Write, HeadOf, Folded, WithNx;
    var pe := HeadOf(file).pe;
    var flags := WithNx(Get(file, pe + 94, 2), nx);
    var a := Characterised(file, pe, nx);
    HeadKept(file, pe + 94, flags, 2);
    FieldKept(file, pe + 94, flags, 2, pe + 84, 4);
    HeadKept(a, pe + 8, 0, 4);
    FieldKept(a, pe + 8, 0, 4, pe + 84, 4);
    FieldKept(a, pe + 8, 0, 4, pe + 94, 2);
    WrittenValue(a, pe + 8, 0, 4);
    ChecksumKeeps(Undated(a, pe), pe);
  }

  lemma ChecksumKeeps(file: seq<byte>, pe: nat)
    requires Mapped(file) && HeadOf(file).pe == pe && pe >= 64
    ensures
      var c := Checksummed(file, pe);
      && Mapped(c) && HeadOf(c) == HeadOf(file)
      && Get(c, pe + 84, 4) == Get(file, pe + 84, 4) && Get(c, pe + 94, 2) == Get(file, pe + 94, 2)
      && Get(c, pe + 8, 4) == Get(file, pe + 8, 4)
  {
    hide Get, Write, HeadOf, Folded;
    var cleared := Write(file, pe + 88, 0, 4);
    var sum := (Folded(cleared, WordsEnd(|file|)) + |file|) % U32;
    HeadKept(file, pe + 88, 0, 4);
    HeadKept(cleared, pe + 88, sum, 4);
    OthersKept(file, pe, 0);
    OthersKept(cleared, pe, sum);
  }

  lemma OthersKept(file: seq<byte>, pe: nat, v: nat)
    requires pe + 176 <= |file|
    ensures
      var c := Write(file, pe + 88, v, 4);
      && Get(c, pe + 84, 4) == Get(file, pe + 84, 4) && Get(c, pe + 94, 2) == Get(file, pe + 94, 2)
      && Get(c, pe + 8, 4) == Get(file, pe + 8, 4)
  {
    hide Get, Write;
    FieldKept(file, pe + 88, v, 4, pe + 84, 4);
    FieldKept(file, pe + 88, v, 4, pe + 94, 2);
    FieldKept(file, pe + 88, v, 4, pe + 8, 4);
  }

  /** A file that has just been given its checksum gets the same one again. */
  lemma ChecksumTwice(file: seq<byte>, pe: nat)
    requires pe + 176 <= |file|
    ensures Checksummed(Checksummed(file, pe), pe) == Checksummed(file, pe)
  {
    hide Write, Folded;
    var cleared := Write(file, pe + 88, 0, 4);
    var sum := (Folded(cleared, WordsEnd(|file|)) + |file|) % U32;
    WriteTwice(cleared, pe + 88, sum, 0, 4);
    WriteTwice(file, pe + 88, 0, 0, 4);
  }

  /** Running the tool again, with the same flag, changes nothing, whether it accepted the file or not. */
  lemma ProcessTwice(file: seq<byte>, nx: bool)
    requires Early(file) || (Mapped(file) && HeadOf(file).pe >= 64)
    ensures
      var (ok, once) := Processed(file, nx);
      (Early(once) || Mapped(once)) && Processed(once, nx) == (ok, once)
  {
    if Early(file) { return; }
    hide Get, Write, HeadOf, TooSmall, Loaded, Checksummed;
    var (ok, loaded) := Loaded(file);
    LoadTwice(file);
    if ok {
      var pe := HeadOf(file).pe;
      StepsKeepHead(loaded, nx);
      var a := Characterised(loaded, pe, nx);
      var b := Undated(a, pe);
      var once := Checksummed(b, pe);
      RepairCovers(file);
      LoadedAgain(loaded, once);
      ChecksumTwice(b, pe);
      StepsIdle(once, loaded, pe, nx);
    }
  }

  lemma LoadedAgain(loaded: seq<byte>, once: seq<byte>)
    requires Mapped(loaded) && Mapped(once) && HeadOf(loaded) == HeadOf(once) && |once| == |loaded|
    requires Get(loaded, HeadOf(loaded).pe + 84, 4) == Get(once, HeadOf(loaded).pe + 84, 4) && Loaded(loaded) == (true, loaded)
    requires TableEnd(HeadOf(loaded)) <= Get(loaded, HeadOf(loaded).pe + 84, 4)
    ensures Loaded(once) == (true, once)
  {
    hide Get, Write, HeadOf, TooSmall;
    EarlyIs(loaded);
    EarlyIs(once);
    CoveredIsLargeEnough(HeadOf(loaded), Get(loaded, HeadOf(loaded).pe + 84, 4));
  }

  /** Flags and time stamp that are already right stay as they are. */
  lemma StepsIdle(once: seq<byte>, loaded: seq<byte>, pe: nat, nx: bool)
    requires pe + 176 <= |once| && pe + 176 <= |loaded|
    requires Get(once, pe + 94, 2) == Get(Characterised(loaded, pe, nx), pe + 94, 2) && Get(once, pe + 8, 4) == 0
    ensures Characterised(once, pe, nx) == once && Undated(once, pe) == once
  {
    hide Get, Write, ToLE;
    var flags := Get(loaded, pe + 94, 2);
    WrittenValue(loaded, pe + 94, WithNx(flags, nx), 2);
    FlagsBound(loaded, pe + 94);
    Rewrite(once, pe + 94, 2);
    Rewrite(once, pe + 8, 4);
  }

  lemma FlagsBound(file: seq<byte>, at: nat)
    requires at + 2 <= |file|
    ensures Get(file, at, 2) < 0x1_0000
    ensures forall nx :: WithNx(Get(file, at, 2), nx) < 0x1_0000
  {
    hide FromLE;
    Powers();
    FromLEBound(file[at..at + 2]);
  }
}
