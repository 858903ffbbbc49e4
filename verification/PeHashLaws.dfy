/** What generate_hash digests, against the Authenticode rule stated byte by byte. */
module PeHashLaws {
  import opened Bytes
  import opened PeHeader
  import opened PeHash

  /** Authenticode leaves out the CheckSum field, the security directory entry and the certificate table. */
  predicate Excluded(file: seq<byte>, c: Context, tail: nat, p: nat) {
    || c.CheckSum() <= p < c.CheckSum() + 4
    || c.secDir <= p < c.secDir + 8
    || p + tail >= |file|
  }

  /** The bytes of the file from position p on that Authenticode keeps. */
  function Kept(file: seq<byte>, c: Context, tail: nat, p: nat): seq<byte>
    decreases |file| - p
  {
    if p >= |file| then []
    else (if Excluded(file, c, tail, p) then [] else [file[p]]) + Kept(file, c, tail, p + 1)
  }

  lemma {:induction false} KeptRun(file: seq<byte>, c: Context, tail: nat, a: nat, b: nat)
    requires a <= b <= |file| && forall p :: a <= p < b ==> !Excluded(file, c, tail, p)
    ensures Kept(file, c, tail, a) == file[a..b] + Kept(file, c, tail, b)
    decreases b - a
  {
    if a < b {
      KeptRun(file, c, tail, a + 1, b);
      assert file[a..b] == [file[a]] + file[a + 1..b];
    }
  }

  lemma {:induction false} SkippedRun(file: seq<byte>, c: Context, tail: nat, a: nat, b: nat)
    requires a <= b <= |file| && forall p :: a <= p < b ==> Excluded(file, c, tail, p)
    ensures Kept(file, c, tail, a) == Kept(file, c, tail, b)
    decreases b - a
  {
    if a < b { SkippedRun(file, c, tail, a + 1, b); }
  }

  /** Cutting a nonempty tail behind the two holes makes the kept bytes fewer. */
  lemma {:induction false} TailShortens(file: seq<byte>, c: Context, tail: nat, p: nat)
    requires p < |file| && tail > 0 && c.CheckSum() + 4 <= c.secDir && c.secDir + 8 < |file|
    ensures |Kept(file, c, tail, p)| < |Kept(file, c, 0, p)|
    decreases |file| - p
  {
    if p + 1 < |file| {
      TailShortens(file, c, tail, p + 1);
    } else {
      assert Kept(file, c, tail, p + 1) == [] == Kept(file, c, 0, p + 1);
    }
  }

  /** The whole file but its two holes and its last `tail` bytes. */
  lemma KeptWhole(file: seq<byte>, c: Context, tail: nat)
    requires Consistent(file, c) && c.secDir + 8 <= |file| - tail
    ensures Kept(file, c, tail, 0) ==
      file[..c.CheckSum()] + file[c.CheckSum() + 4..c.secDir] + file[c.secDir + 8..|file| - tail]
  {
    hide Kept;
    var end := |file| - tail;
    KeptRun(file, c, tail, 0, c.CheckSum());
    SkippedRun(file, c, tail, c.CheckSum(), c.CheckSum() + 4);
    KeptRun(file, c, tail, c.CheckSum() + 4, c.secDir);
    SkippedRun(file, c, tail, c.secDir, c.secDir + 8);
    KeptRun(file, c, tail, c.secDir + 8, end);
    SkippedRun(file, c, tail, end, |file|);
    KeptNothing(file, c, tail);
  }

  lemma KeptNothing(file: seq<byte>, c: Context, tail: nat)
    ensures Kept(file, c, tail, |file|) == []
  {
  }

  /** The nonempty sections lie back to back from `start` on. */
  predicate Tiles(s: seq<Section>, start: nat) {
    s == [] ||
    (&& Tiles(s[..|s| - 1], start)
     && (s[|s| - 1].rawSize == 0 || s[|s| - 1].rawPointer == start + RawSum(s[..|s| - 1])))
  }

  lemma {:induction false} TiledBytes(file: seq<byte>, s: seq<Section>, start: nat)
    requires Tiles(s, start) && start + RawSum(s) <= |file|
    ensures AllRawInFile(s, |file|) && SectionBytes(file, s) == file[start..start + RawSum(s)]
    decreases |s|
  {
    if s != [] {
      var init, last := s[..|s| - 1], s[|s| - 1];
      TiledBytes(file, init, start);
      assert forall k :: 0 <= k < |init| ==> s[k] == init[k];
      assert RawInFile(last, |file|);
      assert file[start..start + RawSum(init)] + file[start + RawSum(init)..start + RawSum(s)] == file[start..start + RawSum(s)];
    }
  }

  /** The sum of header and raw sizes of an accepted file never exceeds the file. */
  lemma AcceptedSum(file: seq<byte>, c: Context)
    requires Consistent(file, c) && HashInput(file, c).Ok?
    ensures IsMz(file) && c.sizeOfHeaders + RawSum(SectionTable(file, c)) <= |file|
    ensures forall k :: 0 <= k < c.numberOfSections ==> SectionOk(SectionTable(file, c)[k], c)
    ensures AllRawInFile(SectionTable(file, c), |file|)
  {
    hide SectionOk, SectionAt;
    var table := SectionTable(file, c);
    ScanStart(table, c, |file|);
    forall k | 0 <= k < |table| ensures RawInFile(table[k], |file|) { SortedHas(table, k, |file|); }
  }

  lemma SortedLast(table: seq<Section>)
    requires table != []
    ensures Sorted(table) == Insert(table[|table| - 1], Sorted(table[..|table| - 1]))
  {
  }

  lemma {:induction false} SortedHas(table: seq<Section>, k: nat, len: nat)
    requires k < |table| && AllRawInFile(Sorted(table), len)
    ensures RawInFile(table[k], len)
    decreases |table|
  {
    hide RawInFile, Insert, Sorted;
    var init, last := table[..|table| - 1], table[|table| - 1];
    SortedLast(table);
    var at := InsertPlace(last, Sorted(init));
    var r := Sorted(table);
    assert r == Sorted(init)[..at] + [last] + Sorted(init)[at..];
    if k == |table| - 1 {
      assert r[at] == last;
    } else {
      forall j | 0 <= j < |init| ensures RawInFile(Sorted(init)[j], len) {
        assert Sorted(init)[j] == if j < at then r[j] else r[j + 1];
      }
      SortedHas(init, k, len);
    }
  }

  /**
   When the sorted sections tile the file behind the headers, the digest input is the Authenticode
   byte string in exactly two cases: the file is signed and has bytes behind its last section, or it
   is unsigned and ends with its last section.
   */
  lemma HashIsAuthenticode(file: seq<byte>, c: Context)
    requires Consistent(file, c) && HashInput(file, c).Ok?
    requires IsMz(file) && RawSum(SectionTable(file, c)) > 0 && Tiles(Sorted(SectionTable(file, c)), c.sizeOfHeaders)
    ensures
      var sum := c.sizeOfHeaders + RawSum(SectionTable(file, c));
      HashInput(file, c).value == Kept(file, c, CertSize(file, c), 0) <==>
        if CertSize(file, c) == 0 then |file| == sum else |file| > sum
    ensures
      var sum := c.sizeOfHeaders + RawSum(SectionTable(file, c));
      CertSize(file, c) > 0 && |file| > sum ==> CertStart(file, c) + CertSize(file, c) == |file|
  {
    hide Kept, Tiles, SectionTable, Sorted, SectionOk, ScanError, SectionBytes, RawSum, IsMz, Get, AllRawInFile;
    AcceptedSum(file, c);
    var table := SectionTable(file, c);
    var sorted, cert := Sorted(table), CertSize(file, c);
    SortRawSum(table);
    var sum := c.sizeOfHeaders + RawSum(table);
    TiledBytes(file, sorted, c.sizeOfHeaders);
    HashedPrefix(file, c, sum);
    var prefix := HeaderBytes(file, c) + SectionBytes(file, sorted);
    if cert == 0 {
      KeptWhole(file, c, 0);
      assert |file| == sum ==> file[c.secDir + 8..|file|] == file[c.secDir + 8..sum];
    } else if |file| > sum {
      KeptWhole(file, c, cert);
      assert prefix + file[sum..|file| - cert] ==
        file[..c.CheckSum()] + file[c.CheckSum() + 4..c.secDir] + (file[c.secDir + 8..sum] + file[sum..|file| - cert]);
      assert file[c.secDir + 8..sum] + file[sum..|file| - cert] == file[c.secDir + 8..|file| - cert];
    } else {
      KeptWhole(file, c, 0);
      TailShortens(file, c, cert, 0);
    }
  }

  lemma HashedPrefix(file: seq<byte>, c: Context, sum: nat)
    requires Consistent(file, c) && c.secDir + 8 <= c.sizeOfHeaders <= sum <= |file|
    ensures HeaderBytes(file, c) + file[c.sizeOfHeaders..sum] ==
      file[..c.CheckSum()] + file[c.CheckSum() + 4..c.secDir] + file[c.secDir + 8..sum]
  {
    assert file[c.secDir + 8..c.sizeOfHeaders] + file[c.sizeOfHeaders..sum] == file[c.secDir + 8..sum];
  }

  // ---------------------------------------------------------------- what is accepted, in the header's numbers

  /** A section lies in the image and behind the headers; a discardable one may lie outside the image altogether. */
  predicate SectionSound(s: Section, c: Context) {
    var discardable, uninitialized := (s.flags / 0x0200_0000) % 2 == 1, (s.flags / 0x80) % 2 == 1;
    && ((s.virtualSize > 0 && s.virtualAddress + s.virtualSize <= c.imageSize) || (discardable && s.virtualAddress >= c.imageSize))
    && (!uninitialized ==> s.virtualAddress >= c.sizeOfHeaders && s.rawPointer >= c.sizeOfHeaders)
  }

  lemma SectionOkIff(s: Section, c: Context)
    requires Fits32(s) && c.imageSize < 0x1_0000_0000
    ensures SectionOk(s, c) <==> SectionSound(s, c)
  {
    EndIs(s, c);
  }

  /** The 32-bit end address, case by case. */
  lemma EndIs(s: Section, c: Context)
    requires Fits32(s) && c.imageSize < 0x1_0000_0000
    ensures
      var sum := s.virtualAddress + s.virtualSize - 1;
      End(s, c.imageSize) ==
        if sum < 0 || (sum < 0x1_0000_0000 && sum >= c.imageSize) || (sum >= 0x1_0000_0000 && sum - 0x1_0000_0000 >= c.imageSize) then None
        else if sum < 0x1_0000_0000 then Some(sum) else Some(sum - 0x1_0000_0000)
  {
    var sum := s.virtualAddress + s.virtualSize - 1;
    assert sum % 0x1_0000_0000 == if sum >= 0x1_0000_0000 then sum - 0x1_0000_0000 else if sum < 0 then 0xffff_ffff else sum;
  }

  lemma {:induction false} InsertInFile(s: Section, sorted: seq<Section>, len: nat)
    ensures AllRawInFile(Insert(s, sorted), len) <==> RawInFile(s, len) && AllRawInFile(sorted, len)
    decreases |sorted|
  {
    hide RawInFile;
    var r := Insert(s, sorted);
    if sorted == [] || sorted[|sorted| - 1].rawPointer <= s.rawPointer {
      SnocInFile(sorted, s, len);
    } else {
      var front, last := sorted[..|sorted| - 1], sorted[|sorted| - 1];
      InsertInFile(s, front, len);
      SnocInFile(Insert(s, front), last, len);
      SnocInFile(front, last, len);
      assert sorted == front + [last];
    }
  }

  lemma SnocInFile(front: seq<Section>, last: Section, len: nat)
    ensures AllRawInFile(front + [last], len) <==> AllRawInFile(front, len) && RawInFile(last, len)
  {
    hide RawInFile;
    var all := front + [last];
    assert all[|front|] == last && forall k :: 0 <= k < |front| ==> all[k] == front[k];
  }

  lemma {:induction false} SortedInFile(table: seq<Section>, len: nat)
    ensures AllRawInFile(Sorted(table), len) <==> AllRawInFile(table, len)
    decreases |table|
  {
    hide RawInFile, Insert;
    if table != [] {
      var front, last := table[..|table| - 1], table[|table| - 1];
      SortedInFile(front, len);
      InsertInFile(last, Sorted(front), len);
      SnocInFile(front, last, len);
      assert table == front + [last];
    }
  }

  lemma {:induction false} RawSumPrefix(s: seq<Section>, k: nat)
    requires k <= |s|
    ensures RawSum(s[..k]) <= RawSum(s)
    decreases |s|
  {
    if k < |s| {
      RawSumPrefix(s[..|s| - 1], k);
      assert s[..|s| - 1][..k] == s[..k];
    } else {
      assert s[..k] == s;
    }
  }

  /** The sorting loop finds no error exactly when every section passes and headers and raw sizes fit the file. */
  lemma {:induction false} ScanIff(table: seq<Section>, c: Context, len: nat, i: nat)
    requires i <= |table| && c.sizeOfHeaders + RawSum(table[..i]) <= len
    ensures ScanError(table, c, len, i).None? <==>
      (forall k :: i <= k < |table| ==> SectionOk(table[k], c)) && c.sizeOfHeaders + RawSum(table) <= len
    decreases |table| - i
  {
    hide SectionOk, RawSum;
    if i == |table| {
      assert table[..i] == table;
    } else {
      RawSumPrefix(table, i + 1);
      if SectionOk(table[i], c) && c.sizeOfHeaders + RawSum(table[..i + 1]) <= len {
        ScanIff(table, c, len, i + 1);
      }
    }
  }

  /**
   Acceptance in numbers, for an MZ image: the headers hold the security entry and fit the file, every
   section is sound and in the file, headers and raw sizes together do not exceed it, and the image is
   unsigned, or nothing lies behind the sections, or the certificate table is a suffix that begins no
   earlier than their sizes end.
   */
  lemma AcceptedIff(file: seq<byte>, c: Context)
    requires Consistent(file, c) && IsMz(file) && c.imageSize < 0x1_0000_0000
    ensures c.firstSection + c.numberOfSections * SECTION_HEADER <= |file|
    ensures
      var table := SectionTable(file, c);
      var total := c.sizeOfHeaders + RawSum(table);
      var certStart, certSize := Get(file, c.secDir, 4), Get(file, c.secDir + 4, 4);
      HashInput(file, c).Ok? <==>
        && 64 < |file| && c.secDir + 8 <= c.sizeOfHeaders && total <= |file|
        && (c.numberOfSections == 0 ==> c.firstSection < |file|)
        && (forall k :: 0 <= k < |table| ==> SectionSound(table[k], c))
        && (forall k :: 0 <= k < |table| ==> table[k].rawSize == 0 || table[k].rawPointer + table[k].rawSize <= |file|)
        && (certSize == 0 || |file| == total || (certStart + certSize == |file| && certStart >= total))
  {
    hide Get, IsMz, SectionAt, SectionOk, SectionSound, Sorted, RawSum, ScanError, SectionBytes, Consistent, Fits32;
    TableInFile(file, c);
    var table := SectionTable(file, c);
    forall k | 0 <= k < |table| ensures SectionOk(table[k], c) <==> SectionSound(table[k], c) {
      EntryInFile(c, k, |file|);
      SectionAtFits32(file, c.firstSection + k * SECTION_HEADER);
      SectionOkIff(table[k], c);
    }
    NoRaw(table);
    if c.sizeOfHeaders <= |file| { ScanIff(table, c, |file|, 0); }
    SortRawSum(table);
    SortedInFile(table, |file|);
    SecDirInFile(file, c);
  }

  lemma NoRaw(table: seq<Section>)
    ensures RawSum(table[..0]) == 0 && RawSum(table) >= 0
  {
  }

  lemma SecDirInFile(file: seq<byte>, c: Context)
    requires Consistent(file, c)
    ensures c.secDir + 8 <= |file| && CertSize(file, c) == Get(file, c.secDir + 4, 4) && CertStart(file, c) == Get(file, c.secDir, 4)
  {
  }

  /**
   What an accepted image with tiled sections digests: everything up to the certificate table of a signed
   image that has bytes behind its sections, otherwise up to their end, but for the two holes.
   */
  lemma DigestInNumbers(file: seq<byte>, c: Context)
    requires Consistent(file, c) && HashInput(file, c).Ok? && IsMz(file)
    requires RawSum(SectionTable(file, c)) > 0 && Tiles(Sorted(SectionTable(file, c)), c.sizeOfHeaders)
    ensures
      var total := c.sizeOfHeaders + RawSum(SectionTable(file, c));
      var certStart, certSize := Get(file, c.secDir, 4), Get(file, c.secDir + 4, 4);
      var upto := if certSize != 0 && |file| > total then certStart else total;
      && c.pe + 92 <= c.secDir && c.secDir + 8 <= upto <= |file|
      && HashInput(file, c).value == file[..c.pe + 88] + file[c.pe + 92..c.secDir] + file[c.secDir + 8..upto]
  {
    hide Tiles, SectionTable, Sorted, SectionOk, ScanError, SectionBytes, RawSum, IsMz, Get, AllRawInFile;
    AcceptedSum(file, c);
    var sorted := Sorted(SectionTable(file, c));
    SortRawSum(SectionTable(file, c));
    var sum := c.sizeOfHeaders + RawSum(SectionTable(file, c));
    TiledBytes(file, sorted, c.sizeOfHeaders);
    HashedPrefix(file, c, sum);
    if CertSize(file, c) != 0 && |file| > sum {
      var upto := CertStart(file, c);
      assert file[c.secDir + 8..sum] + file[sum..upto] == file[c.secDir + 8..upto];
      assert (HeaderBytes(file, c) + SectionBytes(file, sorted)) + file[sum..upto] ==
        file[..c.CheckSum()] + file[c.CheckSum() + 4..c.secDir] + (file[c.secDir + 8..sum] + file[sum..upto]);
    }
  }

  // ---------------------------------------------------------------- bytes behind an unsigned image

  lemma GetLonger(file: seq<byte>, more: seq<byte>, at: nat, w: nat)
    requires at + w <= |file|
    ensures Get(file + more, at, w) == Get(file, at, w)
  {
    hide FromLE;
    assert (file + more)[at..at + w] == file[at..at + w];
  }

  lemma SectionLonger(file: seq<byte>, more: seq<byte>, at: nat)
    requires at + SECTION_HEADER <= |file|
    ensures SectionAt(file + more, at) == SectionAt(file, at)
  {
    hide Get;
    GetLonger(file, more, at + 8, 4);
    GetLonger(file, more, at + 12, 4);
    GetLonger(file, more, at + 16, 4);
    GetLonger(file, more, at + 20, 4);
    GetLonger(file, more, at + 36, 4);
    assert (file + more)[at..at + 8] == file[at..at + 8];
  }

  /** Nothing the header says moves when bytes are appended. */
  lemma HeaderLonger(file: seq<byte>, c: Context, more: seq<byte>)
    requires Consistent(file, c) && IsMz(file)
    ensures Consistent(file + more, c) && IsMz(file + more) && CertSize(file + more, c) == CertSize(file, c)
    ensures c.firstSection + c.numberOfSections * SECTION_HEADER <= |file|
    ensures SectionTable(file + more, c) == SectionTable(file, c)
  {
    hide Get, SectionAt;
    GetLonger(file, more, 0, 2);
    GetLonger(file, more, c.secDir + 4, 4);
    TableInFile(file, c);
    var long := file + more;
    var a, b := SectionTable(long, c), SectionTable(file, c);
    forall i | 0 <= i < c.numberOfSections ensures a[i] == b[i] {
      EntryInFile(c, i, |file|);
      SectionLonger(file, more, c.firstSection + i * SECTION_HEADER);
    }
    assert a == b;
  }

  lemma EntryInFile(c: Context, i: nat, len: nat)
    requires c.firstSection + c.numberOfSections * SECTION_HEADER <= len && i < c.numberOfSections
    ensures c.firstSection + i * SECTION_HEADER + SECTION_HEADER <= len
  {
  }

  lemma {:induction false} ScanLonger(table: seq<Section>, c: Context, len: nat, len': nat, i: nat)
    requires len <= len' && ScanError(table, c, len, i).None?
    ensures ScanError(table, c, len', i).None?
    decreases |table| - i
  {
    hide SectionOk, RawSum;
    if i < |table| { ScanLonger(table, c, len, len', i + 1); }
  }

  lemma {:induction false} BytesLonger(file: seq<byte>, more: seq<byte>, s: seq<Section>)
    requires AllRawInFile(s, |file|)
    ensures AllRawInFile(s, |file + more|) && SectionBytes(file + more, s) == SectionBytes(file, s)
    decreases |s|
  {
    if s != [] {
      var front, last := s[..|s| - 1], s[|s| - 1];
      assert forall k :: 0 <= k < |front| ==> front[k] == s[k];
      BytesLonger(file, more, front);
      assert RawInFile(last, |file|);
      if last.rawSize != 0 {
        assert (file + more)[last.rawPointer..last.rawPointer + last.rawSize] == file[last.rawPointer..last.rawPointer + last.rawSize];
      }
    }
  }

  /** Bytes appended to an unsigned image do not reach the digest. */
  lemma AppendedNotHashed(file: seq<byte>, c: Context, more: seq<byte>)
    requires Consistent(file, c) && HashInput(file, c).Ok? && IsMz(file) && CertSize(file, c) == 0
    ensures Consistent(file + more, c) && HashInput(file + more, c) == HashInput(file, c)
  {
    hide SectionTable, Sorted, SectionOk, ScanError, SectionBytes, RawSum, IsMz, Get, AllRawInFile, Consistent;
    HeaderLonger(file, c, more);
    var table := SectionTable(file, c);
    ScanLonger(table, c, |file|, |file + more|, 0);
    BytesLonger(file, more, Sorted(table));
    HeaderBytesLonger(file, c, more);
  }

  lemma HeaderBytesLonger(file: seq<byte>, c: Context, more: seq<byte>)
    requires Consistent(file, c) && Consistent(file + more, c) && c.secDir + 8 <= c.sizeOfHeaders <= |file|
    ensures HeaderBytes(file + more, c) == HeaderBytes(file, c)
  {
    hide IsMz;
    var long := file + more;
    assert long[..c.CheckSum()] == file[..c.CheckSum()];
    assert long[c.CheckSum() + 4..c.secDir] == file[c.CheckSum() + 4..c.secDir];
    assert long[c.secDir + 8..c.sizeOfHeaders] == file[c.secDir + 8..c.sizeOfHeaders];
  }

  /**
   A digest that is not the Authenticode one: behind an accepted, unsigned image that ends with its tiled
   sections, any appended bytes are accepted, left out of the digest, and kept by Authenticode.
   */
  lemma AppendedEscapes(file: seq<byte>, c: Context, more: seq<byte>)
    requires Consistent(file, c) && HashInput(file, c).Ok? && IsMz(file) && CertSize(file, c) == 0 && more != []
    requires RawSum(SectionTable(file, c)) > 0 && Tiles(Sorted(SectionTable(file, c)), c.sizeOfHeaders)
    requires |file| == c.sizeOfHeaders + RawSum(SectionTable(file, c))
    ensures Consistent(file + more, c) && HashInput(file + more, c) == HashInput(file, c)
    ensures HashInput(file, c).value == Kept(file, c, 0, 0)
    ensures HashInput(file + more, c).value != Kept(file + more, c, 0, 0)
  {
    hide Kept, Tiles, SectionTable, Sorted, RawSum, HashInput, IsMz, Get, Consistent;
    AppendedNotHashed(file, c, more);
    HeaderLonger(file, c, more);
    HashIsAuthenticode(file, c);
    HashIsAuthenticode(file + more, c);
  }
}
