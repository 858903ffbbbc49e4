/**
 pe.c: generate_hash.  The digest contexts are modelled by the byte string fed to them; both digests
 receive the same bytes.
 */
module PeHash {
  import opened Bytes
  import opened PeHeader
  import Relocate

  // ---------------------------------------------------------------- the sorted section table

  /** Insert behind every section whose raw pointer is not larger. */
  function Insert(s: Section, sorted: seq<Section>): (r: seq<Section>)
    ensures |r| == |sorted| + 1
  {
    if sorted == [] || sorted[|sorted| - 1].rawPointer <= s.rawPointer then sorted + [s]
    else Insert(s, sorted[..|sorted| - 1]) + [sorted[|sorted| - 1]]
  }

  function Sorted(table: seq<Section>): (r: seq<Section>)
    ensures |r| == |table|
  {
    if table == [] then [] else Insert(table[|table| - 1], Sorted(table[..|table| - 1]))
  }

  predicate Ascending(s: seq<Section>) {
    forall i, j :: 0 <= i < j < |s| ==> s[i].rawPointer <= s[j].rawPointer
  }

  /** The sections at one raw pointer, in order. */
  function AtPointer(s: seq<Section>, p: nat): seq<Section> {
    if s == [] then []
    else AtPointer(s[..|s| - 1], p) + if s[|s| - 1].rawPointer == p then [s[|s| - 1]] else []
  }

  lemma {:induction false} InsertPlace(s: Section, sorted: seq<Section>) returns (k: nat)
    ensures k <= |sorted| && Insert(s, sorted) == sorted[..k] + [s] + sorted[k..]
    ensures forall j :: k <= j < |sorted| ==> s.rawPointer < sorted[j].rawPointer
    ensures k > 0 ==> sorted[k - 1].rawPointer <= s.rawPointer
    decreases |sorted|
  {
    k := |sorted|;
    if sorted != [] && s.rawPointer < sorted[|sorted| - 1].rawPointer {
      var init := sorted[..|sorted| - 1];
      k := InsertPlace(s, init);
      assert init[..k] == sorted[..k];
      assert init[k..] + [sorted[|sorted| - 1]] == sorted[k..];
    }
  }

  lemma InsertAscending(s: Section, sorted: seq<Section>)
    requires Ascending(sorted)
    ensures Ascending(Insert(s, sorted))
  {
    hide Insert;
    var k := InsertPlace(s, sorted);
    var r := sorted[..k] + [s] + sorted[k..];
    forall i, j | 0 <= i < j < |r| ensures r[i].rawPointer <= r[j].rawPointer {
      assert r[i] == if i < k then sorted[i] else if i == k then s else sorted[i - 1];
      assert r[j] == if j < k then sorted[j] else if j == k then s else sorted[j - 1];
      if i < k && k > 0 { assert i == k - 1 || sorted[i].rawPointer <= sorted[k - 1].rawPointer; }
    }
  }

  lemma {:induction false} InsertAtPointer(s: Section, sorted: seq<Section>, p: nat)
    ensures AtPointer(Insert(s, sorted), p) == AtPointer(sorted, p) + if s.rawPointer == p then [s] else []
    decreases |sorted|
  {
    var r := Insert(s, sorted);
    if sorted == [] || sorted[|sorted| - 1].rawPointer <= s.rawPointer {
      assert r[..|sorted|] == sorted;
    } else {
      var init, last := sorted[..|sorted| - 1], sorted[|sorted| - 1];
      InsertAtPointer(s, init, p);
      assert r[..|r| - 1] == Insert(s, init);
    }
  }

  /** The working table is sorted and is a stable rearrangement of the file's table. */
  lemma {:induction false} SortIsStable(table: seq<Section>, p: nat)
    ensures Ascending(Sorted(table))
    ensures AtPointer(Sorted(table), p) == AtPointer(table, p)
    decreases |table|
  {
    if table != [] {
      SortIsStable(table[..|table| - 1], p);
      InsertAscending(table[|table| - 1], Sorted(table[..|table| - 1]));
      InsertAtPointer(table[|table| - 1], Sorted(table[..|table| - 1]), p);
    }
  }

  function RawSum(s: seq<Section>): nat {
    if s == [] then 0 else RawSum(s[..|s| - 1]) + s[|s| - 1].rawSize
  }

  lemma {:induction false} InsertRawSum(s: Section, sorted: seq<Section>)
    ensures RawSum(Insert(s, sorted)) == RawSum(sorted) + s.rawSize
    decreases |sorted|
  {
    var r := Insert(s, sorted);
    if sorted == [] || sorted[|sorted| - 1].rawPointer <= s.rawPointer {
      assert r[..|sorted|] == sorted;
    } else {
      InsertRawSum(s, sorted[..|sorted| - 1]);
      assert r[..|r| - 1] == Insert(s, sorted[..|sorted| - 1]);
    }
  }

  lemma {:induction false} SortRawSum(table: seq<Section>)
    ensures RawSum(Sorted(table)) == RawSum(table)
    decreases |table|
  {
    if table != [] {
      SortRawSum(table[..|table| - 1]);
      InsertRawSum(table[|table| - 1], Sorted(table[..|table| - 1]));
    }
  }

  // ---------------------------------------------------------------- what is accepted and hashed

  /** The checks of the sorting loop on sections i, i + 1, ...: the first error, if any. */
  function ScanError(table: seq<Section>, c: Context, len: nat, i: nat): Option<Error>
    decreases |table| - i
  {
    if i >= |table| then None
    else if !SectionOk(table[i], c) then Some(Unsupported)
    else if c.sizeOfHeaders + RawSum(table[..i + 1]) > len then Some(InvalidParameter)
    else ScanError(table, c, len, i + 1)
  }

  predicate RawInFile(s: Section, len: nat) { s.rawSize == 0 || s.rawPointer + s.rawSize <= len }

  predicate AllRawInFile(s: seq<Section>, len: nat) {
    forall k :: 0 <= k < |s| ==> RawInFile(s[k], len)
  }

  function SectionBytes(file: seq<byte>, s: seq<Section>): seq<byte>
    requires AllRawInFile(s, |file|)
  {
    if s == [] then []
    else
      var last := s[|s| - 1];
      SectionBytes(file, s[..|s| - 1]) + if last.rawSize == 0 then [] else file[last.rawPointer..last.rawPointer + last.rawSize]
  }

  function CertSize(file: seq<byte>, c: Context): nat
    requires Consistent(file, c)
  {
    Get(file, c.secDir + 4, 4)
  }

  function CertStart(file: seq<byte>, c: Context): nat
    requires Consistent(file, c)
  {
    Get(file, c.secDir, 4)
  }

  function HeaderBytes(file: seq<byte>, c: Context): seq<byte>
    requires Consistent(file, c) && c.secDir + 8 <= c.sizeOfHeaders <= |file|
  {
    file[..c.CheckSum()] + file[c.CheckSum() + 4..c.secDir] + file[c.secDir + 8..c.sizeOfHeaders]
  }

  /** The bytes generate_hash digests, or the status it refuses the file with. */
  function HashInput(file: seq<byte>, c: Context): (r: Result<seq<byte>>)
    requires Consistent(file, c)
  {
    if |file| <= DOS_HEADER || !IsMz(file) then Err(InvalidParameter)
    else if !(c.secDir + 8 <= c.sizeOfHeaders <= |file|) then Err(InvalidParameter)
    else if c.numberOfSections == 0 && c.firstSection >= |file| then Err(InvalidParameter)
    else
      var table := SectionTable(file, c);
      match ScanError(table, c, |file|, 0)
      case Some(e) => Err(e)
      case None =>
        var sorted := Sorted(table);
        var sum := c.sizeOfHeaders + RawSum(sorted);
        if !AllRawInFile(sorted, |file|) then Err(InvalidParameter)
        else if |file| <= sum || CertSize(file, c) == 0 then Ok(HeaderBytes(file, c) + SectionBytes(file, sorted))
        else if |file| - sum < CertSize(file, c) || |file| - CertSize(file, c) != CertStart(file, c) then Err(InvalidParameter)
        else Ok(HeaderBytes(file, c) + SectionBytes(file, sorted) + file[sum..|file| - CertSize(file, c)])
  }

  lemma {:induction false} ScanPasses(table: seq<Section>, c: Context, len: nat, i: nat)
    requires i <= |table| && ScanError(table, c, len, i).None?
    requires c.sizeOfHeaders + RawSum(table[..i]) <= len
    ensures forall k :: i <= k < |table| ==> SectionOk(table[k], c)
    ensures c.sizeOfHeaders + RawSum(table) <= len
    decreases |table| - i
  {
    if i < |table| {
      ScanPasses(table, c, len, i + 1);
    } else {
      assert table[..i] == table;
    }
  }

  // ---------------------------------------------------------------- the code

  lemma InsertStep(s: Section, sorted: seq<Section>)
    ensures Insert(s, sorted) ==
      if sorted == [] || sorted[|sorted| - 1].rawPointer <= s.rawPointer then sorted + [s]
      else Insert(s, sorted[..|sorted| - 1]) + [sorted[|sorted| - 1]]
  {
  }

  /** Copy one section header into its place in the working table. */
  method InsertSection(work: array<Section>, index: nat, s: Section)
    requires index < work.Length
    modifies work
    ensures work[..index + 1] == Insert(s, old(work[..index]))
    ensures work[index + 1..] == old(work[index + 1..])
  {
    hide Insert, Shifted;
    var pos: nat := index;
    ghost var before := work[..];
    assert before[..index] == work[..index];
    assert before[index..index] == [];
    ShiftStarts(before, index);
    while pos > 0 && s.rawPointer < work[pos - 1].rawPointer
      invariant pos <= index && Shifted(before, work[..], pos, index)
      invariant Insert(s, before[..index]) == Insert(s, before[..pos]) + before[pos..index]
    {
      ghost var now := work[..];
      ShiftStep(before, now, pos, index);
      InsertMoves(s, before, pos, index);
      work[pos] := work[pos - 1];
      assert work[..] == now[pos := now[pos - 1]];
      pos := pos - 1;
    }
    ghost var now := work[..];
    ShiftStep(before, now, pos, index);
    ShiftDone(before, now, pos, index, s);
    work[pos] := s;
    assert work[..] == now[pos := s];
    InsertStep(s, before[..pos]);
  }

  /** The sections from pos on have moved one place up; the others are where they were. */
  predicate Shifted(before: seq<Section>, now: seq<Section>, pos: nat, index: nat) {
    && |now| == |before| && pos <= index < |before|
    && (forall k :: 0 <= k < |now| && (k < pos || k > index) ==> now[k] == before[k])
    && forall k :: pos < k <= index ==> now[k] == before[k - 1]
  }

  lemma ShiftStarts(before: seq<Section>, index: nat)
    requires index < |before|
    ensures Shifted(before, before, index, index)
  {
  }

  lemma ShiftStep(before: seq<Section>, now: seq<Section>, pos: nat, index: nat)
    requires Shifted(before, now, pos, index)
    ensures |now| == |before| && pos <= index < |before|
    ensures pos > 0 ==> now[pos - 1] == before[pos - 1] && Shifted(before, now[pos := now[pos - 1]], pos - 1, index)
  {
  }

  lemma ShiftDone(before: seq<Section>, now: seq<Section>, pos: nat, index: nat, s: Section)
    requires Shifted(before, now, pos, index)
    ensures |now| == |before| && pos <= index < |before|
    ensures now[pos := s][..index + 1] == (before[..pos] + [s]) + before[pos..index]
    ensures now[pos := s][index + 1..] == before[index + 1..]
  {
  }

  /** One more section is moved behind the new one. */
  lemma InsertMoves(s: Section, before: seq<Section>, pos: nat, index: nat)
    requires 0 < pos <= index <= |before| && s.rawPointer < before[pos - 1].rawPointer
    ensures Insert(s, before[..pos]) + before[pos..index] == Insert(s, before[..pos - 1]) + before[pos - 1..index]
  {
    InsertStep(s, before[..pos]);
    assert before[..pos][..pos - 1] == before[..pos - 1];
    assert before[pos - 1..index] == [before[pos - 1]] + before[pos..index];
  }

  /** The sorting loop: validates every section while building the sorted working table. */
  method SortSections(file: seq<byte>, c: Context, work: array<Section>) returns (error: Option<Error>)
    requires Consistent(file, c) && IsMz(file) && c.sizeOfHeaders <= |file|
    requires work.Length == c.numberOfSections
    modifies work
    ensures error == ScanError(SectionTable(file, c), c, |file|, 0)
    ensures error.None? ==> work[..] == Sorted(SectionTable(file, c))
  {
    var table := SectionTable(file, c);
    hide Consistent, SectionOk, SectionAt, SectionTable;
    var sumOfSections: nat := 0;
    for index := 0 to c.numberOfSections
      invariant work[..index] == Sorted(table[..index])
      invariant sumOfSections == RawSum(table[..index]) && c.sizeOfHeaders + sumOfSections <= |file|
      invariant ScanError(table, c, |file|, 0) == ScanError(table, c, |file|, index)
    {
      var s := table[index];
      assert table[..index + 1][..index] == table[..index];
      if !SectionOk(s, c) { return Some(Unsupported); }
      var room: nat := |file| - c.sizeOfHeaders - sumOfSections;
      if s.rawSize > room { return Some(InvalidParameter); }
      sumOfSections := sumOfSections + s.rawSize;
      InsertSection(work, index, s);
    }
    assert table[..c.numberOfSections] == table;
    assert work[..] == work[..c.numberOfSections];
    return None;
  }

  /** The hashing loop over the sorted table. */
  method HashSections(file: seq<byte>, work: array<Section>) returns (ok: bool, bytes: seq<byte>, sum: nat)
    ensures ok == AllRawInFile(work[..], |file|)
    ensures ok ==> bytes == SectionBytes(file, work[..]) && sum == RawSum(work[..])
  {
    bytes, sum := [], 0;
    var index := 0;
    while index < work.Length
      invariant index <= work.Length
      invariant AllRawInFile(work[..index], |file|)
      invariant bytes == SectionBytes(file, work[..index]) && sum == RawSum(work[..index])
    {
      var s := work[index];
      assert work[..index + 1][..index] == work[..index];
      if s.rawSize != 0 {
        var base := Relocate.ImageAddress(|file|, s.rawPointer);
        if base.None? || s.rawSize > |file| - s.rawPointer {
          assert !RawInFile(work[..][index], |file|);
          return false, bytes, sum;
        }
        bytes := bytes + file[base.value..base.value + s.rawSize];
        sum := sum + s.rawSize;
      }
      index := index + 1;
    }
    assert work[..work.Length] == work[..];
    return true, bytes, sum;
  }

  /** 32-bit unsigned subtraction. */
  function Sub32(a: int, b: int): nat { (a - b) % Relocate.U32 }

  /** A range [base, base + size) checked against the file. */
  predicate SizeOk(len: nat, base: nat, size: nat) { base <= len && base + size <= len }

  method GenerateHash(file: seq<byte>, c: Context) returns (r: Result<seq<byte>>)
    requires Consistent(file, c) && |file| < Relocate.U32 && c.sizeOfHeaders < Relocate.U32
    requires CertSize(file, c) < Relocate.U32 && CertStart(file, c) < Relocate.U32
    ensures r == HashInput(file, c)
  {
    hide ScanError, SectionTable, IsMz, Get, Sorted, RawSum, SectionBytes, AllRawInFile;
    hide HeaderBytes, Consistent;
    var len := |file|;
    if len <= DOS_HEADER || !IsMz(file) { return Err(InvalidParameter); }
    TableInFile(file, c);
    var headers := HashHeaders(file, c);
    if headers.None? { return Err(InvalidParameter); }
    var stream := headers.value;
    if c.numberOfSections == 0 {
      var section0 := Relocate.ImageAddress(len, c.firstSection);
      if section0.None? { return Err(InvalidParameter); }
    }
    var work := new Section[c.numberOfSections](_ => Section([], 0, 0, 0, 0, 0));
    var error := SortSections(file, c, work);
    if error.Some? { return Err(error.value); }
    ghost var table := SectionTable(file, c);
    ScanStart(table, c, len);
    SortRawSum(table);
    var ok, bytes, rawSum := HashSections(file, work);
    if !ok { return Err(InvalidParameter); }
    stream := stream + bytes;
    var sum := c.sizeOfHeaders + rawSum;
    if len > sum && CertSize(file, c) != 0 {
      var tail := Sub32(len - CertSize(file, c), sum);
      if len - sum < CertSize(file, c) || (sum + tail) % Relocate.U32 != CertStart(file, c) {
        return Err(InvalidParameter);
      }
      stream := stream + file[sum..sum + tail];
    }
    return Ok(stream);
  }

  lemma TableInFile(file: seq<byte>, c: Context)
    requires Consistent(file, c) && IsMz(file)
    ensures c.firstSection + c.numberOfSections * SECTION_HEADER <= |file|
  {
    hide IsMz;
  }

  /** The header ranges around CheckSum and the security directory entry. */
  method HashHeaders(file: seq<byte>, c: Context) returns (stream: Option<seq<byte>>)
    requires Consistent(file, c) && |file| < Relocate.U32 && c.sizeOfHeaders < Relocate.U32
    ensures stream.Some? <==> c.secDir + 8 <= c.sizeOfHeaders <= |file|
    ensures stream.Some? ==> stream.value == HeaderBytes(file, c)
  {
    hide IsMz;
    var bytes := file[..c.CheckSum()];
    bytes := bytes + file[c.CheckSum() + 4..c.secDir];
    var base := c.secDir + 8;
    var size := Sub32(c.sizeOfHeaders, base);
    if size > |file| || !SizeOk(|file|, base, size) { return None; }
    return Some(bytes + file[base..base + size]);
  }

  lemma ScanStart(table: seq<Section>, c: Context, len: nat)
    requires c.sizeOfHeaders <= len && ScanError(table, c, len, 0).None?
    ensures c.sizeOfHeaders + RawSum(table) <= len
    ensures forall k :: 0 <= k < |table| ==> SectionOk(table[k], c)
  {
    ScanPasses(table, c, len, 0);
  }
}
