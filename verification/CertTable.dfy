/**
 Walking an image's attribute certificate table (section 5.7 of the PE/COFF specification): the loop of
 verify_buffer_authenticode in shim.c, and the search for the last PKCS#7 record in keyless-sign.c.
 */
module CertTable {
  import opened Bytes

  const RECORD_HEADER := 8
  const RECORD_STRUCT := 12
  const PKCS_SIGNED_DATA := 2

  datatype Status = Success | NotFound | SecurityViolation | InvalidParameter | OtherError(code: nat)

  /** One certificate record; its offset counts from the start of the table. */
  datatype Record = Record(offset: nat, size: nat, pkcs: bool)

  function RecordAt(file: seq<byte>, start: nat, offset: nat): Record
    requires start + offset + RECORD_STRUCT <= |file|
  {
    Record(offset, Get(file, start + offset, 4), Get(file, start + offset + 6, 2) == PKCS_SIGNED_DATA)
  }

  function NextOffset(r: Record): (n: nat)
    ensures r.offset + r.size <= n < r.offset + r.size + 8
  {
    AlignValue(r.offset + r.size, 8)
  }

  /** The record is one the loop accepts. */
  predicate Sound(file: seq<byte>, start: nat, size: nat, offset: nat)
    requires start + size <= |file| && offset < size
  {
    && start + offset + RECORD_STRUCT <= |file| && offset + 4 <= size
    && RECORD_HEADER <= RecordAt(file, start, offset).size <= size - offset
  }

  /** The table's records from an offset on; none if one of them is malformed. */
  function Records(file: seq<byte>, start: nat, size: nat, offset: nat): (rs: Option<seq<Record>>)
    requires start + size <= |file|
    decreases size - offset
  {
    if offset >= size then Some([])
    else if !Sound(file, start, size, offset) then None
    else
      var r := RecordAt(file, start, offset);
      match Records(file, start, size, NextOffset(r)) case None => None case Some(rest) => Some([r] + rest)
  }

  /** The status after some records: the first success stays, otherwise the latest verdict stands. */
  function Verdict(rs: seq<Record>, verify: nat -> Status): Status
    decreases |rs|
  {
    if rs == [] then NotFound
    else
      var n := |rs| - 1;
      var before := Verdict(rs[..n], verify);
      if rs[n].pkcs && before != Success then verify(rs[n].offset) else before
  }

  lemma RecordsStep(file: seq<byte>, start: nat, size: nat, offset: nat)
    requires start + size <= |file| && offset < size
    ensures Records(file, start, size, offset) ==
      if !Sound(file, start, size, offset) then None
      else match Records(file, start, size, NextOffset(RecordAt(file, start, offset)))
        case None => None
        case Some(rest) => Some([RecordAt(file, start, offset)] + rest)
  {
  }

  function Before(done: seq<Record>, rest: Option<seq<Record>>): Option<seq<Record>> {
    match rest case None => None case Some(rs) => Some(done + rs)
  }

  lemma BeforeNone(rest: Option<seq<Record>>)
    ensures Before([], rest) == rest
  {
    if rest.Some? { assert [] + rest.value == rest.value; }
  }

  lemma BeforeOne(done: seq<Record>, r: Record, rest: Option<seq<Record>>)
    ensures Before(done, match rest case None => None case Some(rs) => Some([r] + rs)) == Before(done + [r], rest)
  {
    if rest.Some? { assert done + ([r] + rest.value) == (done + [r]) + rest.value; }
  }

  /**
   The loop of verify_buffer_authenticode, behind its checks that the table is nonempty and inside the
   file.  `verify` is what verifying the record at an offset returns.
   */
  method VerifyTable(file: seq<byte>, start: nat, size: nat, verify: nat -> Status) returns (status: Status)
    requires 0 < size && start + size <= |file|
    ensures status ==
      match Records(file, start, size, 0) case None => InvalidParameter case Some(rs) => Verdict(rs, verify)
  {
    hide Records, Get, NextOffset;
    var offset := 0;
    status := NotFound;
    ghost var done: seq<Record> := [];
    ghost var all := Records(file, start, size, 0);
    BeforeNone(all);
    while true
      invariant offset < size && status == Verdict(done, verify)
      invariant all == Before(done, Records(file, start, size, offset))
      decreases size - offset
    {
      RecordsStep(file, start, size, offset);
      if start + offset + RECORD_STRUCT > |file| { return InvalidParameter; }
      if offset + 4 > size { return InvalidParameter; }
      var r := RecordAt(file, start, offset);
      if r.size > size - offset { return InvalidParameter; }
      if r.size < RECORD_HEADER { return InvalidParameter; }
      if r.pkcs {
        var one := verify(offset);
        if status != Success { status := one; }
      }
      var next := NextOffset(r);
      BeforeOne(done, r, Records(file, start, size, next));
      assert (done + [r])[..|done|] == done;
      done := done + [r];
      NextForward(r);
      offset := next;
      if offset >= size { break; }
    }
    RecordsEnd(file, start, size, offset);
    assert done + [] == done;
  }

  lemma RecordsEnd(file: seq<byte>, start: nat, size: nat, offset: nat)
    requires start + size <= |file| && offset >= size
    ensures Records(file, start, size, offset) == Some([])
  {
  }

  lemma NextForward(r: Record)
    ensures r.offset + r.size <= NextOffset(r)
  {
  }

  // ---------------------------------------------------------------- what the walk visits

  /** Records lie inside the table at multiples of eight, each behind the one before it. */
  predicate Laid(rs: seq<Record>, from: nat, size: nat) {
    && (forall k :: 0 <= k < |rs| ==>
          from <= rs[k].offset && rs[k].offset % 8 == 0 && RECORD_HEADER <= rs[k].size && rs[k].offset + rs[k].size <= size)
    && forall j, k :: 0 <= j < k < |rs| ==> rs[j].offset + rs[j].size <= rs[k].offset
  }

  lemma NextAligned(r: Record)
    ensures NextOffset(r) % 8 == 0
  {
    assert Pow2(3) == 8;
    AlignRoundsUp(r.offset + r.size, 3);
  }

  lemma {:induction false} RecordsLaid(file: seq<byte>, start: nat, size: nat, offset: nat)
    requires start + size <= |file| && offset % 8 == 0
    ensures Records(file, start, size, offset).Some? ==> Laid(Records(file, start, size, offset).value, offset, size)
    decreases size - offset
  {
    hide NextOffset, Get, Records;
    if offset >= size {
      RecordsEnd(file, start, size, offset);
    } else {
      RecordsStep(file, start, size, offset);
      if Records(file, start, size, offset).Some? {
        var r := RecordAt(file, start, offset);
        NextAligned(r);
        NextForward(r);
        RecordsLaid(file, start, size, NextOffset(r));
        LaidCons(r, Records(file, start, size, NextOffset(r)).value, NextOffset(r), size);
      }
    }
  }

  lemma LaidCons(r: Record, rest: seq<Record>, next: nat, size: nat)
    requires Laid(rest, next, size) && r.offset % 8 == 0 && RECORD_HEADER <= r.size && r.offset + r.size <= size
    requires r.offset + r.size <= next
    ensures Laid([r] + rest, r.offset, size)
  {
    var all := [r] + rest;
    assert all[0] == r && forall k :: 0 < k < |all| ==> all[k] == rest[k - 1];
  }

  /** The table verifies exactly when one of its PKCS records does; failures behind it do not matter. */
  lemma {:induction false} SuccessIff(rs: seq<Record>, verify: nat -> Status)
    ensures Verdict(rs, verify) == Success <==> exists k :: 0 <= k < |rs| && rs[k].pkcs && verify(rs[k].offset) == Success
    decreases |rs|
  {
    if rs != [] {
      var n := |rs| - 1;
      SuccessIff(rs[..n], verify);
      assert forall k :: 0 <= k < n ==> rs[..n][k] == rs[k];
      if exists k :: 0 <= k < |rs| && rs[k].pkcs && verify(rs[k].offset) == Success {
        var k :| 0 <= k < |rs| && rs[k].pkcs && verify(rs[k].offset) == Success;
        if k < n { assert rs[..n][k].pkcs; }
      }
    }
  }

  /** A table that does not verify reports the verdict on its last PKCS record. */
  lemma {:induction false} FailureIsLast(rs: seq<Record>, verify: nat -> Status)
    requires Verdict(rs, verify) != Success
    ensures Verdict(rs, verify) == match LastPkcs(rs) case None => NotFound case Some(offset) => verify(offset)
    decreases |rs|
  {
    if rs != [] { FailureIsLast(rs[..|rs| - 1], verify); }
  }

  /** Offset of the last PKCS record. */
  function LastPkcs(rs: seq<Record>): Option<nat>
    decreases |rs|
  {
    if rs == [] then None
    else if rs[|rs| - 1].pkcs then Some(rs[|rs| - 1].offset)
    else LastPkcs(rs[..|rs| - 1])
  }

  // ---------------------------------------------------------------- the table in offsets and bytes

  /** The record at next begins at the first multiple of eight at or behind the end of the one at off. */
  predicate NextRecord(file: seq<byte>, start: nat, off: nat, next: nat) {
    && start + off + 4 <= |file| && next % 8 == 0
    && off + Get(file, start + off, 4) <= next < off + Get(file, start + off, 4) + 8
  }

  /** A record's length holds its header and stays in the directory, and the structure read lies in the file. */
  predicate RecordFits(file: seq<byte>, start: nat, size: nat, off: nat) {
    && off < size && off + 4 <= size && start + off + 12 <= |file|
    && 8 <= Get(file, start + off, 4) && off + Get(file, start + off, 4) <= size
  }

  /** Nothing of the directory is left behind the record. */
  ghost predicate UsesUp(file: seq<byte>, start: nat, size: nat, off: nat) {
    exists end: nat :: end >= size && NextRecord(file, start, off, end)
  }

  /** Records that fit and follow each other from `from` until the directory is used up. */
  ghost predicate TableOffsets(file: seq<byte>, start: nat, size: nat, from: nat, offs: seq<nat>) {
    && (if offs == [] then from >= size else offs[0] == from)
    && (forall k :: 0 <= k < |offs| ==> RecordFits(file, start, size, offs[k]))
    && (forall k :: 0 <= k < |offs| - 1 ==> NextRecord(file, start, offs[k], offs[k + 1]))
    && (offs != [] ==> UsesUp(file, start, size, offs[|offs| - 1]))
  }

  lemma SoundIff(file: seq<byte>, start: nat, size: nat, offset: nat)
    requires start + size <= |file| && offset < size
    ensures Sound(file, start, size, offset) <==> RecordFits(file, start, size, offset)
    ensures Sound(file, start, size, offset) ==> NextRecord(file, start, offset, NextOffset(RecordAt(file, start, offset)))
  {
    hide Get;
    if Sound(file, start, size, offset) { NextAligned(RecordAt(file, start, offset)); }
  }

  lemma OneNext(file: seq<byte>, start: nat, off: nat, a: nat, b: nat)
    requires NextRecord(file, start, off, a) && NextRecord(file, start, off, b)
    ensures a == b
  {
    hide Get;
  }

  lemma OffsetsCons(file: seq<byte>, start: nat, size: nat, from: nat, next: nat, rest: seq<nat>)
    requires RecordFits(file, start, size, from) && NextRecord(file, start, from, next) && TableOffsets(file, start, size, next, rest)
    ensures TableOffsets(file, start, size, from, [from] + rest)
  {
    hide RecordFits, NextRecord;
    var all := [from] + rest;
    assert all[0] == from && forall k :: 0 < k < |all| ==> all[k] == rest[k - 1];
    if rest == [] { assert all[|all| - 1] == from; } else { assert all[|all| - 1] == rest[|rest| - 1]; }
    if rest == [] { assert UsesUp(file, start, size, from); }
    forall k | 0 <= k < |all| - 1 ensures NextRecord(file, start, all[k], all[k + 1]) {
      if k > 0 { assert NextRecord(file, start, rest[k - 1], rest[k - 1 + 1]); }
    }
  }

  lemma OffsetsRest(file: seq<byte>, start: nat, size: nat, from: nat, next: nat, offs: seq<nat>)
    requires TableOffsets(file, start, size, from, offs) && offs != [] && NextRecord(file, start, from, next)
    ensures TableOffsets(file, start, size, next, offs[1..])
  {
    hide RecordFits;
    var rest := offs[1..];
    assert forall k :: 0 <= k < |rest| ==> rest[k] == offs[k + 1];
    if rest == [] {
      var end: nat :| end >= size && NextRecord(file, start, offs[|offs| - 1], end);
      OneNext(file, start, from, end, next);
    } else {
      OneNext(file, start, from, offs[0 + 1], next);
      forall k | 0 <= k < |rest| - 1 ensures NextRecord(file, start, rest[k], rest[k + 1]) {
        assert NextRecord(file, start, offs[k + 1], offs[k + 1 + 1]);
      }
    }
  }

  /** A record carries a PKCS signature: type 2 in the word behind its length and revision. */
  predicate PkcsAt(file: seq<byte>, at: nat) { at + 8 <= |file| && Get(file, at + 6, 2) == 2 }

  predicate SameRecords(file: seq<byte>, start: nat, offs: seq<nat>, rs: seq<Record>) {
    |rs| == |offs| && forall k :: 0 <= k < |offs| ==> rs[k].offset == offs[k] && (rs[k].pkcs <==> PkcsAt(file, start + offs[k]))
  }

  /** The accepted records, as offsets. */
  lemma {:induction false} RecordsInBytes(file: seq<byte>, start: nat, size: nat, offset: nat) returns (offs: seq<nat>)
    requires start + size <= |file| && Records(file, start, size, offset).Some?
    ensures TableOffsets(file, start, size, offset, offs) && SameRecords(file, start, offs, Records(file, start, size, offset).value)
    decreases size - offset
  {
    hide Get, NextOffset, Records, Sound, NextRecord, RecordFits, TableOffsets;
    if offset >= size {
      offs := [];
      RecordsEnd(file, start, size, offset);
      NoOffsets(file, start, size, offset);
    } else {
      RecordsStep(file, start, size, offset);
      SoundIff(file, start, size, offset);
      FitsFacts(file, start, size, offset);
      var r := RecordAt(file, start, offset);
      NextForward(r);
      var rest := RecordsInBytes(file, start, size, NextOffset(r));
      OffsetsCons(file, start, size, offset, NextOffset(r), rest);
      offs := [offset] + rest;
      var rs, tail := Records(file, start, size, offset).value, Records(file, start, size, NextOffset(r)).value;
      forall k | 0 <= k < |offs| ensures rs[k].offset == offs[k] && (rs[k].pkcs <==> PkcsAt(file, start + offs[k])) {
        if k > 0 { assert rs[k] == tail[k - 1] && offs[k] == rest[k - 1]; }
      }
    }
  }

  lemma NoOffsets(file: seq<byte>, start: nat, size: nat, from: nat)
    requires from >= size
    ensures TableOffsets(file, start, size, from, [])
  {
  }

  lemma FitsFacts(file: seq<byte>, start: nat, size: nat, offset: nat)
    requires start + size <= |file| && offset < size
    ensures Sound(file, start, size, offset) ==> start + offset + 12 <= |file| && RecordAt(file, start, offset).size >= 8
    ensures Sound(file, start, size, offset) ==> (RecordAt(file, start, offset).pkcs <==> PkcsAt(file, start + offset))
  {
    hide Get;
  }

  /** Bytes that form a table are accepted. */
  lemma {:induction false} BytesInRecords(file: seq<byte>, start: nat, size: nat, offset: nat, offs: seq<nat>)
    requires start + size <= |file| && TableOffsets(file, start, size, offset, offs)
    ensures Records(file, start, size, offset).Some?
    decreases |offs|
  {
    hide Get, NextOffset, Records, Sound, NextRecord, RecordFits;
    if offset >= size {
      RecordsEnd(file, start, size, offset);
    } else {
      RecordsStep(file, start, size, offset);
      SoundIff(file, start, size, offset);
      FitsFacts(file, start, size, offset);
      assert RecordFits(file, start, size, offs[0]);
      OffsetsRest(file, start, size, offset, NextOffset(RecordAt(file, start, offset)), offs);
      BytesInRecords(file, start, size, NextOffset(RecordAt(file, start, offset)), offs[1..]);
    }
  }

  /**
   The verdict in bytes: a table verifies exactly when its bytes are records that fit, one behind the other
   at multiples of eight, and one of type 2 verifies.
   */
  lemma VerifiesIff(file: seq<byte>, start: nat, size: nat, verify: nat -> Status)
    requires 0 < size && start + size <= |file|
    ensures
      (match Records(file, start, size, 0) case None => InvalidParameter case Some(rs) => Verdict(rs, verify)) == Success <==>
        exists offs: seq<nat> :: TableOffsets(file, start, size, 0, offs) && VerifiedAt(file, start, offs, verify)
  {
    hide Get, Records, Verdict, TableOffsets, PkcsAt;
    if Records(file, start, size, 0).Some? {
      var offs := RecordsInBytes(file, start, size, 0);
      var rs := Records(file, start, size, 0).value;
      SuccessIff(rs, verify);
      SameVerified(file, start, offs, rs, verify);
      forall other: seq<nat> | TableOffsets(file, start, size, 0, other) ensures other == offs {
        OneTable(file, start, size, 0, other, offs);
      }
    } else {
      forall offs: seq<nat> | TableOffsets(file, start, size, 0, offs) ensures Records(file, start, size, 0).Some? {
        BytesInRecords(file, start, size, 0, offs);
      }
    }
  }

  predicate VerifiedAt(file: seq<byte>, start: nat, offs: seq<nat>, verify: nat -> Status) {
    exists k :: 0 <= k < |offs| && PkcsAt(file, start + offs[k]) && verify(offs[k]) == Success
  }

  lemma SameVerified(file: seq<byte>, start: nat, offs: seq<nat>, rs: seq<Record>, verify: nat -> Status)
    requires SameRecords(file, start, offs, rs)
    ensures VerifiedAt(file, start, offs, verify) <==> exists k :: 0 <= k < |rs| && rs[k].pkcs && verify(rs[k].offset) == Success
  {
    hide PkcsAt;
    if VerifiedAt(file, start, offs, verify) {
      var k :| 0 <= k < |offs| && PkcsAt(file, start + offs[k]) && verify(offs[k]) == Success;
      assert rs[k].pkcs && verify(rs[k].offset) == Success;
    }
    if exists k :: 0 <= k < |rs| && rs[k].pkcs && verify(rs[k].offset) == Success {
      var k :| 0 <= k < |rs| && rs[k].pkcs && verify(rs[k].offset) == Success;
      assert PkcsAt(file, start + offs[k]) && verify(offs[k]) == Success;
    }
  }

  lemma NextIn(file: seq<byte>, start: nat, size: nat, offs: seq<nat>) returns (next: nat)
    requires offs != [] && TableOffsets(file, start, size, offs[0], offs)
    ensures NextRecord(file, start, offs[0], next)
  {
    hide NextRecord, RecordFits;
    if |offs| == 1 {
      var end: nat :| end >= size && NextRecord(file, start, offs[|offs| - 1], end);
      next := end;
    } else {
      assert NextRecord(file, start, offs[0], offs[0 + 1]);
      next := offs[1];
    }
  }

  /** The bytes form a table in one way. */
  lemma {:induction false} OneTable(file: seq<byte>, start: nat, size: nat, from: nat, a: seq<nat>, b: seq<nat>)
    requires TableOffsets(file, start, size, from, a) && TableOffsets(file, start, size, from, b)
    ensures a == b
    decreases |a|
  {
    hide NextRecord;
    if a != [] && b != [] {
      var next := NextIn(file, start, size, a);
      OffsetsRest(file, start, size, from, next, a);
      OffsetsRest(file, start, size, from, next, b);
      OneTable(file, start, size, next, a[1..], b[1..]);
      assert a == [a[0]] + a[1..] && b == [b[0]] + b[1..];
    }
  }

  // ---------------------------------------------------------------- osign_parse_pkcs7

  datatype Selected = Selected(offset: Option<nat>) | PastEnd

  /** The walk's own test of a record: its length is read, and fits. */
  predicate Fits(file: seq<byte>, start: nat, size: nat, offset: nat)
    requires start + size <= |file|
  {
    && offset < size && start + offset + 4 <= |file|
    && RECORD_HEADER <= Get(file, start + offset, 4) <= size - offset
  }

  function VisitedAt(file: seq<byte>, start: nat, size: nat, offset: nat): (r: Record)
    requires start + size <= |file| && Fits(file, start, size, offset)
    ensures r.offset == offset && r.size > 0
  {
    Record(offset, Get(file, start + offset, 4), Get(file, start + offset + 6, 2) == PKCS_SIGNED_DATA)
  }

  /** Records that follow each other from an offset on, each passing the walk's test. */
  predicate Follow(file: seq<byte>, start: nat, size: nat, offset: nat, rs: seq<Record>)
    requires start + size <= |file|
    decreases |rs|
  {
    rs != [] ==>
      && Fits(file, start, size, offset) && rs[0] == VisitedAt(file, start, size, offset)
      && Follow(file, start, size, NextOffset(rs[0]), rs[1..])
  }

  /** Where the walk stands behind these records. */
  function Behind(offset: nat, rs: seq<Record>): nat { if rs == [] then offset else NextOffset(rs[|rs| - 1]) }

  /** The walk has gone as far as it can. */
  predicate Complete(file: seq<byte>, start: nat, size: nat, rs: seq<Record>)
    requires start + size <= |file|
  {
    Follow(file, start, size, 0, rs) && !Fits(file, start, size, Behind(0, rs))
  }

  lemma {:induction false} FollowMore(file: seq<byte>, start: nat, size: nat, offset: nat, rs: seq<Record>)
    requires start + size <= |file| && Follow(file, start, size, offset, rs) && Fits(file, start, size, Behind(offset, rs))
    ensures Follow(file, start, size, offset, rs + [VisitedAt(file, start, size, Behind(offset, rs))])
    decreases |rs|
  {
    hide Fits, NextOffset;
    var one: seq<Record> := [VisitedAt(file, start, size, Behind(offset, rs))];
    if rs == [] {
      assert rs + one == one && one[1..] == [];
    } else {
      FollowMore(file, start, size, NextOffset(rs[0]), rs[1..]);
      assert (rs + one)[1..] == rs[1..] + one;
    }
  }

  /** There is only one walk: of two complete ones neither goes further. */
  lemma {:induction false} OneWalk(file: seq<byte>, start: nat, size: nat, offset: nat, a: seq<Record>, b: seq<Record>)
    requires start + size <= |file| && Follow(file, start, size, offset, a) && Follow(file, start, size, offset, b)
    requires !Fits(file, start, size, Behind(offset, a)) && !Fits(file, start, size, Behind(offset, b))
    ensures a == b
    decreases |a|
  {
    hide Fits, NextOffset;
    if a != [] && b != [] {
      OneWalk(file, start, size, NextOffset(a[0]), a[1..], b[1..]);
      assert a == [a[0]] + a[1..] && b == [b[0]] + b[1..];
    }
  }

  /** The records the verification loop accepts are those this walk visits. */
  lemma {:induction false} AcceptedFollow(file: seq<byte>, start: nat, size: nat, offset: nat)
    requires start + size <= |file| && Records(file, start, size, offset).Some?
    ensures
      var rs := Records(file, start, size, offset).value;
      Follow(file, start, size, offset, rs) && Behind(offset, rs) >= size
    decreases size - offset
  {
    hide Get, NextOffset;
    if offset < size {
      var r := RecordAt(file, start, offset);
      NextForward(r);
      AcceptedFollow(file, start, size, NextOffset(r));
      var rs := Records(file, start, size, offset).value;
      assert rs[1..] == Records(file, start, size, NextOffset(r)).value;
    }
  }

  /**
   The walk of osign_parse_pkcs7.  It stops quietly at a malformed record and reads a length before it
   knows there is room for one: it leaves the file exactly when it comes to stand inside the directory
   with fewer than four bytes of file left, and otherwise selects the last PKCS record it visited.
   */
  method SelectRecord(file: seq<byte>, start: nat, size: nat) returns (s: Selected)
    requires start + size <= |file|
    ensures exists rs ::
      && Complete(file, start, size, rs)
      && s == if Behind(0, rs) < size && start + Behind(0, rs) + 4 > |file| then PastEnd else Selected(LastPkcs(rs))
    ensures Records(file, start, size, 0).Some? ==> s == Selected(LastPkcs(Records(file, start, size, 0).value))
  {
    hide Records, Get, NextOffset, Follow;
    var offset := 0;
    var last: Option<nat> := None;
    ghost var done: seq<Record> := [];
    FollowNone(file, start, size);
    while offset < size
      invariant Follow(file, start, size, 0, done) && offset == Behind(0, done) && last == LastPkcs(done)
      decreases size - offset
    {
      var at := start + offset;
      if at + 4 > |file| {
        SameAsAccepted(file, start, size, done);
        return PastEnd;
      }
      var len := Get(file, at, 4);
      if len < RECORD_HEADER || len > size - offset { break; }
      var r := VisitedAt(file, start, size, offset);
      if r.pkcs { last := Some(offset); }
      FollowMore(file, start, size, 0, done);
      assert (done + [r])[..|done|] == done;
      done := done + [r];
      NextForward(r);
      offset := NextOffset(r);
    }
    SameAsAccepted(file, start, size, done);
    return Selected(last);
  }

  lemma FollowNone(file: seq<byte>, start: nat, size: nat)
    requires start + size <= |file|
    ensures Follow(file, start, size, 0, [])
  {
  }

  lemma SameAsAccepted(file: seq<byte>, start: nat, size: nat, done: seq<Record>)
    requires start + size <= |file| && Complete(file, start, size, done)
    ensures Records(file, start, size, 0).Some? ==> done == Records(file, start, size, 0).value && Behind(0, done) >= size
  {
    hide Get, NextOffset, Records, Follow;
    if Records(file, start, size, 0).Some? {
      AcceptedFollow(file, start, size, 0);
      OneWalk(file, start, size, 0, done, Records(file, start, size, 0).value);
    }
  }

  /** A directory of eighteen bytes at the end of the file, with one record of sixteen. */
  lemma LengthBehindFile(before: seq<byte>, record: seq<byte>, rest: seq<byte>)
    requires |record| == 16 && |rest| == 2 && Get(record, 0, 4) == 16
    ensures
      var file := before + (record + rest);
      exists rs ::
        Complete(file, |before|, 18, rs) && Behind(0, rs) < 18 && |before| + Behind(0, rs) + 4 > |file|
  {
    hide Get;
    var file := before + (record + rest);
    assert file[|before|..|before| + 4] == record[0..4];
    FieldSame(file, |before|, record);
    assert Fits(file, |before|, 18, 0);
    var r := VisitedAt(file, |before|, 18, 0);
    NextAligned(r);
    var one: seq<Record> := [r];
    assert one[1..] == [];
    assert NextOffset(r) == 16;
    assert Follow(file, |before|, 18, 16, one[1..]);
    assert Follow(file, |before|, 18, 0, one);
    assert !Fits(file, |before|, 18, 16);
    assert Complete(file, |before|, 18, one);
  }

  lemma FieldSame(file: seq<byte>, at: nat, record: seq<byte>)
    requires at + 4 <= |file| && |record| >= 4 && file[at..at + 4] == record[0..4]
    ensures Get(file, at, 4) == Get(record, 0, 4)
  {
  }
}
