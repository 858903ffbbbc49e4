/** What a mirror pass does with a database: order, sizes, and where every signature ends up. */
module MirrorLaws {
  import opened Bytes
  import opened SigList
  import opened HashPurge
  import opened HashList
  import opened MokCodec
  import opened MokLookup
  import opened Mirror

  // ---------------------------------------------------------------- order, names and sizes

  /** The room a piece's own firmware answer left it. */
  function RoomOf(p: Piece, name: nat, fw: nat -> Reply, onlyFirst: bool): nat {
    match fw(p.step).max
    case None => 0
    case Some(max) => Room(max, NameLen(name, p.index, onlyFirst))
  }

  /**
   A stored piece is nonempty, its variable and name fit what the firmware offered, and it stops only at
   the list's end or where one more signature would not fit; a skipped rest holds no whole signature, or
   none that fits.
   */
  predicate Sized(data: seq<byte>, p: Piece, room: nat)
    requires PieceFits(data, p)
  {
    var sz, end := SigSize(data, p.list), p.list + ListSize(data, p.list);
    if p.Passed? then p.upto == end && (end - p.at < sz || room < LIST_HEADER + sz)
    else p.count > 0 && LIST_HEADER + p.count * sz <= room && (end - PieceEnd(data, p) < sz || room < LIST_HEADER + p.count * sz + sz)
  }

  /** The pieces lie between two positions in order and without overlap. */
  predicate InOrder(data: seq<byte>, from: nat, pieces: seq<Piece>, upto: nat)
    decreases |pieces|
  {
    if pieces == [] then from <= upto
    else PieceFits(data, pieces[0]) && from <= pieces[0].at && InOrder(data, PieceEnd(data, pieces[0]), pieces[1..], upto)
  }

  lemma InOrderCons(data: seq<byte>, from: nat, p: Piece, rest: seq<Piece>, upto: nat)
    requires PieceFits(data, p) && from <= p.at && InOrder(data, PieceEnd(data, p), rest, upto)
    ensures InOrder(data, from, [p] + rest, upto)
  {
    assert ([p] + rest)[1..] == rest;
  }

  lemma {:induction false} InOrderFits(data: seq<byte>, from: nat, pieces: seq<Piece>, upto: nat)
    requires InOrder(data, from, pieces, upto)
    ensures AllFit(data, pieces) && from <= upto
    ensures forall k :: 0 <= k < |pieces| ==> from <= pieces[k].at && PieceEnd(data, pieces[k]) <= upto
    ensures forall j, k :: 0 <= j < k < |pieces| ==> PieceEnd(data, pieces[j]) <= pieces[k].at
    decreases |pieces|
  {
    hide PieceEnd;
    if pieces != [] {
      var p, rest := pieces[0], pieces[1..];
      InOrderFits(data, PieceEnd(data, p), rest, upto);
      PieceForward(data, p);
      assert forall k :: 0 < k < |pieces| ==> pieces[k] == rest[k - 1];
    }
  }

  lemma PieceForward(data: seq<byte>, p: Piece)
    requires PieceFits(data, p)
    ensures p.at <= PieceEnd(data, p)
  {
  }

  lemma OnePiece(data: seq<byte>, d: Cursor, i: nat, step: nat, room: nat, name: nat, fw: nat -> Reply, onlyFirst: bool)
    requires Good(data, d) && Inside(data, d)
    requires fw(step).max.Some? && room == Room(fw(step).max.value, NameLen(name, i, onlyFirst))
    ensures
      var count := HowMany(data, d, room);
      var skip, take, known := Passed(step, i, d.list, d.pos, d.end), Mirrored(step, i, d.list, d.pos, count), Already(step, i, d.list, d.pos, count);
      && PieceFits(data, skip) && PieceFits(data, take) && PieceFits(data, known)
      && RoomOf(skip, name, fw, onlyFirst) == room && RoomOf(take, name, fw, onlyFirst) == room && RoomOf(known, name, fw, onlyFirst) == room
      && (count == 0 ==> Sized(data, skip, room))
      && (count > 0 ==> Sized(data, take, room) && Sized(data, known, room))
      && PieceEnd(data, skip) == Skipped(data, d).pos
      && PieceEnd(data, take) == PieceEnd(data, known) == Taken(data, d, count).pos
  {
    hide Get, Room, NameLen, Take, Chain;
    var count := HowMany(data, d, room);
    StepFits(data, d, count, i, step);
    var sz := SigSize(data, d.list);
    assert count == Take(d.end - d.pos, sz, room);
  }

  /** Every run: pieces in order, each of one list, sized to what the firmware offered for its own name. */
  lemma {:induction false} PassLaws(data: seq<byte>, c: Cursor, i: nat, step: nat, name: nat, fw: nat -> Reply, onlyFirst: bool)
    requires Good(data, c)
    ensures
      var log := Pass(data, c, i, step, name, fw, onlyFirst);
      && InOrder(data, c.pos, log.pieces, log.last.pos) && Good(data, log.last)
      && (forall k :: 0 <= k < |log.pieces| ==>
            PieceFits(data, log.pieces[k]) && Sized(data, log.pieces[k], RoomOf(log.pieces[k], name, fw, onlyFirst)))
      && (log.end.Finished? && !onlyFirst ==> |data| - log.last.pos < MIN_REST)
    decreases |data| - c.pos
  {
    hide Get, Pass, Chain, PieceFits, Room, NameLen, HowMany, Inside, Taken, Skipped, Enter, Good, Sized, RoomOf, InOrder, PieceEnd;
    PassEnds(data, c, i, step, name, fw, onlyFirst);
    if |data| - c.pos < MIN_REST {
      NoPieces(data, c.pos, c.pos);
    } else {
      var d := Enter(data, c);
      NoPieces(data, c.pos, d.pos);
      if fw(step).max.Some? {
        PassStep(data, c, i, step, name, fw, onlyFirst);
        var room := Room(fw(step).max.value, NameLen(name, i, onlyFirst));
        OnePiece(data, d, i, step, room, name, fw, onlyFirst);
        var count := HowMany(data, d, room);
        if count == 0 {
          var next := Skipped(data, d);
          PassLaws(data, next, i, step + 1, name, fw, onlyFirst);
          var rest := Pass(data, next, i, step + 1, name, fw, onlyFirst);
          InOrderCons(data, c.pos, Passed(step, i, d.list, d.pos, d.end), rest.pieces, rest.last.pos);
        } else {
          var next := Taken(data, d, count);
          var p := if !onlyFirst && i == 0 then Already(step, i, d.list, d.pos, count) else Mirrored(step, i, d.list, d.pos, count);
          NoPieces(data, next.pos, next.pos);
          InOrderCons(data, c.pos, p, [], next.pos);
          var one: seq<Piece> := [p];
          assert one + [] == one;
          PassLaws(data, next, i + 1, step + 1, name, fw, onlyFirst);
          var rest := Pass(data, next, i + 1, step + 1, name, fw, onlyFirst);
          InOrderCons(data, c.pos, p, rest.pieces, rest.last.pos);
        }
      }
    }
  }

  lemma NoPieces(data: seq<byte>, from: nat, upto: nat)
    requires from <= upto
    ensures InOrder(data, from, [], upto)
  {
  }

  // ---------------------------------------------------------------- where every signature ends up

  datatype Signature = Signature(kind: Guid, entry: Entry)

  function Tag(kind: Guid, es: seq<Entry>): (r: seq<Signature>)
    ensures |r| == |es| && forall k :: 0 <= k < |es| ==> r[k] == Signature(kind, es[k])
  {
    seq(|es|, k requires 0 <= k < |es| => Signature(kind, es[k]))
  }

  /** The whole signatures of one list between two positions. */
  function InList(data: seq<byte>, list: nat, from: nat, upto: nat): seq<Signature>
    requires list + LIST_HEADER <= |data| && from <= upto <= |data| && SigSize(data, list) > 0
  {
    Tag(Kind(data, list), Entries(data[from..upto], SigSize(data, list)))
  }

  /** Every signature of the lists from pos on, in order. */
  function Signatures(data: seq<byte>, pos: nat): seq<Signature>
    requires Chain(data, pos)
    decreases |data| - pos
  {
    if pos == |data| then []
    else InList(data, pos, pos + LIST_HEADER, pos + ListSize(data, pos)) + Signatures(data, pos + ListSize(data, pos))
  }

  /** The signatures not yet visited. */
  function Rest(data: seq<byte>, c: Cursor): seq<Signature>
    requires Good(data, c)
  {
    (if c.pos < c.end then InList(data, c.list, c.pos, c.end) else []) + Signatures(data, c.end)
  }

  function Held(data: seq<byte>, p: Piece): seq<Signature>
    requires PieceFits(data, p)
  {
    InList(data, p.list, p.at, PieceEnd(data, p))
  }

  function AllHeld(data: seq<byte>, pieces: seq<Piece>): seq<Signature>
    requires AllFit(data, pieces)
    decreases |pieces|
  {
    if pieces == [] then []
    else
      var rest := pieces[1..];
      assert AllFit(data, rest) by { assert forall k :: 0 <= k < |rest| ==> rest[k] == pieces[k + 1]; }
      Held(data, pieces[0]) + AllHeld(data, rest)
  }

  lemma HeldCons(data: seq<byte>, p: Piece, rest: seq<Piece>, after: seq<Signature>)
    requires PieceFits(data, p) && AllFit(data, rest)
    ensures AllFit(data, [p] + rest)
    ensures AllHeld(data, [p] + rest) + after == Held(data, p) + (AllHeld(data, rest) + after)
  {
    hide PieceFits, Held;
    var all := [p] + rest;
    assert all[1..] == rest;
    assert forall k :: 0 < k < |all| ==> all[k] == rest[k - 1];
  }

  lemma HeldNone(data: seq<byte>)
    ensures AllHeld(data, []) == []
  {
  }

  /** Entries of the front, cut after a whole number of them, then of the rest. */
  lemma {:induction false} EntriesCut(data: seq<byte>, sz: nat, n: nat, cut: nat)
    requires sz > 0 && cut == n * sz <= |data|
    ensures Entries(data, sz) == Entries(data[..cut], sz) + Entries(data[cut..], sz)
    decreases n
  {
    hide Entries;
    if n == 0 {
      ShortEntries(data[..cut], sz);
      assert data[cut..] == data;
    } else {
      LessOne(n, sz);
      var front, rest := data[..cut], data[sz..];
      EntriesCut(rest, sz, n - 1, cut - sz);
      assert front[..sz] == data[..sz] && front[sz..] == rest[..cut - sz] && rest[cut - sz..] == data[cut..];
      EntriesStep(data, sz);
      EntriesStep(front, sz);
    }
  }

  lemma LessOne(n: nat, sz: nat)
    requires n > 0
    ensures n * sz == (n - 1) * sz + sz && (n - 1) * sz >= 0
  {
  }

  lemma ShortEntries(data: seq<byte>, sz: nat)
    requires |data| < sz
    ensures Entries(data, sz) == []
  {
  }

  lemma TagAppend(kind: Guid, a: seq<Entry>, b: seq<Entry>)
    ensures Tag(kind, a + b) == Tag(kind, a) + Tag(kind, b)
  {
  }

  lemma InListCut(data: seq<byte>, list: nat, from: nat, count: nat, mid: nat, upto: nat)
    requires list + LIST_HEADER <= |data| && SigSize(data, list) > 0
    requires mid == from + count * SigSize(data, list) <= upto <= |data|
    ensures InList(data, list, from, upto) == InList(data, list, from, mid) + InList(data, list, mid, upto)
  {
    hide Get, Entries, Tag;
    var all, sz := data[from..upto], SigSize(data, list);
    EntriesCut(all, sz, count, mid - from);
    assert all[..mid - from] == data[from..mid] && all[mid - from..] == data[mid..upto];
    TagAppend(Kind(data, list), Entries(data[from..mid], sz), Entries(data[mid..upto], sz));
  }

  lemma EmptyList(data: seq<byte>, list: nat, at: nat)
    requires list + LIST_HEADER <= |data| && at <= |data| && SigSize(data, list) > 0
    ensures InList(data, list, at, at) == []
  {
    ShortEntries(data[at..at], SigSize(data, list));
  }

  lemma RestEnter(data: seq<byte>, c: Cursor)
    requires Good(data, c) && c.pos < |data|
    ensures
      var d := Enter(data, c);
      Rest(data, c) == InList(data, d.list, d.pos, d.end) + Signatures(data, d.end)
  {
    hide Get, Entries, InList;
  }

  lemma RestSkip(data: seq<byte>, d: Cursor)
    requires Good(data, d) && Inside(data, d)
    ensures Rest(data, Skipped(data, d)) == Signatures(data, d.end)
    ensures InList(data, d.list, d.pos, d.end) + Signatures(data, d.end) == Rest(data, d)
  {
    hide Get, InList, Signatures, Chain;
    if d.pos == d.end { EmptyList(data, d.list, d.pos); }
  }

  /** One iteration: what it takes or skips comes off the front of what is left. */
  lemma PieceConserves(data: seq<byte>, c: Cursor, d: Cursor, count: nat, i: nat, step: nat)
    requires Good(data, c) && c.pos < |data| && d == Enter(data, c)
    requires d.pos + count * SigSize(data, d.list) <= d.end
    ensures
      var skip, take, known := Passed(step, i, d.list, d.pos, d.end), Mirrored(step, i, d.list, d.pos, count), Already(step, i, d.list, d.pos, count);
      && PieceFits(data, skip) && PieceFits(data, take) && PieceFits(data, known)
      && Rest(data, c) == Rest(data, d)
      && Rest(data, c) == Held(data, skip) + Rest(data, Skipped(data, d))
      && Rest(data, c) == Held(data, take) + Rest(data, Taken(data, d, count))
      && Held(data, known) == Held(data, take)
  {
    hide Get, InList, Signatures, Chain, Rest;
    RestEnter(data, c);
    RestSkip(data, d);
    StepFits(data, d, count, i, step);
    var mid := d.pos + count * SigSize(data, d.list);
    var next := Taken(data, d, count);
    TakenStill(data, d, count);
    RestSkip(data, next);
    InListCut(data, d.list, d.pos, count, mid, d.end);
    assert (InList(data, d.list, d.pos, mid) + InList(data, d.list, mid, d.end)) + Signatures(data, d.end) ==
           InList(data, d.list, d.pos, mid) + (InList(data, d.list, mid, d.end) + Signatures(data, d.end));
  }

  lemma TakenStill(data: seq<byte>, d: Cursor, count: nat)
    requires Inside(data, d) && Good(data, d) && d.pos + count * SigSize(data, d.list) <= d.end
    ensures Inside(data, Taken(data, d, count)) && Taken(data, d, count) == d.(pos := d.pos + count * SigSize(data, d.list))
  {
    hide Get, Chain;
    TakenInside(data, d, count);
    EmptyEnd(data, d, count);
  }

  lemma EmptyEnd(data: seq<byte>, d: Cursor, count: nat)
    requires Inside(data, d)
    ensures (d.pos + count * SigSize(data, d.list) - d.list - LIST_HEADER) % SigSize(data, d.list) == 0
  {
    hide Get;
    var sz, before := SigSize(data, d.list), d.pos - d.list - LIST_HEADER;
    assert before == (before / sz) * sz;
    assert (before / sz + count) * sz == (before / sz) * sz + count * sz;
    ModUnique(before + count * sz, sz, before / sz + count, 0);
  }

  /**
   Conservation: the signatures of the database, in order, are those of the pieces in order followed by
   those the pass did not reach.
   */
  lemma {:induction false} PassConserves(data: seq<byte>, c: Cursor, i: nat, step: nat, name: nat, fw: nat -> Reply, onlyFirst: bool)
    requires Good(data, c)
    ensures
      var log := Pass(data, c, i, step, name, fw, onlyFirst);
      && AllFit(data, log.pieces) && Good(data, log.last)
      && Rest(data, c) == AllHeld(data, log.pieces) + Rest(data, log.last)
    decreases |data| - c.pos
  {
    hide Get, Pass, Chain, PieceFits, Room, NameLen, HowMany, Inside, Taken, Skipped, Enter, Good, Rest, Held, AllHeld;
    PassEnds(data, c, i, step, name, fw, onlyFirst);
    HeldNone(data);
    assert [] + Rest(data, c) == Rest(data, c);
    if |data| - c.pos >= MIN_REST {
      var d := Enter(data, c);
      PieceConserves(data, c, d, 0, i, step) by { ZeroTimes(data, d); }
      assert [] + Rest(data, d) == Rest(data, d);
      if fw(step).max.Some? {
        PassStep(data, c, i, step, name, fw, onlyFirst);
        var count := HowMany(data, d, Room(fw(step).max.value, NameLen(name, i, onlyFirst)));
        PieceConserves(data, c, d, count, i, step);
        if count == 0 {
          var next := Skipped(data, d);
          PassConserves(data, next, i, step + 1, name, fw, onlyFirst);
          var rest := Pass(data, next, i, step + 1, name, fw, onlyFirst);
          HeldCons(data, Passed(step, i, d.list, d.pos, d.end), rest.pieces, Rest(data, rest.last));
        } else {
          var next := Taken(data, d, count);
          var p := if !onlyFirst && i == 0 then Already(step, i, d.list, d.pos, count) else Mirrored(step, i, d.list, d.pos, count);
          HeldCons(data, p, [], Rest(data, next));
          var one: seq<Piece> := [p];
          assert one + [] == one && [] + Rest(data, next) == Rest(data, next);
          PassConserves(data, next, i + 1, step + 1, name, fw, onlyFirst);
          var rest := Pass(data, next, i + 1, step + 1, name, fw, onlyFirst);
          HeldCons(data, p, rest.pieces, Rest(data, rest.last));
        }
      }
    }
  }

  lemma ZeroTimes(data: seq<byte>, d: Cursor)
    requires Inside(data, d)
    ensures d.pos + 0 * SigSize(data, d.list) <= d.end
  {
  }

  // ---------------------------------------------------------------- the stored variables

  /** A stored variable is a well-formed database of one list that holds exactly its piece's signatures. */
  lemma VariableHolds(data: seq<byte>, p: Piece)
    requires PieceFits(data, p) && p.Mirrored?
    ensures
      var v := VariableOf(data, p).bytes;
      && Chain(v, 0) && Signatures(v, 0) == Held(data, p)
      && |v| == LIST_HEADER + p.count * SigSize(data, p.list)
  {
    hide Header, Get, At, Entries, Chain, Signatures;
    var v := VariableOf(data, p).bytes;
    var body := data[p.at..PieceEnd(data, p)];
    var kind, sz := Kind(data, p.list), SigSize(data, p.list);
    Powers();
    FromLEBound(data[p.list + 16..p.list + 20]);
    FromLEBound(data[p.list + 24..p.list + 28]);
    SizesAre(data, p.list);
    VariableStarts(v, Header(kind, LIST_HEADER + |body|, sz), body);
    HeaderWords(v, 0, kind, LIST_HEADER + |body|, sz);
    OneList(v);
    assert v[LIST_HEADER..|v|] == body;
  }

  lemma SizesAre(data: seq<byte>, pos: nat)
    requires pos + LIST_HEADER <= |data|
    ensures ListSize(data, pos) == FromLE(data[pos + 16..pos + 20]) && SigSize(data, pos) == FromLE(data[pos + 24..pos + 28])
  {
  }

  lemma VariableStarts(v: seq<byte>, header: seq<byte>, body: seq<byte>)
    requires v == header + body
    ensures At(v, 0, header)
  {
  }

  lemma OneList(v: seq<byte>)
    requires LIST_HEADER <= |v| && ListSize(v, 0) == |v| && SigSize(v, 0) > 0
    ensures Chain(v, 0) && Signatures(v, 0) == InList(v, 0, LIST_HEADER, |v|)
  {
    hide Get, InList;
    assert Signatures(v, |v|) == [];
  }
}
