/**
 Mirroring runs twice: first one variable under the plain name, later the numbered ones.  The second run
 works on the variable the first one left, with the sources in front of it once more, and skips the first
 run of signatures it could store, taking it for the one already stored; its names are longer, so what fits
 can differ.
 */
module MirrorTwice {
  import opened Bytes
  import opened SigList
  import opened MokCodec
  import opened MokLookup
  import opened HashList
  import opened Mirror
  import opened MirrorLaws
  import opened MokConfig

  // ---------------------------------------------------------------- names

  predicate Numbered(pieces: seq<Piece>, from: nat)
    decreases |pieces|
  {
    pieces != [] ==>
      && !pieces[0].Already? && pieces[0].index == from
      && Numbered(pieces[1..], if pieces[0].Mirrored? then from + 1 else from)
  }

  /** Stored variables are numbered from `from` on without gaps. */
  lemma {:induction false} NumbersFollow(data: seq<byte>, pieces: seq<Piece>, from: nat)
    requires AllFit(data, pieces) && Numbered(pieces, from)
    ensures forall k :: 0 <= k < |Variables(data, pieces)| ==> Variables(data, pieces)[k].index == from + k
    decreases |pieces|
  {
    hide PieceFits;
    if pieces != [] {
      var rest := pieces[1..];
      assert forall k :: 0 <= k < |rest| ==> rest[k] == pieces[k + 1];
      NumbersFollow(data, rest, if pieces[0].Mirrored? then from + 1 else from);
    }
  }

  lemma NumberedCons(p: Piece, rest: seq<Piece>, from: nat)
    requires !p.Already? && p.index == from && Numbered(rest, if p.Mirrored? then from + 1 else from)
    ensures Numbered([p] + rest, from)
  {
    assert ([p] + rest)[1..] == rest;
  }

  lemma {:induction false} LaterNumbered(data: seq<byte>, c: Cursor, i: nat, step: nat, name: nat, fw: nat -> Reply)
    requires Good(data, c) && i > 0
    ensures Numbered(Pass(data, c, i, step, name, fw, false).pieces, i)
    decreases |data| - c.pos
  {
    hide Get, Pass, Chain, PieceFits, Room, NameLen, HowMany, Inside, Taken, Skipped, Enter, Good;
    PassEnds(data, c, i, step, name, fw, false);
    if |data| - c.pos >= MIN_REST && fw(step).max.Some? {
      PassStep(data, c, i, step, name, fw, false);
      var d := Enter(data, c);
      var count := HowMany(data, d, Room(fw(step).max.value, NameLen(name, i, false)));
      if count == 0 {
        LaterNumbered(data, Skipped(data, d), i, step + 1, name, fw);
        NumberedCons(Passed(step, i, d.list, d.pos, d.end), Pass(data, Skipped(data, d), i, step + 1, name, fw, false).pieces, i);
      } else {
        LaterNumbered(data, Taken(data, d, count), i + 1, step + 1, name, fw);
        NumberedCons(Mirrored(step, i, d.list, d.pos, count), Pass(data, Taken(data, d, count), i + 1, step + 1, name, fw, false).pieces, i);
      }
    }
  }

  // ---------------------------------------------------------------- the two runs

  /** Where the first signature lies that fits the room. */
  function FirstFit(data: seq<byte>, c: Cursor, room: nat): (f: Option<Cursor>)
    requires Good(data, c)
    ensures f.Some? ==> Good(data, f.value) && Inside(data, f.value) && HowMany(data, f.value, room) > 0
    decreases |data| - c.pos
  {
    if |data| - c.pos < MIN_REST then None
    else
      var d := Enter(data, c);
      if HowMany(data, d, room) > 0 then Some(d) else FirstFit(data, Skipped(data, d), room)
  }

  predicate AllPassed(pieces: seq<Piece>) { forall k :: 0 <= k < |pieces| ==> pieces[k].Passed? }

  lemma PassedCons(p: Piece, rest: seq<Piece>)
    requires p.Passed?
    ensures AllPassed(rest) ==> AllPassed([p] + rest)
    ensures forall k :: 0 <= k < |rest| ==> ([p] + rest)[k + 1] == rest[k]
  {
  }

  /**
   A firmware that keeps offering the same size.  Each run's first piece that is not skipped is the first
   fit for its own name: under the plain name it is stored, in the numbered run it is not.
   */
  lemma {:induction false} FirstPiece(data: seq<byte>, c: Cursor, step: nat, name: nat, fw: nat -> Reply, max: nat, onlyFirst: bool)
    returns (j: nat)
    requires Good(data, c) && forall s :: fw(s) == Reply(Some(max), true)
    ensures
      var pieces := Pass(data, c, 0, step, name, fw, onlyFirst).pieces;
      var room := Room(max, NameLen(name, 0, onlyFirst));
      var f := FirstFit(data, c, room);
      && j <= |pieces| && AllPassed(pieces[..j])
      && (f.None? ==> j == |pieces|)
      && (f.Some? ==>
            && j < |pieces| && pieces[j].list == f.value.list && pieces[j].at == f.value.pos && !pieces[j].Passed?
            && pieces[j].count == HowMany(data, f.value, room)
            && pieces[j].Mirrored? == onlyFirst && pieces[j].index == 0
            && (onlyFirst ==> j == |pieces| - 1)
            && (!onlyFirst ==> Numbered(pieces[j + 1..], 1)))
    decreases |data| - c.pos
  {
    hide Get, Pass, Chain, Room, NameLen, HowMany, Inside, Taken, Skipped, Enter, Good, Numbered;
    PassEnds(data, c, 0, step, name, fw, onlyFirst);
    if |data| - c.pos < MIN_REST {
      j := 0;
    } else {
      assert fw(step) == Reply(Some(max), true);
      PassStep(data, c, 0, step, name, fw, onlyFirst);
      var d := Enter(data, c);
      var room := Room(max, NameLen(name, 0, onlyFirst));
      var pieces := Pass(data, c, 0, step, name, fw, onlyFirst).pieces;
      if HowMany(data, d, room) == 0 {
        var rest := Pass(data, Skipped(data, d), 0, step + 1, name, fw, onlyFirst).pieces;
        var k := FirstPiece(data, Skipped(data, d), step + 1, name, fw, max, onlyFirst);
        var p := Passed(step, 0, d.list, d.pos, d.end);
        assert pieces == [p] + rest;
        PassedCons(p, rest[..k]);
        assert pieces[..k + 1] == [p] + rest[..k];
        j := k + 1;
        assert pieces[j..] == rest[k..];
        if j < |pieces| { assert pieces[j + 1..] == rest[k + 1..]; }
      } else {
        j := 0;
        if !onlyFirst {
          var next := Taken(data, d, HowMany(data, d, room));
          LaterNumbered(data, next, 1, step + 1, name, fw);
          assert pieces[1..] == Pass(data, next, 1, step + 1, name, fw, false).pieces;
        }
      }
    }
  }

  lemma OneFits(data: seq<byte>, d: Cursor, small: nat, large: nat)
    requires Good(data, d) && Inside(data, d) && small <= large
    ensures HowMany(data, d, small) <= HowMany(data, d, large)
    ensures HowMany(data, d, large) > 0 ==> (HowMany(data, d, small) > 0 <==> LIST_HEADER + SigSize(data, d.list) <= small)
  {
    TakeMore(d.end - d.pos, SigSize(data, d.list), small, large);
  }

  lemma TakeMore(rest: nat, sz: nat, small: nat, large: nat)
    requires sz > 0 && small <= large
    ensures Take(rest, sz, small) <= Take(rest, sz, large)
    ensures Take(rest, sz, large) > 0 ==> (Take(rest, sz, small) > 0 <==> LIST_HEADER + sz <= small)
  {
    hide Take;
    var a, b := Take(rest, sz, small), Take(rest, sz, large);
    if a > b { MulGap(a, b, sz); }
    if a > 0 { MulAtLeast(a, sz); }
    if b > 0 { MulAtLeast(b, sz); }
  }

  lemma {:induction false} NumberedNone(pieces: seq<Piece>, from: nat)
    requires Numbered(pieces, from)
    ensures forall k :: 0 <= k < |pieces| ==> !pieces[k].Already?
    decreases |pieces|
  {
    if pieces != [] {
      var rest := pieces[1..];
      NumberedNone(rest, if pieces[0].Mirrored? then from + 1 else from);
      assert forall k :: 0 < k < |pieces| ==> pieces[k] == rest[k - 1];
    }
  }

  /** In the numbered run only the first fit is taken for stored. */
  lemma OnlyAlready(pieces: seq<Piece>, j: nat)
    requires j <= |pieces| && AllPassed(pieces[..j])
    requires j < |pieces| ==> Numbered(pieces[j + 1..], 1)
    ensures forall k :: 0 <= k < |pieces| && pieces[k].Already? ==> k == j
  {
    assert forall k :: 0 <= k < j ==> pieces[..j][k] == pieces[k];
    if j < |pieces| {
      var rest := pieces[j + 1..];
      NumberedNone(rest, 1);
      assert forall k :: j < k < |pieces| ==> pieces[k] == rest[k - j - 1];
    }
  }

  // ---------------------------------------------------------------- the first fit in the two databases

  /** The first fit from a list's header on. */
  function FitAt(data: seq<byte>, pos: nat, room: nat): (f: Option<Cursor>)
    requires Chain(data, pos)
    ensures f.Some? ==> Good(data, f.value) && Inside(data, f.value) && HowMany(data, f.value, room) > 0
  {
    InsideChain(data, pos);
    FirstFit(data, Cursor(pos, pos, pos), room)
  }

  function ListAt(data: seq<byte>, pos: nat): Cursor
    requires pos + LIST_HEADER <= |data|
  {
    Cursor(pos + LIST_HEADER, pos, pos + ListSize(data, pos))
  }

  lemma {:induction false} FitSame(data: seq<byte>, c: Cursor, room: nat)
    requires Good(data, c) && c.pos >= c.end
    ensures Chain(data, c.pos) && FirstFit(data, c, room) == FitAt(data, c.pos, room)
  {
    hide HowMany, Chain, Get;
  }

  lemma FitStep(data: seq<byte>, pos: nat, room: nat)
    requires Chain(data, pos) && |data| - pos >= MIN_REST
    ensures
      && pos + LIST_HEADER <= |data| && Inside(data, ListAt(data, pos)) && Good(data, ListAt(data, pos))
      && pos < pos + ListSize(data, pos) <= |data| && Chain(data, pos + ListSize(data, pos))
      && FitAt(data, pos, room) ==
        if HowMany(data, ListAt(data, pos), room) > 0 then Some(ListAt(data, pos))
        else FitAt(data, pos + ListSize(data, pos), room)
  {
    hide HowMany, Get;
    var d := ListAt(data, pos);
    FitSame(data, Skipped(data, d), room);
  }

  lemma FitEnds(data: seq<byte>, pos: nat, room: nat)
    requires Chain(data, pos)
    ensures |data| - pos < MIN_REST ==> FitAt(data, pos, room).None?
  {
  }

  /** A first fit from a list's header on lies behind it, and itself begins at a header. */
  lemma {:induction false} FitForward2(data: seq<byte>, pos: nat, room: nat)
    requires Chain(data, pos) && FitAt(data, pos, room).Some?
    ensures
      var f := FitAt(data, pos, room).value;
      pos <= f.list && f.list + LIST_HEADER <= |data| && f == ListAt(data, f.list) && f.end <= |data|
    decreases |data| - pos
  {
    hide Get, FitAt, HowMany, Chain;
    FitEnds(data, pos, room);
    FitStep(data, pos, room);
    if HowMany(data, ListAt(data, pos), room) == 0 {
      FitForward2(data, pos + ListSize(data, pos), room);
    }
  }

  /** Two lists with the same bytes offer the same. */
  lemma SameList(a: seq<byte>, i: nat, b: seq<byte>, j: nat, n: nat)
    requires n >= LIST_HEADER && i + n <= |a| && j + n <= |b| && a[i..i + n] == b[j..j + n]
    ensures Kind(a, i) == Kind(b, j) && ListSize(a, i) == ListSize(b, j) && SigSize(a, i) == SigSize(b, j)
  {
    hide Get;
    FieldsShift(a[i..i + n], a, i, 0);
    FieldsShift(a[i..i + n], b, j, 0);
  }

  lemma Shorter(a: seq<byte>, i: nat, b: seq<byte>, j: nat, n: nat, from: nat, upto: nat)
    requires i + n <= |a| && j + n <= |b| && a[i..i + n] == b[j..j + n] && from <= upto <= n
    ensures a[i + from..i + upto] == b[j + from..j + upto]
  {
    SubSlice(a[i..i + n], a, i, from, upto);
    SubSlice(a[i..i + n], b, j, from, upto);
  }

  lemma SameOffer(a: seq<byte>, i: nat, b: seq<byte>, j: nat, small: nat, large: nat)
    requires i + LIST_HEADER <= |a| && j + LIST_HEADER <= |b| && small <= large
    requires ListSize(a, i) == ListSize(b, j) && SigSize(a, i) == SigSize(b, j)
    requires Inside(a, ListAt(a, i)) && Inside(b, ListAt(b, j)) && Good(b, ListAt(b, j))
    ensures HowMany(b, ListAt(b, j), small) <= HowMany(a, ListAt(a, i), large)
    ensures HowMany(a, ListAt(a, i), large) > 0 ==>
      (HowMany(b, ListAt(b, j), small) > 0 <==> LIST_HEADER + SigSize(a, i) <= small)
  {
    hide Get;
    OneFits(b, ListAt(b, j), small, large);
    assert HowMany(a, ListAt(a, i), large) == HowMany(b, ListAt(b, j), large);
  }

  /** A stretch of lists that two databases share: with less room the first fit is the same if it still fits. */
  lemma {:induction false} SameFit(a: seq<byte>, i: nat, b: seq<byte>, j: nat, n: nat, small: nat, large: nat)
    requires Chain(a, i) && Chain(b, j) && i + n <= |a| && j + n <= |b| && a[i..i + n] == b[j..j + n]
    requires |a| - i <= |b| - j && small <= large && FitAt(a, i, large).Some?
    requires
      var f := FitAt(a, i, large).value;
      f.end <= i + n && f.list + LIST_HEADER <= |a| && LIST_HEADER + SigSize(a, f.list) <= small
    ensures
      var f, g := FitAt(a, i, large).value, FitAt(b, j, small);
      && g.Some? && f.list + LIST_HEADER <= |a| && g.value.list + LIST_HEADER <= |b|
      && f == ListAt(a, f.list) && g.value == ListAt(b, g.value.list)
      && f.end <= |a| && g.value.end <= |b| && g.value.end - g.value.list == f.end - f.list
      && a[f.list..f.end] == b[g.value.list..g.value.end]
    decreases |a| - i
  {
    hide Get, FitAt, HowMany, Chain, Inside, Good, Kind, ListSize, SigSize;
    var f := FitAt(a, i, large).value;
    FitEnds(a, i, large);
    FitForward2(a, i, large);
    FitStep(a, i, large);
    FitStep(b, j, small);
    ListAtFits(a, i);
    Next(a, i, large, f);
    Shorter(a, i, b, j, n, 0, LIST_HEADER);
    SameList(a, i, b, j, LIST_HEADER);
    SameOffer(a, i, b, j, small, large);
    var size := ListSize(a, i);
    Shorter(a, i, b, j, n, 0, size);
    if HowMany(a, ListAt(a, i), large) == 0 {
      Shorter(a, i, b, j, n, size, n);
      SameFit(a, i + size, b, j + size, n - size, small, large);
    }
  }

  lemma ListAtFits(data: seq<byte>, pos: nat)
    requires pos + LIST_HEADER <= |data| && Inside(data, ListAt(data, pos))
    ensures ListSize(data, pos) >= LIST_HEADER
  {
  }

  /** The list at pos ends no later than the first fit's. */
  lemma Next(data: seq<byte>, pos: nat, room: nat, f: Cursor)
    requires Chain(data, pos) && |data| - pos >= MIN_REST && FitAt(data, pos, room) == Some(f)
    ensures pos + LIST_HEADER <= |data| && pos + ListSize(data, pos) <= f.end
    ensures HowMany(data, ListAt(data, pos), room) == 0 || f == ListAt(data, pos)
  {
    hide Get, FitAt, HowMany, Chain, Inside;
    FitStep(data, pos, room);
    if HowMany(data, ListAt(data, pos), room) == 0 {
      FitForward2(data, pos + ListSize(data, pos), room);
      InsideOrder(data, f);
    }
  }

  lemma InsideOrder(data: seq<byte>, f: Cursor)
    requires Inside(data, f)
    ensures f.list + LIST_HEADER <= f.end
  {
  }

  /** Lists of the prefix before the first fit are passed over in the longer database too. */
  lemma {:induction false} PassOver(p: seq<byte>, x: seq<byte>, i: nat, small: nat, large: nat)
    requires Chain(p, i) && Chain(x, 0) && Chain(p + x, 0) && Chain(p + x, i) && Chain(p + (p + x), i) && Chain(p + (p + x), |p|)
    requires small <= large && FitAt(p + x, i, large).Some? && FitAt(p + x, i, large).value.list >= |p|
    ensures FitAt(p + (p + x), i, small) == FitAt(p + (p + x), |p|, small)
    decreases |p| - i
  {
    hide Get, FitAt, HowMany, Chain, Inside, Good, Kind, ListSize, SigSize;
    var a, b := p + x, p + (p + x);
    InsideChain(p, i);
    if i < |p| {
      FitEnds(a, i, large);
      FitStep(a, i, large);
      FitStep(b, i, small);
      ChainStep(p, i);
      assert p[i..i + LIST_HEADER] == a[i..i + LIST_HEADER] && a[i..i + LIST_HEADER] == b[i..i + LIST_HEADER];
      SameList(p, i, a, i, LIST_HEADER);
      SameList(a, i, b, i, LIST_HEADER);
      SameOffer(a, i, b, i, small, large);
      NotHere(a, i, large);
      PassOver(p, x, i + ListSize(p, i), small, large);
    }
  }

  lemma NotHere(data: seq<byte>, pos: nat, room: nat)
    requires Chain(data, pos) && |data| - pos >= MIN_REST && FitAt(data, pos, room).Some?
    ensures pos + LIST_HEADER <= |data|
    ensures FitAt(data, pos, room).value.list > pos ==> HowMany(data, ListAt(data, pos), room) == 0
  {
    hide FitAt, HowMany, Chain, Inside, Get;
    FitStep(data, pos, room);
  }

  /** A first fit among the prefix's lists ends inside the prefix. */
  lemma {:induction false} EndsInside(p: seq<byte>, x: seq<byte>, i: nat, room: nat)
    requires Chain(p, i) && Chain(x, 0) && Chain(p + x, i)
    requires FitAt(p + x, i, room).Some? && FitAt(p + x, i, room).value.list < |p|
    ensures FitAt(p + x, i, room).value.end <= |p|
    decreases |p| - i
  {
    hide Get, FitAt, HowMany, Chain, Inside, Good, Kind, ListSize, SigSize;
    var a := p + x;
    FitForward2(a, i, room);
    InsideChain(p, i);
    FitEnds(a, i, room);
    FitStep(a, i, room);
    ChainStep(p, i);
    assert p[i..i + LIST_HEADER] == a[i..i + LIST_HEADER];
    SameList(p, i, a, i, LIST_HEADER);
    if HowMany(a, ListAt(a, i), room) == 0 {
      EndsInside(p, x, i + ListSize(p, i), room);
    }
  }

  /** If the first database's first fit also fits less room, the second database's first fit is a list with its bytes. */
  lemma SameInBoth(p: seq<byte>, x: seq<byte>, small: nat, large: nat)
    requires Chain(p, 0) && Chain(x, 0) && Chain(p + x, 0) && Chain(p + (p + x), 0)
    requires small <= large && FitAt(p + x, 0, large).Some?
    requires
      var f := FitAt(p + x, 0, large).value;
      f.list + LIST_HEADER <= |p + x| && LIST_HEADER + SigSize(p + x, f.list) <= small
    ensures
      var a, b := p + x, p + (p + x);
      var f, g := FitAt(a, 0, large).value, FitAt(b, 0, small);
      && g.Some? && f.list + LIST_HEADER <= |a| && g.value.list + LIST_HEADER <= |b|
      && f == ListAt(a, f.list) && g.value == ListAt(b, g.value.list)
      && f.end <= |a| && g.value.end <= |b| && g.value.end - g.value.list == f.end - f.list
      && a[f.list..f.end] == b[g.value.list..g.value.end]
  {
    hide Get, FitAt, HowMany, Chain, Inside, Good, Kind, ListSize, SigSize;
    var a, b := p + x, p + (p + x);
    var f := FitAt(a, 0, large).value;
    FitForward2(a, 0, large);
    if f.list < |p| {
      EndsInside(p, x, 0, large);
      assert a[0..0 + |p|] == p && b[0..0 + |p|] == p;
      SameFit(a, 0, b, 0, |p|, small, large);
    } else {
      TailChain(p, a);
      PassOver(p, x, 0, small, large);
      assert a[0..0 + |a|] == a && b[|p|..|p| + |a|] == a;
      SameFit(a, 0, b, |p|, |a|, small, large);
    }
  }

  lemma TailChain(p: seq<byte>, a: seq<byte>)
    requires Chain(a, 0)
    ensures Chain(p + a, |p|)
  {
    hide Chain;
    var b := p + a;
    assert b[|p|..|p| + |a|] == a;
    ChainShift(a, b, |p|, 0);
  }

  // ---------------------------------------------------------------- what the pieces hold

  /** Runs from the start of lists with the same bytes: the shorter is the front of the longer. */
  lemma FrontHeld(a: seq<byte>, f: Cursor, b: seq<byte>, g: Cursor, p: Piece, q: Piece)
    requires f.list + LIST_HEADER <= |a| && g.list + LIST_HEADER <= |b| && f == ListAt(a, f.list) && g == ListAt(b, g.list)
    requires f.end <= |a| && g.end <= |b| && g.end - g.list == f.end - f.list && a[f.list..f.end] == b[g.list..g.end]
    requires f.list + LIST_HEADER <= f.end
    requires !p.Passed? && p.list == f.list && p.at == f.pos && PieceFits(a, p)
    requires !q.Passed? && q.list == g.list && q.at == g.pos && PieceFits(b, q) && q.count <= p.count
    ensures Held(b, q) <= Held(a, p)
  {
    hide Get, Entries, Tag, InList;
    var bytes := a[f.list..f.end];
    SameList(a, f.list, bytes, 0, LIST_HEADER) by { FrontSame(a, f.list, f.end); }
    SameList(b, g.list, bytes, 0, LIST_HEADER) by { FrontSame(b, g.list, g.end); }
    var sz := SigSize(bytes, 0);
    CountMono(q.count, p.count, sz);
    var upto := LIST_HEADER + q.count * sz;
    InListShift(bytes, a, f.list, 0, LIST_HEADER, upto);
    InListShift(bytes, b, g.list, 0, LIST_HEADER, upto);
    InListCut(a, f.list, f.pos, q.count, f.list + upto, PieceEnd(a, p));
  }

  lemma FrontSame(a: seq<byte>, from: nat, upto: nat)
    requires from + LIST_HEADER <= upto <= |a|
    ensures a[from..from + LIST_HEADER] == a[from..upto][0..0 + LIST_HEADER]
  {
  }

  lemma CountMono(a: nat, b: nat, m: nat)
    requires a <= b
    ensures a * m <= b * m
  {
    if a < b && m > 0 { MulGap(b, a, m); }
  }

  /** A nonempty run holds signatures of its list's size. */
  lemma HeldSize(data: seq<byte>, p: Piece)
    requires PieceFits(data, p) && !p.Passed? && p.count > 0
    ensures Held(data, p) != [] && Held(data, p)[0] in Held(data, p)
    ensures forall sig :: sig in Held(data, p) ==> |sig.entry| == SigSize(data, p.list)
  {
    hide Get, Kind;
    var sz := SigSize(data, p.list);
    MulAtLeast(p.count, sz);
    FirstEntry(data[p.at..PieceEnd(data, p)], sz);
    EntrySizes(data, p);
  }

  lemma EntrySizes(data: seq<byte>, p: Piece)
    requires PieceFits(data, p)
    ensures forall sig :: sig in Held(data, p) ==> |sig.entry| == SigSize(data, p.list)
  {
    hide Get, Kind;
  }

  lemma FirstEntry(bytes: seq<byte>, sz: nat)
    requires 0 < sz <= |bytes|
    ensures Entries(bytes, sz) != [] && |Entries(bytes, sz)[0]| == sz
  {
  }

  // ---------------------------------------------------------------- the law

  /** The sources are well formed, and their certificates fit a list. */
  predicate Sound(s: Sources) {
    && s.keyDb && FieldsFit(s) && Chain(s.userCerts, 0) && Chain(s.data, 0)
    && (s.addend.Database? ==> Chain(s.addend.bytes, 0))
  }

  /** Firmware that keeps offering `max` and stores everything it is given. */
  ghost predicate Steady(fw: nat -> Reply, max: nat) { forall n :: fw(n) == Reply(Some(max), true) }

  /** The variables a run asks for under such firmware. */
  function AskedFor(data: seq<byte>, name: nat, fw: nat -> Reply, max: nat, onlyFirst: bool): seq<Variable>
    requires Chain(data, 0)
  {
    Asked(data, name, Space(max), fw, onlyFirst, true).1
  }

  /** One of the variables lists the signature. */
  predicate InVariables(asked: seq<Variable>, sig: Signature) {
    exists k :: 0 <= k < |asked| && Lists(asked[k], sig)
  }

  predicate Lists(v: Variable, sig: Signature) { Chain(v.bytes, 0) && sig in Signatures(v.bytes, 0) }

  /** The second run takes the signature for stored: all of them in a database that fits whole, otherwise its first fit. */
  predicate TakenForStored(data: seq<byte>, name: nat, fw: nat -> Reply, max: nat, sig: Signature)
    requires Chain(data, 0)
  {
    if |data| <= max then sig in Signatures(data, 0)
    else
      var pieces := RunOver(data, name, fw, false).pieces;
      exists k :: 0 <= k < |pieces| && pieces[k].Already? && sig in Held(data, pieces[k])
  }

  /** What the second run takes for stored, the first run stored. */
  ghost predicate Covered(s: Sources, name: nat, fw: nat -> Reply, max: nat)
    requires Chain(Composed(s), 0) && Chain(ComposedAgain(s), 0)
  {
    forall sig: Signature :: TakenForStored(ComposedAgain(s), name, fw, max, sig) ==>
      InVariables(AskedFor(Composed(s), name, fw, max, true), sig)
  }

  /** The first signature that fits beside the plain name also fits beside a numbered one, or nothing does. */
  predicate FitsBoth(data1: seq<byte>, data2: seq<byte>, name: nat, max: nat)
    requires Chain(data1, 0) && Chain(data2, 0)
  {
    var f, g := FitAt(data1, 0, Room(max, name)), FitAt(data2, 0, Room(max, name + 1));
    g.None? || (f.Some? && f.value.list + LIST_HEADER <= |data1|
                && LIST_HEADER + SigSize(data1, f.value.list) <= Room(max, name + 1))
  }

  lemma StartFits(data: seq<byte>, room: nat)
    requires Chain(data, 0)
    ensures Good(data, START) && FirstFit(data, START, room) == FitAt(data, 0, room)
  {
  }

  /**
   Over the databases of the two runs, with steady firmware: what the second run takes for stored was
   stored by the first if and only if the first database fits whole, or the first signature to fit beside
   the plain name also fits beside a numbered one, or nothing in the second database does.
   */
  lemma CoveredIff(s: Sources, name: nat, fw: nat -> Reply, max: nat)
    requires Sound(s) && Steady(fw, max)
    ensures Chain(Composed(s), 0) && Chain(ComposedAgain(s), 0)
    ensures Covered(s, name, fw, max) <==> |Composed(s)| <= max || FitsBoth(Composed(s), ComposedAgain(s), name, max)
  {
    hide Chain, Composed, ComposedAgain, FitsBoth, Sound, Steady, AskedFor, TakenForStored, InVariables;
    ListedAgainSound(s);
    if |Composed(s)| <= max {
      forall sig: Signature | TakenForStored(ComposedAgain(s), name, fw, max, sig)
        ensures InVariables(AskedFor(Composed(s), name, fw, max, true), sig)
      {
        TakenListed(ComposedAgain(s), name, fw, max, sig);
        TwiceListed(s, sig);
        WholeHolds(Composed(s), name, fw, max, sig);
      }
    } else {
      SplitCovered(s, name, fw, max);
    }
  }

  lemma ListedAgainSound(s: Sources)
    requires Sound(s)
    ensures Chain(Composed(s), 0) && Chain(ComposedAgain(s), 0) && |ComposedAgain(s)| >= |Composed(s)|
  {
    hide Chain, Composed, ComposedAgain, Prefix, OwnData;
    ListedAgain(s);
    ComposedParts(s);
  }

  /** The second database lists nothing that the first does not. */
  lemma TwiceListed(s: Sources, sig: Signature)
    requires Sound(s)
    ensures Chain(Composed(s), 0) && Chain(ComposedAgain(s), 0)
    ensures sig in Signatures(ComposedAgain(s), 0) <==> sig in Signatures(Composed(s), 0)
  {
    hide Chain, Composed, ComposedAgain, Signatures, PrefixLists, OwnData;
    ListedAgain(s);
  }

  lemma WholeHolds(data: seq<byte>, name: nat, fw: nat -> Reply, max: nat, sig: Signature)
    requires Chain(data, 0) && |data| <= max && sig in Signatures(data, 0)
    ensures InVariables(AskedFor(data, name, fw, max, true), sig)
  {
    hide Chain, Signatures;
    var asked := AskedFor(data, name, fw, max, true);
    assert asked == [Variable(0, data)];
    assert Lists(asked[0], sig);
  }

  // ---------------------------------------------------------------- signatures of a pass

  lemma {:induction false} HeldInAll(data: seq<byte>, pieces: seq<Piece>, sig: Signature)
    requires AllFit(data, pieces)
    ensures sig in AllHeld(data, pieces) <==> exists k :: 0 <= k < |pieces| && sig in Held(data, pieces[k])
    decreases |pieces|
  {
    hide PieceFits, Held;
    if pieces != [] {
      var rest := pieces[1..];
      assert forall k :: 0 <= k < |rest| ==> rest[k] == pieces[k + 1];
      HeldInAll(data, rest, sig);
      if exists k :: 0 <= k < |pieces| && sig in Held(data, pieces[k]) {
        var k :| 0 <= k < |pieces| && sig in Held(data, pieces[k]);
        if k > 0 { assert rest[k - 1] == pieces[k]; }
      }
    }
  }

  /** The database's signatures are those of the run's pieces and those it does not reach. */
  lemma RunLists(data: seq<byte>, name: nat, fw: nat -> Reply, onlyFirst: bool, sig: Signature)
    requires Chain(data, 0)
    ensures
      var log := RunOver(data, name, fw, onlyFirst);
      && Good(data, log.last)
      && (sig in Signatures(data, 0) <==>
            (exists k :: 0 <= k < |log.pieces| && sig in Held(data, log.pieces[k])) || sig in Rest(data, log.last))
  {
    hide Chain, Pass, Held, AllHeld, Signatures, PieceFits;
    var log := RunOver(data, name, fw, onlyFirst);
    BeginGood(data);
    PassConserves(data, START, 0, 0, name, fw, onlyFirst);
    RestAtStart(data);
    HeldInAll(data, log.pieces, sig);
    var all, rest := AllHeld(data, log.pieces), Rest(data, log.last);
    assert Signatures(data, 0) == all + rest;
  }

  lemma RestAtStart(data: seq<byte>)
    requires Chain(data, 0)
    ensures Good(data, START) && Rest(data, START) == Signatures(data, 0)
  {
    hide Signatures, Chain;
    assert [] + Signatures(data, 0) == Signatures(data, 0);
  }

  lemma TakenListed(data: seq<byte>, name: nat, fw: nat -> Reply, max: nat, sig: Signature)
    requires Chain(data, 0) && TakenForStored(data, name, fw, max, sig)
    ensures sig in Signatures(data, 0)
  {
    hide Chain, RunOver, Held, Signatures, Rest, PieceFits;
    RunLists(data, name, fw, false, sig);
  }

  lemma {:induction false} SteadyFinishes(data: seq<byte>, c: Cursor, i: nat, step: nat, name: nat, fw: nat -> Reply, max: nat, onlyFirst: bool)
    requires Good(data, c) && Steady(fw, max)
    ensures Pass(data, c, i, step, name, fw, onlyFirst).end.Finished?
    decreases |data| - c.pos
  {
    hide Get, Pass, Chain, PieceFits, Room, NameLen, HowMany, Inside, Taken, Skipped, Enter, Good;
    PassEnds(data, c, i, step, name, fw, onlyFirst);
    if |data| - c.pos >= MIN_REST {
      assert fw(step) == Reply(Some(max), true);
      PassStep(data, c, i, step, name, fw, onlyFirst);
      var d := Enter(data, c);
      var count := HowMany(data, d, Room(max, NameLen(name, i, onlyFirst)));
      if count == 0 {
        SteadyFinishes(data, Skipped(data, d), i, step + 1, name, fw, max, onlyFirst);
      } else if !onlyFirst {
        SteadyFinishes(data, Taken(data, d, count), i + 1, step + 1, name, fw, max, onlyFirst);
      }
    }
  }

  lemma RunFinishes(data: seq<byte>, name: nat, fw: nat -> Reply, max: nat, onlyFirst: bool)
    requires Chain(data, 0) && Steady(fw, max)
    ensures RunOver(data, name, fw, onlyFirst).end.Finished?
  {
    hide Chain, Pass, Steady;
    BeginGood(data);
    SteadyFinishes(data, START, 0, 0, name, fw, max, onlyFirst);
  }

  lemma {:induction false} PassedVariables(data: seq<byte>, pieces: seq<Piece>)
    requires AllFit(data, pieces) && AllPassed(pieces)
    ensures Variables(data, pieces) == []
    decreases |pieces|
  {
    hide PieceFits;
    if pieces != [] {
      var rest := pieces[1..];
      assert forall k :: 0 <= k < |rest| ==> rest[k] == pieces[k + 1];
      PassedVariables(data, rest);
    }
  }

  /** A variable of the run lists exactly its piece's signatures. */
  lemma OneVariableLists(data: seq<byte>, p: Piece, sig: Signature)
    requires PieceFits(data, p) && p.Mirrored?
    ensures Lists(VariableOf(data, p), sig) <==> sig in Held(data, p)
  {
    hide PieceFits, VariableOf, Held, Chain, Signatures;
    VariableHolds(data, p);
  }

  /** What the first run's loop asks for: its first fit, or the stand-in. */
  lemma FirstAsked(data: seq<byte>, name: nat, fw: nat -> Reply, max: nat) returns (p: Option<Piece>)
    requires Chain(data, 0) && Steady(fw, max) && |data| > max
    ensures
      var f := FitAt(data, 0, Room(max, name));
      && (p.Some? <==> f.Some?)
      && (p.None? ==> AskedFor(data, name, fw, max, true) == [Dummy()])
      && (p.Some? ==>
            && p.value.Mirrored? && p.value.list == f.value.list && p.value.at == f.value.pos
            && PieceFits(data, p.value) && p.value.count == HowMany(data, f.value, Room(max, name))
            && AskedFor(data, name, fw, max, true) == [VariableOf(data, p.value)])
  {
    hide Get, Pass, Chain, Inside, Good, FirstFit, FitAt, HowMany, Numbered, PieceFits, Variables, VariableOf, Dummy;
    BeginGood(data);
    StartFits(data, Room(max, name));
    var pieces := RunOver(data, name, fw, true).pieces;
    RunFinishes(data, name, fw, max, true);
    var j := FirstPiece(data, START, 0, name, fw, max, true);
    assert NameLen(name, 0, true) == name;
    assert forall m :: 0 <= m < j ==> pieces[..j][m] == pieces[m];
    PassedVariables(data, pieces[..j]);
    if j < |pieces| {
      p := Some(pieces[j]);
      VariablesAppend(data, pieces[..j], pieces[j]);
      assert pieces == pieces[..j] + [pieces[j]];
      assert [] + [VariableOf(data, pieces[j])] == [VariableOf(data, pieces[j])];
      assert Stored(data, pieces[j]) == [VariableOf(data, pieces[j])];
    } else {
      p := None;
      assert pieces[..j] == pieces;
    }
  }

  /** What the second run's loop takes for stored: its first fit. */
  lemma SecondTakes(data: seq<byte>, name: nat, fw: nat -> Reply, max: nat) returns (q: Option<Piece>)
    requires Chain(data, 0) && Steady(fw, max) && |data| > max
    ensures
      var g := FitAt(data, 0, Room(max, name + 1));
      && (q.Some? <==> g.Some?)
      && (q.Some? ==>
            && q.value.Already? && q.value.list == g.value.list && q.value.at == g.value.pos
            && PieceFits(data, q.value) && q.value.count == HowMany(data, g.value, Room(max, name + 1)))
      && forall sig: Signature :: TakenForStored(data, name, fw, max, sig) <==> q.Some? && sig in Held(data, q.value)
  {
    hide Get, Pass, Chain, Inside, Good, FirstFit, FitAt, HowMany, Numbered, PieceFits, Held;
    BeginGood(data);
    StartFits(data, Room(max, name + 1));
    var pieces := RunOver(data, name, fw, false).pieces;
    var k := FirstPiece(data, START, 0, name, fw, max, false);
    assert NameLen(name, 0, false) == name + 1;
    OnlyAlready(pieces, k);
    if k < |pieces| { q := Some(pieces[k]); } else { q := None; }
  }

  /** Nothing fits the first database, but something the second: it lies in the prefix's last bytes, and is short. */
  lemma {:induction false} OnlyAgainFits(p: seq<byte>, x: seq<byte>, i: nat, small: nat, large: nat)
    requires Chain(p, i) && Chain(x, 0) && Chain(p + x, i) && Chain(p + (p + x), i) && Chain(p + (p + x), |p|)
    requires small <= large && FitAt(p + x, i, large).None? && FitAt(p + (p + x), i, small).Some?
    requires FitAt(p + (p + x), |p|, small).Some? ==> SigSizeOf(p + (p + x), FitAt(p + (p + x), |p|, small).value) <= 36
    ensures SigSizeOf(p + (p + x), FitAt(p + (p + x), i, small).value) <= 36
    decreases |p| - i
  {
    hide Get, FitAt, HowMany, Chain, Inside, Good, Kind, ListSize, SigSize;
    var a, b := p + x, p + (p + x);
    InsideChain(p, i);
    if i < |p| {
      FitEnds(b, i, small);
      FitStep(b, i, small);
      ChainStep(p, i);
      SharedFront(p, x, i);
      if |a| - i >= MIN_REST {
        FitStep(a, i, large);
        SameOffer(a, i, b, i, small, large);
        OnlyAgainFits(p, x, i + ListSize(p, i), small, large);
      } else if HowMany(b, ListAt(b, i), small) > 0 {
        ShortSignature(b, i, small);
        SigSizeAt(b, i);
      } else {
        ChainStep(a, i);
        NoneBehind(a, i + ListSize(p, i), large);
        OnlyAgainFits(p, x, i + ListSize(p, i), small, large);
      }
    }
  }

  lemma SharedFront(p: seq<byte>, x: seq<byte>, i: nat)
    requires i + LIST_HEADER <= |p|
    ensures ListSize(p + x, i) == ListSize(p, i) && ListSize(p + (p + x), i) == ListSize(p, i)
    ensures SigSize(p + x, i) == SigSize(p + (p + x), i)
  {
    hide Get;
    var a, b := p + x, p + (p + x);
    assert p[i..i + LIST_HEADER] == a[i..i + LIST_HEADER] && a[i..i + LIST_HEADER] == b[i..i + LIST_HEADER];
    SameList(p, i, a, i, LIST_HEADER);
    SameList(a, i, b, i, LIST_HEADER);
  }

  lemma NoneBehind(data: seq<byte>, pos: nat, room: nat)
    requires Chain(data, pos) && |data| - pos < MIN_REST
    ensures FitAt(data, pos, room).None?
  {
    FitEnds(data, pos, room);
  }

  function SigSizeOf(data: seq<byte>, f: Cursor): nat { if f.list + LIST_HEADER <= |data| then SigSize(data, f.list) else 0 }

  lemma SigSizeAt(data: seq<byte>, pos: nat)
    requires pos + LIST_HEADER <= |data|
    ensures SigSizeOf(data, ListAt(data, pos)) == SigSize(data, pos)
  {
  }

  /** A list that offers a signature is at least as long as it. */
  lemma ShortSignature(data: seq<byte>, pos: nat, room: nat)
    requires pos + LIST_HEADER <= |data| && Inside(data, ListAt(data, pos)) && HowMany(data, ListAt(data, pos), room) > 0
    ensures LIST_HEADER + SigSize(data, pos) <= ListSize(data, pos)
  {
    hide Get;
    MulAtLeast(HowMany(data, ListAt(data, pos), room), SigSize(data, pos));
  }

  lemma FitFits(data: seq<byte>, room: nat)
    requires Chain(data, 0) && FitAt(data, 0, room).Some?
    ensures
      var f := FitAt(data, 0, room).value;
      && Inside(data, f) && Good(data, f) && HowMany(data, f, room) > 0
      && f.list + LIST_HEADER <= f.end <= |data| && f == ListAt(data, f.list)
      && LIST_HEADER + SigSize(data, f.list) <= room
  {
    hide FitAt, Chain, Get, Take;
    FitForward2(data, 0, room);
    var f := FitAt(data, 0, room).value;
    OneFits(data, f, room, room);
  }

  /** The two first pieces: the first run's holds the second run's exactly when its list fits less room. */
  lemma OneCovered(s: Sources, p: Piece, q: Piece, small: nat, large: nat)
    requires Sound(s) && small <= large && Chain(Composed(s), 0) && Chain(ComposedAgain(s), 0)
    requires FitAt(Composed(s), 0, large).Some? && FitAt(ComposedAgain(s), 0, small).Some?
    requires
      var f, g := FitAt(Composed(s), 0, large).value, FitAt(ComposedAgain(s), 0, small).value;
      && p.Mirrored? && p.list == f.list && p.at == f.pos && PieceFits(Composed(s), p) && Inside(Composed(s), f) && p.count == HowMany(Composed(s), f, large)
      && q.Already? && q.list == g.list && q.at == g.pos && PieceFits(ComposedAgain(s), q) && Inside(ComposedAgain(s), g)
      && q.count == HowMany(ComposedAgain(s), g, small)
    ensures
      (forall sig: Signature :: sig in Held(ComposedAgain(s), q) ==> sig in Held(Composed(s), p)) <==>
        LIST_HEADER + SigSize(Composed(s), FitAt(Composed(s), 0, large).value.list) <= small
  {
    hide Get, Chain, Inside, Good, FitAt, HowMany, Composed, ComposedAgain, Prefix, OwnData, Held, FieldsFit, SigSize;
    var data1, data2 := Composed(s), ComposedAgain(s);
    FitFits(data1, large);
    FitFits(data2, small);
    HeldSize(data1, p);
    HeldSize(data2, q);
    var f, g := FitAt(data1, 0, large).value, FitAt(data2, 0, small).value;
    if LIST_HEADER + SigSize(data1, f.list) <= small {
      ListedAgain(s);
      ComposedParts(s);
      SoundPrefix(s);
      SameInBoth(Prefix(s), OwnData(s), small, large);
      SameCounts(data1, f, data2, g, small, large);
      FrontHeld(data1, f, data2, g, p, q);
    }
  }

  lemma SoundPrefix(s: Sources)
    requires Sound(s)
    ensures Chain(Prefix(s), 0)
  {
    hide Chain;
    PrefixChain(s);
  }

  lemma SameCounts(a: seq<byte>, f: Cursor, b: seq<byte>, g: Cursor, small: nat, large: nat)
    requires f.list + LIST_HEADER <= |a| && g.list + LIST_HEADER <= |b| && f == ListAt(a, f.list) && g == ListAt(b, g.list)
    requires f.list + LIST_HEADER <= f.end <= |a| && g.end <= |b| && g.end - g.list == f.end - f.list
    requires a[f.list..f.end] == b[g.list..g.end] && Inside(a, f) && Inside(b, g) && Good(b, g) && small <= large
    ensures HowMany(b, g, small) <= HowMany(a, f, large)
  {
    hide Get, HowMany;
    var bytes := a[f.list..f.end];
    SameList(a, f.list, bytes, 0, LIST_HEADER) by { FrontSame(a, f.list, f.end); }
    SameList(b, g.list, bytes, 0, LIST_HEADER) by { FrontSame(b, g.list, g.end); }
    SameOffer(a, f.list, b, g.list, small, large);
  }

  /** Where nothing fits the first database, nothing fits its copy behind the prefix. */
  lemma {:induction false} NoneAgain(p: seq<byte>, a: seq<byte>, i: nat, small: nat, large: nat)
    requires Chain(a, i) && Chain(p + a, |p| + i) && small <= large && FitAt(a, i, large).None?
    ensures FitAt(p + a, |p| + i, small).None?
    decreases |a| - i
  {
    hide Get, FitAt, HowMany, Chain, Inside, Good, Kind, ListSize, SigSize;
    var b := p + a;
    FitEnds(b, |p| + i, small);
    if |a| - i >= MIN_REST {
      FitStep(a, i, large);
      FitStep(b, |p| + i, small);
      assert a[i..i + LIST_HEADER] == b[|p| + i..|p| + i + LIST_HEADER];
      SameList(a, i, b, |p| + i, LIST_HEADER);
      SameOffer(a, i, b, |p| + i, small, large);
      NoneAgain(p, a, i + ListSize(a, i), small, large);
    }
  }

  /** What fits only the second database is shorter than the stand-in's signature. */
  lemma AgainIsShort(s: Sources, small: nat, large: nat)
    requires Sound(s) && small <= large && Chain(Composed(s), 0) && Chain(ComposedAgain(s), 0)
    requires FitAt(Composed(s), 0, large).None? && FitAt(ComposedAgain(s), 0, small).Some?
    ensures SigSizeOf(ComposedAgain(s), FitAt(ComposedAgain(s), 0, small).value) <= 36
  {
    hide Chain, FitAt, Composed, ComposedAgain, Prefix, OwnData, FieldsFit, SigSizeOf;
    ListedAgain(s);
    ComposedParts(s);
    SoundPrefix(s);
    var p, x := Prefix(s), OwnData(s);
    TailChain(p, p + x);
    NoneAgain(p, p + x, 0, small, large);
    OnlyAgainFits(p, x, 0, small, large);
  }

  /** The stand-in lists one signature of 48 bytes. */
  lemma DummyLists(sig: Signature)
    requires Lists(Dummy(), sig)
    ensures |sig.entry| == 48
  {
    hide Header, Chain, Signatures;
    OneSignatureLists(SHA256, seq(32, i => 0));
  }

  /** When the first database does not fit whole, the two first fits decide. */
  lemma SplitCovered(s: Sources, name: nat, fw: nat -> Reply, max: nat)
    requires Sound(s) && Steady(fw, max) && Chain(Composed(s), 0) && Chain(ComposedAgain(s), 0) && |Composed(s)| > max
    ensures Covered(s, name, fw, max) <==> FitsBoth(Composed(s), ComposedAgain(s), name, max)
  {
    hide Get, Chain, Inside, Good, FitAt, HowMany, Composed, ComposedAgain, Prefix, OwnData, Held, FieldsFit, PieceFits,
      Steady, AskedFor, TakenForStored, VariableOf, Signatures, Lists, Sound, Dummy;
    ListedAgainSound(s);
    var data1, data2 := Composed(s), ComposedAgain(s);
    var large, small := Room(max, name), Room(max, name + 1);
    var asked := AskedFor(data1, name, fw, max, true);
    var p := FirstAsked(data1, name, fw, max);
    var q := SecondTakes(data2, name, fw, max);
    if q.Some? {
      FitFits(data2, small);
      HeldSize(data2, q.value);
      var one := Held(data2, q.value)[0];
      if p.Some? {
        FitFits(data1, large);
        OneCovered(s, p.value, q.value, small, large);
        forall sig: Signature ensures InVariables(asked, sig) <==> sig in Held(data1, p.value) {
          OneVariableLists(data1, p.value, sig);
          assert asked[0] == VariableOf(data1, p.value);
        }
        ByMembers(s, name, fw, max, q.value, asked, p.value);
      } else {
        AgainIsShort(s, small, large);
        SigSizeIs(data2, FitAt(data2, 0, small).value);
        assert TakenForStored(data2, name, fw, max, one);
        if InVariables(asked, one) {
          DummyLists(one);
          assert false;
        }
      }
    }
  }

  lemma SigSizeIs(data: seq<byte>, f: Cursor)
    requires f.list + LIST_HEADER <= |data|
    ensures SigSizeOf(data, f) == SigSize(data, f.list)
  {
  }

  /** Both sides as members of the two runs' first pieces. */
  lemma ByMembers(s: Sources, name: nat, fw: nat -> Reply, max: nat, q: Piece, asked: seq<Variable>, p: Piece)
    requires Chain(Composed(s), 0) && Chain(ComposedAgain(s), 0) && asked == AskedFor(Composed(s), name, fw, max, true)
    requires PieceFits(ComposedAgain(s), q) && PieceFits(Composed(s), p)
    requires forall sig: Signature :: TakenForStored(ComposedAgain(s), name, fw, max, sig) <==> sig in Held(ComposedAgain(s), q)
    requires forall sig: Signature :: InVariables(asked, sig) <==> sig in Held(Composed(s), p)
    ensures Covered(s, name, fw, max) <==> forall sig: Signature :: sig in Held(ComposedAgain(s), q) ==> sig in Held(Composed(s), p)
  {
    hide Chain, Composed, ComposedAgain, Held, PieceFits, AskedFor, TakenForStored, InVariables;
  }

  // ---------------------------------------------------------------- nothing is lost

  /** The second run passes the signature over because it does not fit beside the name it would get. */
  predicate TooLarge(data: seq<byte>, name: nat, fw: nat -> Reply, sig: Signature)
    requires Chain(data, 0)
  {
    var pieces := RunOver(data, name, fw, false).pieces;
    exists k :: 0 <= k < |pieces| && pieces[k].Passed? && sig in Held(data, pieces[k])
                && LIST_HEADER + |sig.entry| > RoomOf(pieces[k], name, fw, false)
  }

  /**
   If what the second run takes for stored was stored, every signature of the variable is in a variable of
   one of the two runs, or too large for one, or among the last 64 bytes, where the loop stops.
   */
  lemma NothingLost(s: Sources, name: nat, fw: nat -> Reply, max: nat, sig: Signature)
    requires Sound(s) && Steady(fw, max) && Chain(Composed(s), 0) && Chain(ComposedAgain(s), 0)
    requires Covered(s, name, fw, max) && sig in Signatures(Composed(s), 0)
    ensures
      var data2, log := ComposedAgain(s), RunOver(ComposedAgain(s), name, fw, false);
      || InVariables(AskedFor(Composed(s), name, fw, max, true), sig)
      || InVariables(AskedFor(data2, name, fw, max, false), sig)
      || TooLarge(data2, name, fw, sig)
      || (Good(data2, log.last) && sig in Rest(data2, log.last) && |data2| - log.last.pos < MIN_REST)
  {
    hide Get, Chain, Good, Composed, ComposedAgain, Held, PieceFits, Steady, VariableOf, Signatures, Lists, Sound, Rest, Pass, InVariables,
      AskedFor, TakenForStored, RoomOf, Sized;
    ListedAgainSound(s);
    var data2 := ComposedAgain(s);
    if |Composed(s)| <= max {
      WholeHolds(Composed(s), name, fw, max, sig);
    } else {
      TwiceListed(s, sig);
      RunLists(data2, name, fw, false, sig);
      RunFinishes(data2, name, fw, max, false);
      RunLaws(data2, name, fw);
      var log := RunOver(data2, name, fw, false);
      if k :| 0 <= k < |log.pieces| && sig in Held(data2, log.pieces[k]) {
        var p := log.pieces[k];
        match p {
          case Mirrored(_, _, _, _, _) => MirroredAsked(data2, name, fw, max, k, sig);
          case Already(_, _, _, _, _) => AlreadyTaken(data2, name, fw, max, k, sig);
          case Passed(_, _, _, _, _) => PassedTooLarge(data2, p, RoomOf(p, name, fw, false), sig);
        }
      }
    }
  }

  lemma RunLaws(data: seq<byte>, name: nat, fw: nat -> Reply)
    requires Chain(data, 0)
    ensures
      var log := RunOver(data, name, fw, false);
      && (forall k :: 0 <= k < |log.pieces| ==>
            PieceFits(data, log.pieces[k]) && Sized(data, log.pieces[k], RoomOf(log.pieces[k], name, fw, false)))
      && (log.end.Finished? ==> |data| - log.last.pos < MIN_REST)
  {
    hide Chain, Pass, PieceFits, Sized, RoomOf;
    BeginGood(data);
    PassLaws(data, START, 0, 0, name, fw, false);
  }

  lemma AlreadyTaken(data: seq<byte>, name: nat, fw: nat -> Reply, max: nat, k: nat, sig: Signature)
    requires Chain(data, 0) && |data| > max && k < |RunOver(data, name, fw, false).pieces|
    requires RunOver(data, name, fw, false).pieces[k].Already? && sig in Held(data, RunOver(data, name, fw, false).pieces[k])
    ensures TakenForStored(data, name, fw, max, sig)
  {
    hide Chain, RunOver, Held, PieceFits;
  }

  lemma MirroredAsked(data: seq<byte>, name: nat, fw: nat -> Reply, max: nat, k: nat, sig: Signature)
    requires Chain(data, 0) && |data| > max && k < |RunOver(data, name, fw, false).pieces|
    requires RunOver(data, name, fw, false).pieces[k].Mirrored? && sig in Held(data, RunOver(data, name, fw, false).pieces[k])
    ensures InVariables(AskedFor(data, name, fw, max, false), sig)
  {
    hide Chain, RunOver, Held, PieceFits, Variables, VariableOf, Lists;
    var pieces := RunOver(data, name, fw, false).pieces;
    OneVariableLists(data, pieces[k], sig);
    var m := VariableAmong(data, pieces, k);
    assert AskedFor(data, name, fw, max, false) == Variables(data, pieces);
  }

  lemma {:induction false} VariableAmong(data: seq<byte>, pieces: seq<Piece>, k: nat) returns (m: nat)
    requires AllFit(data, pieces) && k < |pieces| && pieces[k].Mirrored?
    ensures m < |Variables(data, pieces)| && Variables(data, pieces)[m] == VariableOf(data, pieces[k])
    decreases |pieces|
  {
    hide PieceFits, VariableOf;
    var rest := pieces[1..];
    assert forall i :: 0 <= i < |rest| ==> rest[i] == pieces[i + 1];
    if k == 0 {
      m := 0;
    } else {
      m := VariableAmong(data, rest, k - 1);
      m := m + |Stored(data, pieces[0])|;
    }
  }

  /** A skipped rest that holds a signature holds one that does not fit. */
  lemma PassedTooLarge(data: seq<byte>, p: Piece, room: nat, sig: Signature)
    requires PieceFits(data, p) && p.Passed? && Sized(data, p, room) && sig in Held(data, p)
    ensures LIST_HEADER + |sig.entry| > room
  {
    hide Get, Kind, Entries;
    EntrySizes(data, p);
    if |data[p.at..p.upto]| < SigSize(data, p.list) { ShortEntries(data[p.at..p.upto], SigSize(data, p.list)); }
  }

  // ---------------------------------------------------------------- a loss

  /** A list of one SHA-256 signature, then a list of one SHA-224 signature. */
  predicate TwoLists(data: seq<byte>) {
    && |data| == 148 && Chain(data, 0)
    && Kind(data, 0) == SHA256 && ListSize(data, 0) == 76 && SigSize(data, 0) == 48
    && Kind(data, 76) == SHA224 && ListSize(data, 76) == 72 && SigSize(data, 76) == 44
  }

  lemma PrintTwoLists(data: seq<byte>, entry256: seq<byte>, entry224: seq<byte>)
    requires |entry256| == 48 && |entry224| == 44
    requires data == Header(SHA256, 76, 48) + (entry256 + (Header(SHA224, 72, 44) + entry224))
    ensures TwoLists(data) && data[104..148] == entry224
  {
    hide Get, Header, At;
    TwoHeaders(data, Header(SHA256, 76, 48), entry256, Header(SHA224, 72, 44), entry224);
    HeaderWords(data, 0, SHA256, 76, 48);
    HeaderWords(data, 76, SHA224, 72, 44);
    assert Chain(data, 148);
    assert Chain(data, 76);
    assert Chain(data, 0);
    TailIs(data, entry224);
  }

  lemma TwoHeaders(data: seq<byte>, a: seq<byte>, b: seq<byte>, c: seq<byte>, d: seq<byte>)
    requires data == a + (b + (c + d))
    ensures At(data, 0, a) && At(data, |a| + |b|, c) && At(data, |a| + |b| + |c|, d)
  {
    AtSplit(data, 0, a, b + (c + d)) by { assert At(data, 0, data); }
    AtSplit(data, |a|, b, c + d);
    AtSplit(data, |a| + |b|, c, d);
  }

  lemma TailIs(data: seq<byte>, entry: seq<byte>)
    requires |data| == 148 && |entry| == 44 && At(data, 104, entry)
    ensures data[104..148] == entry
  {
  }

  /** The two loops when one 48-byte signature just fits beside the plain name. */
  lemma TwoRuns(data: seq<byte>, name: nat, fw: nat -> Reply)
    requires TwoLists(data) && Steady(fw, 76 + 2 * (name + 1))
    ensures RunOver(data, name, fw, true) == Log([Mirrored(0, 0, 0, 28, 1)], Cursor(76, 0, 76), Finished)
    ensures RunOver(data, name, fw, false) ==
      Log([Passed(0, 0, 0, 28, 76), Already(1, 0, 76, 104, 1)], Cursor(148, 76, 148), Finished)
  {
    hide Get, Pass, HowMany;
    var max := 76 + 2 * (name + 1);
    var one, two, three := Cursor(28, 0, 76), Cursor(76, 0, 76), Cursor(104, 76, 148);
    assert fw(0) == Reply(Some(max), true) && fw(1) == Reply(Some(max), true);
    assert NameLen(name, 0, true) == name && NameLen(name, 0, false) == name + 1;
    assert Room(max, name) == 76 && Room(max, name + 1) == 74;
    assert Enter(data, START) == one && Skipped(data, one) == two && Enter(data, two) == three;
    TakeOne(data, one, 76);
    TakeOne(data, one, 74);
    TakeOne(data, three, 74);
    assert Taken(data, one, 1) == Cursor(76, 0, 76) && Taken(data, three, 1) == Cursor(148, 76, 148);
    PassStep(data, START, 0, 0, name, fw, true);
    PassStep(data, START, 0, 0, name, fw, false);
    PassStep(data, two, 0, 1, name, fw, false);
    PassEnds(data, Cursor(148, 76, 148), 1, 2, name, fw, false);
  }

  lemma TakeOne(data: seq<byte>, d: Cursor, room: nat)
    requires Inside(data, d) && d.end - d.pos == SigSize(data, d.list)
    ensures HowMany(data, d, room) == if LIST_HEADER + SigSize(data, d.list) <= room then 1 else 0
  {
    var sz := SigSize(data, d.list);
    var n := Take(sz, sz, room);
    if n > 0 { MulAtLeast(n, sz); }
    if n > 1 { MulGap(n, 1, sz); }
  }

  /** Nothing the build adds: both runs work on the variable's own data. */
  lemma NothingAdded(data: seq<byte>)
    requires data != [] && Chain(data, 0)
    ensures
      var s := Sources(true, NoAddend, None, [], data);
      Sound(s) && Composed(s) == data && ComposedAgain(s) == data
  {
    var s := Sources(true, NoAddend, None, [], data);
    assert [] + ([] + ([] + data)) == data;
    assert Composed(s) == data;
    assert s.(data := Composed(s)) == s;
  }

  /**
   A variable that loses a hash, for any name short enough that it does not fit whole: one SHA-256 hash
   that fits exactly beside the plain name, then one SHA-224 hash that fits either way, and nothing added by
   the build.  For "MokListRT" the firmware offers 96 bytes, for "MokListXRT" 98.  The first run stores the
   SHA-256 hash; the second skips its list for want of two bytes and takes the SHA-224 hash for the one
   already stored, so no variable of either run holds it.
   */
  lemma HashLost(data: seq<byte>, entry256: seq<byte>, entry224: seq<byte>, name: nat, fw: nat -> Reply)
    requires |entry256| == 48 && |entry224| == 44 && name < 35
    requires data == Header(SHA256, 76, 48) + (entry256 + (Header(SHA224, 72, 44) + entry224))
    requires Steady(fw, 76 + 2 * (name + 1))
    ensures
      var s, max, sig := Sources(true, NoAddend, None, [], data), 76 + 2 * (name + 1), Signature(SHA224, entry224);
      && Chain(data, 0) && Sound(s) && Composed(s) == data && ComposedAgain(s) == data && |data| > max
      && sig in Signatures(data, 0)
      && !InVariables(AskedFor(data, name, fw, max, true), sig)
      && !InVariables(AskedFor(data, name, fw, max, false), sig)
  {
    hide Get, Header, Chain, Composed, ComposedAgain, RunOver, Signatures, Entries, Sound, Lists, VariableOf, Held, PieceFits;
    PrintTwoLists(data, entry256, entry224);
    TwoListsChain(data);
    NothingAdded(data);
    TwoRuns(data, name, fw);
    SecondListed(data, entry224);
    FirstLists(data, entry224, name, fw);
  }

  /** The one variable asked for lists SHA-256 signatures only. */
  lemma FirstLists(data: seq<byte>, entry224: seq<byte>, name: nat, fw: nat -> Reply)
    requires TwoLists(data) && name < 35 && Steady(fw, 76 + 2 * (name + 1)) && |entry224| == 44
    ensures
      var max, sig := 76 + 2 * (name + 1), Signature(SHA224, entry224);
      && !InVariables(AskedFor(data, name, fw, max, true), sig)
      && !InVariables(AskedFor(data, name, fw, max, false), sig)
  {
    hide Get, Chain, RunOver, Lists, VariableOf, Held, PieceFits, Steady;
    var max, sig := 76 + 2 * (name + 1), Signature(SHA224, entry224);
    TwoRuns(data, name, fw);
    var p := RunOver(data, name, fw, true).pieces[0];
    var second := RunOver(data, name, fw, false).pieces;
    NoVariables(data);
    VariablesAppend(data, [], p);
    assert [] + [p] == [p] && [] + Stored(data, p) == Stored(data, p);
    assert AskedFor(data, name, fw, max, true) == [VariableOf(data, p)];
    OneVariableLists(data, p, sig);
    EntrySizes(data, p);
    VariablesAppend(data, [], second[0]);
    VariablesAppend(data, [second[0]], second[1]);
    assert [] + [second[0]] == [second[0]] && [second[0]] + [second[1]] == second;
    assert Variables(data, second) == [];
    assert AskedFor(data, name, fw, max, false) == [];
  }

  lemma TwoListsChain(data: seq<byte>)
    requires TwoLists(data)
    ensures Chain(data, 0) && data != []
  {
  }

  lemma SecondListed(data: seq<byte>, entry224: seq<byte>)
    requires TwoLists(data) && |entry224| == 44 && data[104..148] == entry224
    ensures Signature(SHA224, entry224) in Signatures(data, 0)
  {
    hide Get, InList, Kind;
    ChainStep(data, 0);
    ChainStep(data, 76);
    SignaturesEnd(data);
    SecondInList(data, entry224);
    assert Signatures(data, 76) == InList(data, 76, 104, 148) + [];
  }

  lemma SecondInList(data: seq<byte>, entry224: seq<byte>)
    requires TwoLists(data) && |entry224| == 44 && data[104..148] == entry224
    ensures InList(data, 76, 104, 148) == [Signature(SHA224, entry224)]
  {
    hide Get, Chain;
    OneEntryList(entry224);
  }
}
