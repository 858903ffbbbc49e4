/**
 mok.c: splitting a signature database over numbered variables of limited size (mirror_mok_db), with
 the variables built by lib/variables.c (fill_esl, variable_create_esl).
 The firmware's answers are a function of the number of the loop iteration that asks.
 */
module Mirror {
  import opened Bytes
  import opened SigList
  import opened MokCodec

  /** The loop stops when fewer bytes than this are left: a list with one SHA-1 signature, nearly. */
  const MIN_REST := 65

  /** One iteration's firmware answers: the largest variable that still fits, and whether SetVariable works. */
  datatype Reply = Reply(max: Option<nat>, stored: bool)

  /** Byte position, and the list it is in: its header's offset and its end. */
  datatype Cursor = Cursor(pos: nat, list: nat, end: nat)

  const START := Cursor(0, 0, 0)

  /** What one iteration did: write some signatures, take them for written by the first pass, or skip a list's rest. */
  datatype Piece =
    | Mirrored(step: nat, index: nat, list: nat, at: nat, count: nat)
    | Already(step: nat, index: nat, list: nat, at: nat, count: nat)
    | Passed(step: nat, index: nat, list: nat, at: nat, upto: nat)

  datatype End = Finished | NoSize | SetFailed

  datatype Log = Log(pieces: seq<Piece>, last: Cursor, end: End)

  // ---------------------------------------------------------------- well-formed databases

  /** Lists follow each other from pos to the end of the data. */
  predicate Chain(data: seq<byte>, pos: nat)
    decreases |data| - pos
  {
    && pos <= |data|
    && (pos < |data| ==>
          && pos + LIST_HEADER <= |data| && LIST_HEADER <= ListSize(data, pos) <= |data| - pos
          && SigSize(data, pos) > 0 && Chain(data, pos + ListSize(data, pos)))
  }

  predicate Good(data: seq<byte>, c: Cursor) {
    && c.pos <= c.end && Chain(data, c.end)
    && (c.pos < c.end ==> Inside(data, c))
  }

  /** The cursor is at a whole number of signatures behind its list's header. */
  predicate Inside(data: seq<byte>, c: Cursor) {
    && c.list + LIST_HEADER <= c.pos <= c.end <= |data| && c.end == c.list + ListSize(data, c.list)
    && SigSize(data, c.list) > 0 && (c.pos - c.list - LIST_HEADER) % SigSize(data, c.list) == 0
  }

  function Enter(data: seq<byte>, c: Cursor): (d: Cursor)
    requires Good(data, c) && c.pos < |data|
    ensures Good(data, d) && Inside(data, d) && c.pos <= d.pos
    ensures c.pos < d.end
  {
    if c.pos >= c.end then Cursor(c.pos + LIST_HEADER, c.pos, c.pos + ListSize(data, c.pos)) else c
  }

  function Digits(i: nat): nat { if i < 10 then 1 else 1 + Digits(i / 10) }

  /** Bytes a variable may hold once its name is paid for. */
  function Room(max: nat, nameLen: nat): nat {
    var nameSize := (nameLen + 1) * 2;
    if max > nameSize then max - nameSize else 0
  }

  function NameLen(name: nat, i: nat, onlyFirst: bool): nat { if onlyFirst then name else name + Digits(i) }

  function Min(a: nat, b: nat): nat { if a < b then a else b }

  function Quot(a: nat, b: nat): (q: nat)
    requires b > 0
    ensures q * b <= a < q * b + b
  {
    a / b
  }

  /** As many whole signatures as both the room and the rest of the list hold. */
  function Take(rest: nat, sz: nat, room: nat): (n: nat)
    requires sz > 0
    ensures n > 0 ==> LIST_HEADER + n * sz <= room
    ensures n * sz <= rest
    ensures rest < n * sz + sz || room < LIST_HEADER + n * sz + sz
  {
    hide Quot;
    if room > LIST_HEADER then
      var fit, all := Quot(room - LIST_HEADER, sz), Quot(rest, sz);
      TakeLess(fit, all, sz);
      Min(fit, all)
    else 0
  }

  lemma TakeLess(a: nat, b: nat, m: nat)
    requires m > 0
    ensures a < b ==> a * m <= b * m
    ensures a >= b ==> b * m <= a * m
  {
    if a < b { MulGap(b, a, m); } else if a > b { MulGap(a, b, m); }
  }

  function HowMany(data: seq<byte>, c: Cursor, room: nat): (n: nat)
    requires Inside(data, c)
    ensures c.pos + n * SigSize(data, c.list) <= c.end
  {
    Take(c.end - c.pos, SigSize(data, c.list), room)
  }

  lemma Quotient(a: nat, b: nat)
    requires b > 0
    ensures (a / b) * b <= a < (a / b) * b + b
  {
  }

  lemma MulMono(a: nat, b: nat, m: nat)
    requires a <= b && m > 0
    ensures a * m <= b * m
  {
    if a < b { MulGap(b, a, m); }
  }

  /** Behind some signatures of its list the cursor is still at a whole number of them. */
  lemma TakenInside(data: seq<byte>, c: Cursor, count: nat)
    requires Inside(data, c) && Good(data, c) && c.pos + count * SigSize(data, c.list) <= c.end
    ensures Good(data, c.(pos := c.pos + count * SigSize(data, c.list)))
    ensures count > 0 ==> count * SigSize(data, c.list) > 0
  {
    hide Chain, Get;
    StillMultiple(c.pos - c.list - LIST_HEADER, count, SigSize(data, c.list));
  }

  lemma StillMultiple(before: nat, count: nat, sz: nat)
    requires sz > 0 && before % sz == 0
    ensures (before + count * sz) % sz == 0 && (count > 0 ==> count * sz > 0)
  {
    var q := before / sz;
    assert before == q * sz;
    assert (q + count) * sz == q * sz + count * sz;
    ModUnique(before + count * sz, sz, q + count, 0);
    if count > 0 { MulAtLeast(count, sz); }
  }

  function Taken(data: seq<byte>, c: Cursor, count: nat): (d: Cursor)
    requires Inside(data, c) && Good(data, c) && c.pos + count * SigSize(data, c.list) <= c.end
    ensures Good(data, d) && c.pos <= d.pos && (count > 0 ==> c.pos < d.pos)
  {
    TakenInside(data, c, count);
    c.(pos := c.pos + count * SigSize(data, c.list))
  }

  function Skipped(data: seq<byte>, c: Cursor): (d: Cursor)
    requires Good(data, c)
    ensures Good(data, d) && d.pos == c.end
  {
    c.(pos := c.end)
  }

  // ---------------------------------------------------------------- the pass

  function Pass(data: seq<byte>, c: Cursor, i: nat, step: nat, name: nat, fw: nat -> Reply, onlyFirst: bool): (log: Log)
    requires Good(data, c)
    decreases |data| - c.pos
  {
    if |data| - c.pos < MIN_REST then Log([], c, Finished)
    else
      var d := Enter(data, c);
      if fw(step).max.None? then Log([], d, NoSize)
      else
        var room := Room(fw(step).max.value, NameLen(name, i, onlyFirst));
        var count := HowMany(data, d, room);
        var next := Taken(data, d, count);
        if count == 0 then
          Before(Passed(step, i, d.list, d.pos, d.end), Pass(data, Skipped(data, d), i, step + 1, name, fw, onlyFirst))
        else if !onlyFirst && i == 0 then
          Before(Already(step, i, d.list, d.pos, count), Pass(data, next, i + 1, step + 1, name, fw, onlyFirst))
        else if !fw(step).stored then Log([], d, SetFailed)
        else if onlyFirst then Log([Mirrored(step, i, d.list, d.pos, count)], next, Finished)
        else Before(Mirrored(step, i, d.list, d.pos, count), Pass(data, next, i + 1, step + 1, name, fw, onlyFirst))
  }

  function Before(p: Piece, log: Log): Log { Log([p] + log.pieces, log.last, log.end) }

  // ---------------------------------------------------------------- the variables

  datatype Variable = Variable(index: nat, bytes: seq<byte>)

  predicate PieceFits(data: seq<byte>, p: Piece) {
    && p.list + LIST_HEADER <= |data|
    && p.list + LIST_HEADER <= p.at && p.list + ListSize(data, p.list) <= |data| && SigSize(data, p.list) > 0
    && p.at <= PieceEnd(data, p) <= p.list + ListSize(data, p.list)
    && (p.at - p.list - LIST_HEADER) % SigSize(data, p.list) == 0
  }

  function PieceEnd(data: seq<byte>, p: Piece): nat
    requires p.list + LIST_HEADER <= |data|
  {
    if p.Passed? then p.upto else p.at + p.count * SigSize(data, p.list)
  }

  function VariableOf(data: seq<byte>, p: Piece): Variable
    requires PieceFits(data, p)
  {
    var body := data[p.at..PieceEnd(data, p)];
    Variable(p.index, Header(Kind(data, p.list), LIST_HEADER + |body|, SigSize(data, p.list)) + body)
  }

  predicate AllFit(data: seq<byte>, pieces: seq<Piece>) { forall k :: 0 <= k < |pieces| ==> PieceFits(data, pieces[k]) }

  function Variables(data: seq<byte>, pieces: seq<Piece>): seq<Variable>
    requires AllFit(data, pieces)
  {
    if pieces == [] then []
    else
      var rest := pieces[1..];
      assert AllFit(data, rest) by { assert forall k :: 0 <= k < |rest| ==> rest[k] == pieces[k + 1]; }
      Stored(data, pieces[0]) + Variables(data, rest)
  }

  /** fill_esl into a buffer of the size it asked for; the multiplication is guarded first. */
  method VariableCreateEsl(data: seq<byte>, at: nat, howmany: nat, kind: Guid, sigSize: nat) returns (r: Option<seq<byte>>)
    requires at + howmany * sigSize <= |data|
    ensures r.None? <==> howmany == 0 || sigSize == 0 || LIST_HEADER + howmany * sigSize > 0xffff_ffff
    ensures r.Some? ==>
      r.value == Header(kind, LIST_HEADER + howmany * sigSize, sigSize) + data[at..at + howmany * sigSize]
  {
    hide Header;
    if howmany == 0 || sigSize == 0 { return None; }
    SizeGuard(howmany, sigSize);
    if howmany > (0xffff_ffff - LIST_HEADER) / sigSize { return None; }
    var dataLen := howmany * sigSize;
    var out := new byte[LIST_HEADER + dataLen](_ => 0);
    var next := Append(out, 0, Header(kind, LIST_HEADER + dataLen, sigSize));
    next := Append(out, next, data[at..at + dataLen]);
    assert out[..0] == [];
    return Some(out[..]);
  }

  /** The division guards the multiplication. */
  lemma SizeGuard(howmany: nat, sigSize: nat)
    requires sigSize > 0
    ensures howmany > (0xffff_ffff - LIST_HEADER) / sigSize <==> LIST_HEADER + howmany * sigSize > 0xffff_ffff
  {
    var most := (0xffff_ffff - LIST_HEADER) / sigSize;
    Quotient(0xffff_ffff - LIST_HEADER, sigSize);
    if howmany > most { MulGap(howmany, most, sigSize); } else { MulMono(howmany, most, sigSize); }
  }

  lemma NoVariables(data: seq<byte>)
    ensures Variables(data, []) == []
  {
  }

  function Stored(data: seq<byte>, p: Piece): seq<Variable>
    requires PieceFits(data, p)
  {
    if p.Mirrored? then [VariableOf(data, p)] else []
  }

  lemma VariablesCons(data: seq<byte>, p: Piece, rest: seq<Piece>)
    requires PieceFits(data, p) && AllFit(data, rest)
    ensures AllFit(data, [p] + rest) && Variables(data, [p] + rest) == Stored(data, p) + Variables(data, rest)
  {
    hide PieceFits, VariableOf;
    assert ([p] + rest)[1..] == rest;
  }

  lemma {:induction false} VariablesAppend(data: seq<byte>, pieces: seq<Piece>, p: Piece)
    requires AllFit(data, pieces) && PieceFits(data, p)
    ensures AllFit(data, pieces + [p])
    ensures Variables(data, pieces + [p]) == Variables(data, pieces) + Stored(data, p)
  {
    hide PieceFits, Variables, Stored;
    NoVariables(data);
    if pieces == [] {
      assert pieces + [p] == [p] + [];
      VariablesCons(data, p, []);
    } else {
      var q, rest := pieces[0], pieces[1..];
      assert forall k :: 0 <= k < |rest| ==> rest[k] == pieces[k + 1];
      VariablesAppend(data, rest, p);
      assert pieces == [q] + rest && pieces + [p] == [q] + (rest + [p]);
      VariablesCons(data, q, rest);
      VariablesCons(data, q, rest + [p]);
    }
  }

  lemma StepFits(data: seq<byte>, d: Cursor, count: nat, i: nat, step: nat)
    requires Good(data, d) && Inside(data, d) && d.pos + count * SigSize(data, d.list) <= d.end
    ensures PieceFits(data, Passed(step, i, d.list, d.pos, d.end))
    ensures PieceFits(data, Mirrored(step, i, d.list, d.pos, count))
    ensures PieceFits(data, Already(step, i, d.list, d.pos, count))
  {
  }

  lemma PassStep(data: seq<byte>, c: Cursor, i: nat, step: nat, name: nat, fw: nat -> Reply, onlyFirst: bool)
    requires Good(data, c) && |data| - c.pos >= MIN_REST && fw(step).max.Some?
    ensures
      var d := Enter(data, c);
      var count := HowMany(data, d, Room(fw(step).max.value, NameLen(name, i, onlyFirst)));
      Pass(data, c, i, step, name, fw, onlyFirst) ==
        if count == 0 then
          Before(Passed(step, i, d.list, d.pos, d.end), Pass(data, Skipped(data, d), i, step + 1, name, fw, onlyFirst))
        else if !onlyFirst && i == 0 then
          Before(Already(step, i, d.list, d.pos, count), Pass(data, Taken(data, d, count), i + 1, step + 1, name, fw, onlyFirst))
        else if !fw(step).stored then Log([], d, SetFailed)
        else if onlyFirst then Log([Mirrored(step, i, d.list, d.pos, count)], Taken(data, d, count), Finished)
        else Before(Mirrored(step, i, d.list, d.pos, count), Pass(data, Taken(data, d, count), i + 1, step + 1, name, fw, onlyFirst))
  {
    hide Chain, Room, NameLen, HowMany, Inside, Taken, Skipped, Enter, Good, Get;
  }

  function Prepend(done: seq<Piece>, log: Log): Log { Log(done + log.pieces, log.last, log.end) }

  lemma PrependOne(done: seq<Piece>, p: Piece, log: Log)
    ensures Prepend(done, Before(p, log)) == Prepend(done + [p], log)
  {
    var one: seq<Piece> := [p];
    assert done + (one + log.pieces) == (done + one) + log.pieces;
  }

  lemma PassEnds(data: seq<byte>, c: Cursor, i: nat, step: nat, name: nat, fw: nat -> Reply, onlyFirst: bool)
    requires Good(data, c)
    ensures |data| - c.pos < MIN_REST ==> Pass(data, c, i, step, name, fw, onlyFirst) == Log([], c, Finished)
    ensures |data| - c.pos >= MIN_REST && fw(step).max.None? ==>
      Pass(data, c, i, step, name, fw, onlyFirst) == Log([], Enter(data, c), NoSize)
  {
  }

  /** mirror_mok_db's loop: the variables it stores, in order, how it ended, and where. */
  method MirrorLoop(data: seq<byte>, name: nat, fw: nat -> Reply, onlyFirst: bool)
    returns (writes: seq<Variable>, last: Cursor, end: End)
    requires Chain(data, 0)
    ensures
      var log := Pass(data, START, 0, 0, name, fw, onlyFirst);
      AllFit(data, log.pieces) && writes == Variables(data, log.pieces) && last == log.last && end == log.end
  {
    hide Get, Pass, Variables, Chain, VariableOf, PieceFits, Room, NameLen, HowMany, Inside, Taken, Skipped, Enter, Good, Before, Prepend;
    BeginGood(data);
    var c, i, step := START, 0, 0;
    writes := [];
    ghost var log := Pass(data, START, 0, 0, name, fw, onlyFirst);
    ghost var done: seq<Piece> := [];
    NoVariables(data);
    PrependNone(log);
    while |data| - c.pos >= MIN_REST
      invariant Good(data, c) && AllFit(data, done) && writes == Variables(data, done)
      invariant log == Prepend(done, Pass(data, c, i, step, name, fw, onlyFirst))
      decreases |data| - c.pos
    {
      PassEnds(data, c, i, step, name, fw, onlyFirst);
      var d := Enter(data, c);
      var max := fw(step).max;
      if max.None? {
        PrependNothing(done, d, NoSize);
        return writes, d, NoSize;
      }
      PassStep(data, c, i, step, name, fw, onlyFirst);
      var howmany := HowMany(data, d, Room(max.value, NameLen(name, i, onlyFirst)));
      StepFits(data, d, howmany, i, step);
      if howmany == 0 {
        ghost var p := Passed(step, i, d.list, d.pos, d.end);
        PrependOne(done, p, Pass(data, Skipped(data, d), i, step + 1, name, fw, onlyFirst));
        VariablesAppend(data, done, p);
        done := done + [p];
        c := Skipped(data, d);
      } else if !onlyFirst && i == 0 {
        ghost var p := Already(step, i, d.list, d.pos, howmany);
        PrependOne(done, p, Pass(data, Taken(data, d, howmany), i + 1, step + 1, name, fw, onlyFirst));
        VariablesAppend(data, done, p);
        done := done + [p];
        c := Taken(data, d, howmany);
        i := i + 1;
      } else {
        ghost var p := Mirrored(step, i, d.list, d.pos, howmany);
        var variable := MirrorOneEsl(data, d, i, step, howmany);
        if !fw(step).stored {
          PrependNothing(done, d, SetFailed);
          return writes, d, SetFailed;
        }
        VariablesAppend(data, done, p);
        writes := writes + [variable];
        if onlyFirst {
          LastPiece(done, p, Taken(data, d, howmany));
          return writes, Taken(data, d, howmany), Finished;
        }
        PrependOne(done, p, Pass(data, Taken(data, d, howmany), i + 1, step + 1, name, fw, onlyFirst));
        done := done + [p];
        c := Taken(data, d, howmany);
        i := i + 1;
      }
      step := step + 1;
    }
    PassEnds(data, c, i, step, name, fw, onlyFirst);
    PrependNothing(done, c, Finished);
    return writes, c, Finished;
  }

  /** mirror_one_esl: build the variable that SetVariable is given; it is never refused for its size. */
  method MirrorOneEsl(data: seq<byte>, d: Cursor, i: nat, step: nat, howmany: nat) returns (v: Variable)
    requires Good(data, d) && Inside(data, d) && howmany > 0 && d.pos + howmany * SigSize(data, d.list) <= d.end
    ensures
      var p := Mirrored(step, i, d.list, d.pos, howmany);
      PieceFits(data, p) && v == VariableOf(data, p)
  {
    hide Get, Header;
    StepFits(data, d, howmany, i, step);
    Powers();
    FromLEBound(data[d.list + 16..d.list + 20]);
    ListSizeIs(data, d.list);
    var r := VariableCreateEsl(data, d.pos, howmany, Kind(data, d.list), SigSize(data, d.list));
    return Variable(i, r.value);
  }

  lemma ListSizeIs(data: seq<byte>, pos: nat)
    requires pos + LIST_HEADER <= |data|
    ensures ListSize(data, pos) == FromLE(data[pos + 16..pos + 20])
  {
  }

  lemma BeginGood(data: seq<byte>)
    requires Chain(data, 0)
    ensures Good(data, START)
  {
  }

  lemma PrependNone(log: Log)
    ensures log == Prepend([], log)
  {
  }

  lemma PrependNothing(done: seq<Piece>, c: Cursor, end: End)
    ensures Prepend(done, Log([], c, end)) == Log(done, c, end)
  {
  }

  lemma LastPiece(done: seq<Piece>, p: Piece, c: Cursor)
    ensures Prepend(done, Log([p], c, Finished)) == Log(done + [p], c, Finished)
  {
  }

  // ---------------------------------------------------------------- the whole function

  /** The first answer about variable sizes; some firmware cannot tell. */
  datatype Space = SpaceError | SpaceUnknown | Space(max: nat)

  /** The list of one all-zero SHA-256 hash that stands in when nothing fits. */
  function Dummy(): Variable { Variable(0, Header(SHA256, LIST_HEADER + 48, 48) + (SHIM_LOCK + seq(32, i => 0))) }

  lemma {:induction false} PassFits(data: seq<byte>, c: Cursor, i: nat, step: nat, name: nat, fw: nat -> Reply, onlyFirst: bool)
    requires Good(data, c)
    ensures AllFit(data, Pass(data, c, i, step, name, fw, onlyFirst).pieces)
    decreases |data| - c.pos
  {
    hide Get, Pass, Chain, PieceFits, Room, NameLen, HowMany, Inside, Taken, Skipped, Enter, Good;
    PassEnds(data, c, i, step, name, fw, onlyFirst);
    if |data| - c.pos >= MIN_REST && fw(step).max.Some? {
      PassStep(data, c, i, step, name, fw, onlyFirst);
      var d := Enter(data, c);
      var count := HowMany(data, d, Room(fw(step).max.value, NameLen(name, i, onlyFirst)));
      StepFits(data, d, count, i, step);
      if count == 0 {
        PassFits(data, Skipped(data, d), i, step + 1, name, fw, onlyFirst);
      } else {
        PassFits(data, Taken(data, d, count), i + 1, step + 1, name, fw, onlyFirst);
      }
    }
  }

  /** The loop over a whole database. */
  function RunOver(data: seq<byte>, name: nat, fw: nat -> Reply, onlyFirst: bool): (log: Log)
    requires Chain(data, 0)
    ensures AllFit(data, log.pieces)
  {
    BeginGood(data);
    PassFits(data, START, 0, 0, name, fw, onlyFirst);
    Pass(data, START, 0, 0, name, fw, onlyFirst)
  }

  /** Does the firmware take the database as one variable, as far as it says? */
  predicate FitsWhole(data: seq<byte>, space: Space) { space.SpaceUnknown? || (space.Space? && |data| <= space.max) }

  /** The status mirror_mok_db returns and the variables it asks for, in order; index 0 is the plain name. */
  function Asked(data: seq<byte>, name: nat, space: Space, fw: nat -> Reply, onlyFirst: bool, stored: bool): (bool, seq<Variable>)
    requires Chain(data, 0)
  {
    if space.SpaceError? then (false, [])
    else if FitsWhole(data, space) then if onlyFirst then (stored, [Variable(0, data)]) else (true, [])
    else
      var log := RunOver(data, name, fw, onlyFirst);
      var loop := Variables(data, log.pieces);
      if log.end.Finished? && onlyFirst && loop == [] then (stored, [Dummy()]) else (log.end.Finished?, loop)
  }

  /**
   mirror_mok_db: a database that fits is stored whole, by the first run only; otherwise the loop, and the
   stand-in list when the first run finds nothing that fits.  `stored` is SetVariable's answer for a whole
   database or the stand-in.
   */
  method MirrorMokDb(data: seq<byte>, name: nat, space: Space, fw: nat -> Reply, onlyFirst: bool, stored: bool)
    returns (ok: bool, asked: seq<Variable>)
    requires Chain(data, 0)
    ensures (ok, asked) == Asked(data, name, space, fw, onlyFirst, stored)
  {
    hide Pass, Variables, Chain, Header;
    if space.SpaceError? { return false, []; }
    if space.SpaceUnknown? || |data| <= space.max {
      if onlyFirst { return stored, [Variable(0, data)]; }
      return true, [];
    }
    var loop, last, end := MirrorLoop(data, name, fw, onlyFirst);
    if end.Finished? && onlyFirst && loop == [] { return stored, [Dummy()]; }
    return end.Finished?, loop;
  }
}
