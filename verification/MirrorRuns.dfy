/** What each whole run of mirror_mok_db asks the firmware for, under any firmware. */
module MirrorRuns {
  import opened Bytes
  import opened SigList
  import opened MokCodec
  import opened Mirror
  import opened MirrorLaws
  import opened MokConfig
  import opened MirrorTwice

  // ---------------------------------------------------------------- names

  predicate IndexesFrom(pieces: seq<Piece>, low: nat) {
    forall k :: 0 <= k < |pieces| && pieces[k].Mirrored? ==> pieces[k].index >= low
  }

  lemma {:induction false} NumberedFrom(pieces: seq<Piece>, from: nat)
    requires Numbered(pieces, from)
    ensures IndexesFrom(pieces, from)
    decreases |pieces|
  {
    if pieces != [] {
      var rest := pieces[1..];
      NumberedFrom(rest, if pieces[0].Mirrored? then from + 1 else from);
      assert forall k :: 0 < k < |pieces| ==> pieces[k] == rest[k - 1];
    }
  }

  lemma IndexesCons(p: Piece, rest: seq<Piece>)
    requires !p.Mirrored? && IndexesFrom(rest, 1)
    ensures IndexesFrom([p] + rest, 1)
  {
    var all := [p] + rest;
    assert all[0] == p && forall k :: 0 < k < |all| ==> all[k] == rest[k - 1];
  }

  /** Until it has passed its first fit the second run stores nothing; from then on it counts from one. */
  lemma {:induction false} SecondIndexes(data: seq<byte>, c: Cursor, step: nat, name: nat, fw: nat -> Reply)
    requires Good(data, c)
    ensures IndexesFrom(Pass(data, c, 0, step, name, fw, false).pieces, 1)
    decreases |data| - c.pos
  {
    hide Get, Pass, Chain, PieceFits, Room, NameLen, HowMany, Inside, Taken, Skipped, Enter, Good, IndexesFrom;
    PassEnds(data, c, 0, step, name, fw, false);
    NoIndexes();
    if |data| - c.pos >= MIN_REST && fw(step).max.Some? {
      PassStep(data, c, 0, step, name, fw, false);
      var d := Enter(data, c);
      var count := HowMany(data, d, Room(fw(step).max.value, NameLen(name, 0, false)));
      if count == 0 {
        SecondIndexes(data, Skipped(data, d), step + 1, name, fw);
        IndexesCons(Passed(step, 0, d.list, d.pos, d.end), Pass(data, Skipped(data, d), 0, step + 1, name, fw, false).pieces);
      } else {
        LaterNumbered(data, Taken(data, d, count), 1, step + 1, name, fw);
        NumberedFrom(Pass(data, Taken(data, d, count), 1, step + 1, name, fw, false).pieces, 1);
        IndexesCons(Already(step, 0, d.list, d.pos, count), Pass(data, Taken(data, d, count), 1, step + 1, name, fw, false).pieces);
      }
    }
  }

  lemma NoIndexes()
    ensures IndexesFrom([], 1)
  {
  }

  lemma {:induction false} VariableIndexes(data: seq<byte>, pieces: seq<Piece>, low: nat)
    requires AllFit(data, pieces) && IndexesFrom(pieces, low)
    ensures forall k :: 0 <= k < |Variables(data, pieces)| ==> Variables(data, pieces)[k].index >= low
    decreases |pieces|
  {
    hide PieceFits;
    if pieces != [] {
      var rest := pieces[1..];
      assert forall k :: 0 <= k < |rest| ==> rest[k] == pieces[k + 1];
      VariableIndexes(data, rest, low);
    }
  }

  /** The second run never asks for the plain name, and nothing at all for a database that fits whole. */
  lemma SecondNeverPlain(data: seq<byte>, name: nat, space: Space, fw: nat -> Reply, stored: bool)
    requires Chain(data, 0)
    ensures
      var (ok, asked) := Asked(data, name, space, fw, false, stored);
      && (forall k :: 0 <= k < |asked| ==> asked[k].index >= 1)
      && (space.SpaceUnknown? || (space.Space? && |data| <= space.max) ==> ok && asked == [])
  {
    hide Chain, Pass, Variables, Dummy;
    BeginGood(data);
    SecondIndexes(data, START, 0, name, fw);
    VariableIndexes(data, RunOver(data, name, fw, false).pieces, 1);
  }

  // ---------------------------------------------------------------- the first run

  /** The first run stores at most one piece, and stops there. */
  lemma {:induction false} FirstOnce(data: seq<byte>, c: Cursor, step: nat, name: nat, fw: nat -> Reply)
    requires Good(data, c)
    ensures
      var log := Pass(data, c, 0, step, name, fw, true);
      && AllFit(data, log.pieces) && |Variables(data, log.pieces)| <= 1
      && forall k :: 0 <= k < |Variables(data, log.pieces)| ==> Variables(data, log.pieces)[k].index == 0
    decreases |data| - c.pos
  {
    hide Get, Pass, Chain, PieceFits, Room, NameLen, HowMany, Inside, Taken, Skipped, Enter, Good, Variables, VariableOf;
    PassEnds(data, c, 0, step, name, fw, true);
    NoVariables(data);
    PassFits(data, c, 0, step, name, fw, true);
    if |data| - c.pos >= MIN_REST && fw(step).max.Some? {
      PassStep(data, c, 0, step, name, fw, true);
      var d := Enter(data, c);
      var count := HowMany(data, d, Room(fw(step).max.value, NameLen(name, 0, true)));
      StepFits(data, d, count, 0, step);
      if count == 0 {
        FirstOnce(data, Skipped(data, d), step + 1, name, fw);
        VariablesCons(data, Passed(step, 0, d.list, d.pos, d.end), Pass(data, Skipped(data, d), 0, step + 1, name, fw, true).pieces);
      } else {
        var p := Mirrored(step, 0, d.list, d.pos, count);
        var one: seq<Piece> := [p];
        VariablesCons(data, p, []);
        assert one + [] == one;
        IndexOfVariable(data, p);
      }
    }
  }

  lemma IndexOfVariable(data: seq<byte>, p: Piece)
    requires PieceFits(data, p)
    ensures VariableOf(data, p).index == p.index
  {
  }

  /**
   A first run asks for at most one variable, under the plain name; one that reports success has asked for
   exactly one: the database itself if it fits whole.
   */
  lemma FirstPlain(data: seq<byte>, name: nat, space: Space, fw: nat -> Reply, stored: bool)
    requires Chain(data, 0)
    ensures
      var (ok, asked) := Asked(data, name, space, fw, true, stored);
      && |asked| <= 1 && (forall k :: 0 <= k < |asked| ==> asked[k].index == 0)
      && (ok ==> |asked| == 1)
      && (space.SpaceUnknown? || (space.Space? && |data| <= space.max) ==> asked == [Variable(0, data)] && ok == stored)
      && (space.SpaceError? ==> !ok && asked == [])
  {
    hide Chain, Pass, Variables;
    BeginGood(data);
    FirstOnce(data, START, 0, name, fw);
  }

  /** The stand-in lists one SHA-256 digest of zeros that shim owns. */
  lemma StandIn()
    ensures
      var v := Dummy();
      v.index == 0 && Chain(v.bytes, 0) && Signatures(v.bytes, 0) == [Signature(SHA256, SHIM_LOCK + seq(32, i => 0))]
  {
    hide Header, Chain, Signatures;
    OneSignatureLists(SHA256, seq(32, i => 0));
  }

  /**
   When both databases fit whole, the two runs together ask for exactly one variable, under the plain name,
   and it lists every signature as often as the composed database does.
   */
  lemma WholeOnce(s: Sources, name: nat, space: Space, fw1: nat -> Reply, fw2: nat -> Reply, stored1: bool, stored2: bool)
    requires Sound(s) && space.Space? && |Composed(s)| <= space.max && |ComposedAgain(s)| <= space.max
    ensures Chain(Composed(s), 0) && Chain(ComposedAgain(s), 0)
    ensures
      var first, second := Asked(Composed(s), name, space, fw1, true, stored1), Asked(ComposedAgain(s), name, space, fw2, false, stored2);
      && |first.1 + second.1| == 1
      && (var v := (first.1 + second.1)[0];
          v.index == 0 && Chain(v.bytes, 0) && multiset(Signatures(v.bytes, 0)) == multiset(Signatures(Composed(s), 0)))
      && first.0 == stored1 && second.0
  {
    hide Chain, Composed, ComposedAgain, Signatures, RunOver;
    ListedAgainSound(s);
    SecondNeverPlain(ComposedAgain(s), name, space, fw2, stored2);
    FirstPlain(Composed(s), name, space, fw1, stored1);
  }

  // ---------------------------------------------------------------- sizes and answers

  /** Number of decimal digits. */
  function TenTo(k: nat): (p: nat)
    ensures p >= 1
  {
    if k == 0 then 1 else 10 * TenTo(k - 1)
  }

  lemma {:induction false} DigitsAre(i: nat)
    ensures Digits(i) >= 1 && i < TenTo(Digits(i)) && (Digits(i) > 1 ==> i >= TenTo(Digits(i) - 1))
    decreases i
  {
    if i >= 10 { DigitsAre(i / 10); }
  }

  /** The answer a stored piece got: what was free held the variable, its name and the name's terminator, and the store worked. */
  predicate AnswerHolds(data: seq<byte>, p: Piece, name: nat, fw: nat -> Reply, onlyFirst: bool)
    requires PieceFits(data, p)
  {
    p.Mirrored? ==>
      && fw(p.step).stored && fw(p.step).max.Some?
      && 28 + p.count * SigSize(data, p.list) + 2 * (1 + name + if onlyFirst then 0 else Digits(p.index)) <= fw(p.step).max.value
  }

  lemma AnswerOf(data: seq<byte>, p: Piece, name: nat, fw: nat -> Reply, onlyFirst: bool)
    requires PieceFits(data, p) && Sized(data, p, RoomOf(p, name, fw, onlyFirst)) && (p.Mirrored? ==> fw(p.step).stored)
    ensures AnswerHolds(data, p, name, fw, onlyFirst)
  {
  }

  /** Every stored piece was answered well, and a run that ends early ends at a bad answer. */
  lemma {:induction false} PassAnswers(data: seq<byte>, c: Cursor, i: nat, step: nat, name: nat, fw: nat -> Reply, onlyFirst: bool)
    requires Good(data, c)
    ensures
      var log := Pass(data, c, i, step, name, fw, onlyFirst);
      && (forall k :: 0 <= k < |log.pieces| && log.pieces[k].Mirrored? ==> fw(log.pieces[k].step).stored)
      && (!log.end.Finished? ==> exists n: nat :: n >= step && (fw(n).max.None? || !fw(n).stored))
    decreases |data| - c.pos
  {
    hide Get, Pass, Chain, PieceFits, Room, NameLen, HowMany, Inside, Taken, Skipped, Enter, Good;
    PassEnds(data, c, i, step, name, fw, onlyFirst);
    if |data| - c.pos >= MIN_REST && fw(step).max.Some? {
      PassStep(data, c, i, step, name, fw, onlyFirst);
      var d := Enter(data, c);
      var count := HowMany(data, d, Room(fw(step).max.value, NameLen(name, i, onlyFirst)));
      if count == 0 {
        PassAnswers(data, Skipped(data, d), i, step + 1, name, fw, onlyFirst);
      } else {
        PassAnswers(data, Taken(data, d, count), i + 1, step + 1, name, fw, onlyFirst);
      }
    }
  }

  /**
   A run's loop in numbers: every variable fits what the firmware offered for it together with its name,
   and was stored; the loop ends early only at a bad answer, and otherwise leaves fewer than 65 bytes.
   */
  lemma RunInNumbers(data: seq<byte>, name: nat, fw: nat -> Reply, onlyFirst: bool)
    requires Chain(data, 0)
    ensures
      var log := RunOver(data, name, fw, onlyFirst);
      && (forall k :: 0 <= k < |log.pieces| ==> AnswerHolds(data, log.pieces[k], name, fw, onlyFirst))
      && (!log.end.Finished? ==> exists n: nat :: fw(n).max.None? || !fw(n).stored)
      && (log.end.Finished? && !onlyFirst ==> |data| - log.last.pos < 65)
  {
    hide Get, Pass, Chain, PieceFits, Sized, RoomOf, AnswerHolds;
    BeginGood(data);
    PassLaws(data, START, 0, 0, name, fw, onlyFirst);
    PassAnswers(data, START, 0, 0, name, fw, onlyFirst);
    var log := RunOver(data, name, fw, onlyFirst);
    forall k | 0 <= k < |log.pieces| ensures AnswerHolds(data, log.pieces[k], name, fw, onlyFirst) {
      AnswerOf(data, log.pieces[k], name, fw, onlyFirst);
    }
  }
}
