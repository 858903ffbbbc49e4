/**
 Runs of the hooked boot services: every order of calls, nested firmware calls, and changes that started
 images make to the table themselves.
 */
module HookRuns {
  import opened Bytes
  import opened Hooks

  /** A hook waiting for the firmware, with the table it left for it. */
  datatype Frame =
    | InLoad(table: Services)
    | InStart(table: Services, image: nat)
    | InExitBoot(table: Services)
    | InExit(table: Services)

  /** What happened, newest last. */
  datatype Note =
    | Verified
    | Judged(how: Verification)
    | StartedLast(image: nat)
    | Cleared
    | Loaded(image: nat)
    | LeftBoot
    | Refused

  /** `endless` is a hook that called itself; nothing happens after it or after a shutdown. */
  datatype Machine = Machine(g: Globals, frames: seq<Frame>, log: seq<Note>, endless: bool, ended: bool)

  datatype Event =
    | Load
    | LoadDone(result: Option<nat>)
    | Start(image: nat)
    | StartDone(error: bool)
    | ExitBoot
    | ExitBootDone(error: bool)
    | Exit
    | ExitFailed
    | ExitUnwound
    | Verify(changes: seq<Change>)
    | SecondStage(changes: seq<Change>)
    | Patch(services: Services)

  // ---------------------------------------------------------------- one step

  function Top(m: Machine): Option<Frame> {
    if m.frames == [] then None else Some(m.frames[|m.frames| - 1])
  }

  function Pop(m: Machine): Machine
    requires m.frames != []
  {
    m.(frames := m.frames[..|m.frames| - 1])
  }

  /** The frames up to the innermost started image: where a successful Exit continues. */
  function Unwound(fs: seq<Frame>): (r: seq<Frame>)
    decreases |fs|
  {
    if fs == [] then []
    else if fs[|fs| - 1].InStart? then fs
    else Unwound(fs[..|fs| - 1])
  }

  /** A hook calls the firmware through the entry it just restored. */
  function CallOut(m: Machine, callee: Pointer, frame: Frame): Machine {
    if callee.Original? || callee.Foreign? then m.(frames := m.frames + [frame])
    else m.(endless := callee.Replacement?, ended := true)
  }

  function Judgements(cs: seq<Change>, v: Verification): (r: seq<Note>)
    ensures |r| == |cs|
    decreases |cs|
  {
    if cs == [] then [] else [Judged(Changed(v, cs[0]))] + Judgements(cs[1..], Changed(v, cs[0]))
  }

  /** One event; an entry that is not shim's own leaves these globals alone. */
  function Step(m: Machine, e: Event, cfg: Config): Option<Machine> {
    if m.ended then None
    else
      var g := m.g;
      match e
      case Load =>
        if !g.table.load.Replacement? then Some(m)
        else
          var h := Unhook(g);
          Some(CallOut(m.(g := h), h.table.load, InLoad(h.table)))
      case LoadDone(result) =>
        if Top(m).Some? && Top(m).value.InLoad?
        then Some(Pop(m).(g := LeaveLoad(g, result), log := m.log + [Loaded(match result case None => 0 case Some(i) => i)]))
        else None
      case Start(image) =>
        if !g.table.start.Replacement? then Some(m)
        else
          var h := EnterStart(g, image);
          Some(CallOut(m.(g := h, log := if image == g.lastLoaded then m.log + [StartedLast(image)] else m.log),
                       h.table.start, InStart(h.table, image)))
      case StartDone(error) =>
        if Top(m).Some? && Top(m).value.InStart?
        then Some(Pop(m).(g := LeaveStart(g, error), log := if error then m.log + [Cleared] else m.log))
        else None
      case ExitBoot =>
        if !g.table.exitBoot.Replacement? then Some(m)
        else if !MayLeave(g) then Some(m.(log := m.log + [Refused], ended := true))
        else
          var h := Unhook(g);
          Some(CallOut(m.(g := h, log := m.log + [LeftBoot]), h.table.exitBoot, InExitBoot(h.table)))
      case ExitBootDone(error) =>
        if Top(m).Some? && Top(m).value.InExitBoot?
        then Some(Pop(m).(g := if error then Hook(g) else g))
        else None
      case Exit =>
        if !g.exit.Replacement? then Some(m)
        else
          var h := Fini(g, cfg);
          Some(CallOut(m.(g := h), h.exit, InExit(h.table)))
      case ExitFailed =>
        if Top(m).Some? && Top(m).value.InExit?
        then
          var h := Init(g, cfg);
          Some(Pop(m).(g := h, log := if cfg.secure && cfg.vendorData then m.log + [Cleared] else m.log))
        else None
      case ExitUnwound =>
        if Top(m).Some? && Top(m).value.InExit?
        then Some(m.(frames := Unwound(m.frames), ended := Unwound(m.frames) == []))
        else None
      case Verify(changes) =>
        Some(m.(g := g.(participating := true, verification := ChangedAll(g.verification, changes)),
                log := m.log + Judgements(changes, g.verification) + [Verified]))
      case SecondStage(changes) =>
        Some(m.(g := g.(participating := false, verification := ChangedAll(g.verification, changes)),
                log := m.log + Judgements(changes, g.verification) + [Cleared]))
      case Patch(services) =>
        Some(m.(g := g.(table := services)))
  }

  /** The machine behind the first shim_init. */
  function Begin(cfg: Config): Machine {
    Machine(Init(Fresh(), cfg), [], [], false, false)
  }

  /** The machine behind some events, if they can happen in this order. */
  function After(m: Machine, es: seq<Event>, cfg: Config): Option<Machine>
    decreases |es|
  {
    if es == [] then Some(m)
    else match Step(m, es[0], cfg) case None => None case Some(n) => After(n, es[1..], cfg)
  }

  // ---------------------------------------------------------------- the saved pointers

  /** The events that hook the table again. */
  predicate Rehooks(e: Event, cfg: Config) {
    match e
    case LoadDone(_) => true
    case StartDone(error) => error
    case ExitBootDone(error) => error
    case ExitFailed => cfg.secure && cfg.vendorData
    case _ => false
  }

  /** All along the run the saved pointers are the firmware's. */
  predicate SavedAlways(m: Machine, es: seq<Event>, cfg: Config)
    decreases |es|
  {
    && m.g.saved == FIRMWARE
    && (es != [] && Step(m, es[0], cfg).Some? ==> SavedAlways(Step(m, es[0], cfg).value, es[1..], cfg))
  }

  /** All along the run, the table is hooked only when it holds the firmware's own three entries. */
  predicate HooksClean(m: Machine, es: seq<Event>, cfg: Config)
    decreases |es|
  {
    es != [] && Step(m, es[0], cfg).Some? ==>
      && (Rehooks(es[0], cfg) ==> m.g.table == FIRMWARE)
      && HooksClean(Step(m, es[0], cfg).value, es[1..], cfg)
  }

  lemma StepSaves(m: Machine, e: Event, cfg: Config)
    requires m.g.saved == FIRMWARE && Step(m, e, cfg).Some?
    ensures Step(m, e, cfg).value.g.saved == if Rehooks(e, cfg) then m.g.table else FIRMWARE
  {
  }

  /** The saved pointers stay the firmware's if and only if no hook finds anything else in the table. */
  lemma {:induction false} SavedIffHooksClean(m: Machine, es: seq<Event>, cfg: Config)
    requires m.g.saved == FIRMWARE
    ensures SavedAlways(m, es, cfg) <==> HooksClean(m, es, cfg)
    decreases |es|
  {
    hide Step, Rehooks;
    if es != [] && Step(m, es[0], cfg).Some? {
      StepSaves(m, es[0], cfg);
      var n := Step(m, es[0], cfg).value;
      if n.g.saved == FIRMWARE {
        SavedIffHooksClean(n, es[1..], cfg);
      }
    }
  }

  /**
   Whoever runs inside a firmware call leaves the three entries as it found them: at each return that
   hooks again, the table is the one the hook left for that very call.
   */
  predicate Restores(m: Machine, es: seq<Event>, cfg: Config)
    decreases |es|
  {
    es != [] && Step(m, es[0], cfg).Some? ==>
      && (Rehooks(es[0], cfg) && Top(m).Some? ==> m.g.table == Top(m).value.table)
      && Restores(Step(m, es[0], cfg).value, es[1..], cfg)
  }

  predicate FramesClean(m: Machine) {
    && m.g.saved == FIRMWARE && m.g.attached && !m.endless
    && (forall k :: 0 <= k < |m.frames| ==> m.frames[k].table == FIRMWARE)
    && m.g.savedExit == Original && (m.g.exit == Original || m.g.exit == Replacement)
    && (forall k :: 0 <= k < |m.frames| && m.frames[k].InExit? ==> m.g.exit == Original)
    && forall j, k :: 0 <= j < k < |m.frames| ==> !(m.frames[j].InExit? && m.frames[k].InExit?)
  }

  lemma {:induction false} UnwoundClean(fs: seq<Frame>)
    ensures forall k :: 0 <= k < |Unwound(fs)| ==> k < |fs| && Unwound(fs)[k] == fs[k]
    decreases |fs|
  {
    if fs != [] && !fs[|fs| - 1].InStart? {
      var rest := fs[..|fs| - 1];
      assert forall k :: 0 <= k < |rest| ==> rest[k] == fs[k];
      UnwoundClean(rest);
      assert Unwound(fs) == Unwound(rest);
    } else {
      assert Unwound(fs) == fs;
    }
  }

  lemma StepClean(m: Machine, e: Event, cfg: Config)
    requires FramesClean(m) && Step(m, e, cfg).Some? && cfg.secure && cfg.vendorData
    requires Rehooks(e, cfg) && Top(m).Some? ==> m.g.table == Top(m).value.table
    ensures FramesClean(Step(m, e, cfg).value)
    ensures Rehooks(e, cfg) ==> Top(m).Some? && m.g.table == FIRMWARE
  {
    UnwoundClean(m.frames);
  }

  /**
   Runs whose images restore the table, in secure mode with vendor data: the saved pointers are the
   firmware's all along, no hook ever calls itself, and unhooking restores all three entries.
   */
  lemma {:induction false} RestoringRunIsSafe(m: Machine, es: seq<Event>, cfg: Config)
    requires FramesClean(m) && Restores(m, es, cfg) && cfg.secure && cfg.vendorData
    ensures SavedAlways(m, es, cfg) && HooksClean(m, es, cfg)
    ensures
      After(m, es, cfg).Some? ==>
        var n := After(m, es, cfg).value;
        FramesClean(n) && !n.endless && Unhook(n.g).table == FIRMWARE
    decreases |es|
  {
    hide Step, Rehooks;
    if es != [] && Step(m, es[0], cfg).Some? {
      StepClean(m, es[0], cfg);
      RestoringRunIsSafe(Step(m, es[0], cfg).value, es[1..], cfg);
    }
  }

  /** The first shim_init establishes what such runs need. */
  lemma BeginClean(cfg: Config)
    requires cfg.secure && cfg.vendorData
    ensures FramesClean(Begin(cfg))
  {
  }

  /**
   A started image whose Exit fails is returned to with the table hooked.  When it then reports an error,
   shim hooks a hooked table and saves its own hooks; the next LoadImage calls itself.
   */
  lemma FailedExitHooksTwice(cfg: Config, image: nat)
    requires cfg.secure && cfg.vendorData
    ensures
      var es := [Start(image), Exit, ExitFailed, StartDone(true), Load];
      var m := Begin(cfg);
      && !HooksClean(m, es, cfg) && !SavedAlways(m, es, cfg)
      && After(m, es, cfg).Some? && After(m, es, cfg).value.endless
  {
    hide Step, HooksClean, After;
    var m0 := Begin(cfg);
    var es := [Start(image), Exit, ExitFailed, StartDone(true), Load];
    var e1, e2, e3, e4 := es[1..], es[2..], es[3..], es[4..];
    var m1, m2, m3, m4, m5 := FiveSteps(cfg, image);
    assert e1[1..] == e2 && e2[1..] == e3 && e3[1..] == e4 && e4[1..] == [];
    RunStep(m4, e4, m5, cfg);
    RunStep(m3, e3, m4, cfg);
    RunStep(m2, e2, m3, cfg);
    RunStep(m1, e1, m2, cfg);
    RunStep(m0, es, m1, cfg);
    RunEnds(m5, cfg);
    BeginClean(cfg);
    SavedIffHooksClean(m0, es, cfg);
  }

  lemma FiveSteps(cfg: Config, image: nat) returns (m1: Machine, m2: Machine, m3: Machine, m4: Machine, m5: Machine)
    requires cfg.secure && cfg.vendorData
    ensures Step(Begin(cfg), Start(image), cfg) == Some(m1) && Step(m1, Exit, cfg) == Some(m2)
    ensures Step(m2, ExitFailed, cfg) == Some(m3) && Step(m3, StartDone(true), cfg) == Some(m4) && m3.g.table != FIRMWARE
    ensures Step(m4, Load, cfg) == Some(m5) && m5.endless
  {
    m1 := Step(Begin(cfg), Start(image), cfg).value;
    assert m1.frames == [InStart(FIRMWARE, image)];
    m2 := Step(m1, Exit, cfg).value;
    assert m2.frames == [InStart(FIRMWARE, image), InExit(FIRMWARE)];
    m3 := Step(m2, ExitFailed, cfg).value;
    assert m3.frames == [InStart(FIRMWARE, image)];
    m4 := Step(m3, StartDone(true), cfg).value;
    m5 := Step(m4, Load, cfg).value;
  }

  lemma RunStep(m: Machine, es: seq<Event>, n: Machine, cfg: Config)
    requires es != [] && Step(m, es[0], cfg) == Some(n)
    ensures After(m, es, cfg) == After(n, es[1..], cfg)
    ensures HooksClean(m, es, cfg) <==> (Rehooks(es[0], cfg) ==> m.g.table == FIRMWARE) && HooksClean(n, es[1..], cfg)
  {
    hide Step;
  }

  lemma RunEnds(m: Machine, cfg: Config)
    ensures After(m, [], cfg) == Some(m)
  {
  }

  // ---------------------------------------------------------------- the condition on the calls alone

  /** Whether the services and Exit are hooked, as far as the order of calls and returns tells. */
  datatype Hooked = Hooked(services: bool, exit: bool)

  /** Calls unhook, failing returns and every LoadImage return hook; Exit does nothing while it is not hooked. */
  function Track(h: Hooked, e: Event): Hooked {
    match e
    case Load | Start(_) | ExitBoot => h.(services := false)
    case Exit => if h.exit then Hooked(false, false) else h
    case LoadDone(_) => h.(services := true)
    case StartDone(error) => if error then h.(services := true) else h
    case ExitBootDone(error) => if error then h.(services := true) else h
    case ExitFailed => Hooked(true, true)
    case _ => h
  }

  function TrackAll(h: Hooked, es: seq<Event>): Hooked
    decreases |es|
  {
    if es == [] then h else TrackAll(Track(h, es[0]), es[1..])
  }

  /** Every return that hooks comes behind a call that unhooked, with no other hooking return in between. */
  predicate HooksAlternate(h: Hooked, es: seq<Event>, cfg: Config) {
    forall k :: 0 <= k < |es| && Rehooks(es[k], cfg) ==> !TrackAll(h, es[..k]).services
  }

  predicate NoPatch(es: seq<Event>) { forall k :: 0 <= k < |es| ==> !es[k].Patch? }

  lemma AlternateStep(h: Hooked, es: seq<Event>, cfg: Config)
    requires es != []
    ensures HooksAlternate(h, es, cfg) <==>
      (Rehooks(es[0], cfg) ==> !h.services) && HooksAlternate(Track(h, es[0]), es[1..], cfg)
  {
    hide Track, Rehooks;
    var rest := es[1..];
    forall k | 0 <= k < |rest| ensures rest[k] == es[k + 1] && TrackAll(Track(h, es[0]), rest[..k]) == TrackAll(h, es[..k + 1]) {
      assert es[..k + 1][1..] == rest[..k];
    }
    assert TrackAll(h, es[..0]) == h;
    if HooksAlternate(h, es, cfg) {
      forall k | 0 <= k < |rest| && Rehooks(rest[k], cfg) ensures !TrackAll(Track(h, es[0]), rest[..k]).services {
        assert Rehooks(es[k + 1], cfg);
      }
    }
    if (Rehooks(es[0], cfg) ==> !h.services) && HooksAlternate(Track(h, es[0]), rest, cfg) {
      forall k | 0 <= k < |es| && Rehooks(es[k], cfg) ensures !TrackAll(h, es[..k]).services {
        if k > 0 { assert Rehooks(rest[k - 1], cfg); }
      }
    }
  }

  /** The flags tell the truth about a machine whose saved pointers are still the firmware's. */
  predicate Tracks(m: Machine, h: Hooked) {
    && m.g.saved == FIRMWARE && m.g.attached && m.g.savedExit == Original
    && m.g.table == (if h.services then HOOKED else FIRMWARE)
    && m.g.exit == (if h.exit then Replacement else Original)
    && (forall k :: 0 <= k < |m.frames| && m.frames[k].InExit? ==> m.g.exit == Original)
    && forall j, k :: 0 <= j < k < |m.frames| ==> !(m.frames[j].InExit? && m.frames[k].InExit?)
  }

  lemma TrackStep(m: Machine, h: Hooked, e: Event, cfg: Config)
    requires Tracks(m, h) && Step(m, e, cfg).Some? && cfg.secure && cfg.vendorData && !e.Patch?
    ensures
      var n := Step(m, e, cfg).value;
      && (Rehooks(e, cfg) && h.services ==> n.g.saved == HOOKED)
      && (!(Rehooks(e, cfg) && h.services) ==> n.g.saved == FIRMWARE && (n.ended || Tracks(n, Track(h, e))))
  {
    UnwoundClean(m.frames);
  }

  /**
   When images leave the table alone, the saved pointers stay the firmware's if and only if in the
   sequence of calls and returns no two hookings follow each other without an unhooking call between.
   */
  lemma {:induction false} SavedIffAlternate(m: Machine, h: Hooked, es: seq<Event>, cfg: Config)
    requires Tracks(m, h) && cfg.secure && cfg.vendorData && NoPatch(es) && After(m, es, cfg).Some?
    ensures SavedAlways(m, es, cfg) <==> HooksAlternate(h, es, cfg)
    decreases |es|
  {
    hide Step, Track, Rehooks, Tracks;
    TracksSaved(m, h);
    if es != [] {
      var n, rest := Step(m, es[0], cfg).value, es[1..];
      assert forall k :: 0 <= k < |rest| ==> rest[k] == es[k + 1];
      AlternateStep(h, es, cfg);
      TrackStep(m, h, es[0], cfg);
      if Rehooks(es[0], cfg) && h.services {
        assert !SavedAlways(n, rest, cfg);
      } else if n.ended {
        NothingAfter(n, rest, cfg);
        assert HooksAlternate(Track(h, es[0]), rest, cfg);
      } else {
        SavedIffAlternate(n, Track(h, es[0]), rest, cfg);
      }
    }
  }

  lemma TracksSaved(m: Machine, h: Hooked)
    requires Tracks(m, h)
    ensures m.g.saved == FIRMWARE
  {
  }

  lemma NothingAfter(m: Machine, es: seq<Event>, cfg: Config)
    requires m.ended && After(m, es, cfg).Some?
    ensures es == []
  {
  }

  /** The same from the first shim_init on. */
  lemma SavedFromBeginning(es: seq<Event>, cfg: Config)
    requires cfg.secure && cfg.vendorData && NoPatch(es) && After(Begin(cfg), es, cfg).Some?
    ensures SavedAlways(Begin(cfg), es, cfg) <==> HooksAlternate(Hooked(true, true), es, cfg)
  {
    hide Step, Track, Rehooks;
    SavedIffAlternate(Begin(cfg), Hooked(true, true), es, cfg);
  }

  /**
   What shim_fini puts back behind shim_init is the firmware's table exactly outside secure mode or with
   vendor data; in secure mode without vendor data nothing was saved and it puts null pointers there.
   */
  lemma FiniRestoresIff(cfg: Config)
    ensures Fini(Init(Fresh(), cfg), cfg).table == FIRMWARE <==> !cfg.secure || cfg.vendorData
    ensures Fini(Init(Fresh(), cfg), cfg).table != FIRMWARE ==>
      Init(Fresh(), cfg).table == FIRMWARE && Fini(Init(Fresh(), cfg), cfg).table == Services(Null, Null, Null)
  {
  }

  // ---------------------------------------------------------------- who may leave boot services

  predicate Grant(n: Note) { n.Verified? || n.StartedLast? }

  /** Something since the last clearing let the loader count as participating. */
  predicate Granted(log: seq<Note>, upto: nat)
    requires upto <= |log|
  {
    exists j :: 0 <= j < upto && Grant(log[j]) && forall k :: j < k < upto ==> log[k] != Cleared
  }

  /** The latest judgement on an image. */
  function LastJudgement(log: seq<Note>, upto: nat): Verification
    requires upto <= |log|
    decreases upto
  {
    if upto == 0 then ByNothing
    else if log[upto - 1].Judged? then log[upto - 1].how
    else LastJudgement(log, upto - 1)
  }

  function LastLoaded(log: seq<Note>, upto: nat): nat
    requires upto <= |log|
    decreases upto
  {
    if upto == 0 then 0
    else if log[upto - 1].Loaded? then log[upto - 1].image
    else LastLoaded(log, upto - 1)
  }

  /** A note is backed by the notes before it. */
  predicate Backed(log: seq<Note>, k: nat, note: Note)
    requires k <= |log|
  {
    && (note.LeftBoot? ==> Granted(log, k) || LastJudgement(log, k) == ByHash)
    && (note.Refused? ==> !Granted(log, k) && LastJudgement(log, k) != ByHash)
    && (note.StartedLast? ==> note.image == LastLoaded(log, k))
  }

  predicate Justified(log: seq<Note>) { forall k :: 0 <= k < |log| ==> Backed(log, k, log[k]) }

  predicate Faithful(m: Machine) {
    var n := |m.log|;
    && m.g.participating == Granted(m.log, n) && m.g.verification == LastJudgement(m.log, n)
    && m.g.lastLoaded == LastLoaded(m.log, n) && Justified(m.log)
  }

  lemma {:induction false} PrefixSame(log: seq<Note>, more: seq<Note>, upto: nat)
    requires upto <= |log|
    ensures LastJudgement(log + more, upto) == LastJudgement(log, upto)
    ensures LastLoaded(log + more, upto) == LastLoaded(log, upto)
    ensures Granted(log + more, upto) == Granted(log, upto)
    decreases upto
  {
    var all := log + more;
    assert forall k :: 0 <= k < |log| ==> all[k] == log[k];
    if upto > 0 { PrefixSame(log, more, upto - 1); }
  }

  /** One more note, backed by the log so far. */
  lemma OneNote(log: seq<Note>, note: Note)
    requires Justified(log) && Backed(log, |log|, note)
    ensures
      var all := log + [note];
      var n := |all|;
      && Justified(all)
      && Granted(all, n) == (Grant(note) || (note != Cleared && Granted(log, |log|)))
      && LastJudgement(all, n) == (if note.Judged? then note.how else LastJudgement(log, |log|))
      && LastLoaded(all, n) == (if note.Loaded? then note.image else LastLoaded(log, |log|))
  {
    hide Granted;
    var one: seq<Note> := [note];
    var all := log + one;
    forall k | 0 <= k < |all| ensures Backed(all, k, all[k]) {
      PrefixSame(log, one, k);
      if k < |log| { assert Backed(log, k, log[k]); }
    }
    PrefixSame(log, one, |log|);
    GrantedNext(log, note);
  }

  lemma GrantedNext(log: seq<Note>, note: Note)
    ensures Granted(log + [note], |log| + 1) == (Grant(note) || (note != Cleared && Granted(log, |log|)))
  {
    var all := log + [note];
    assert all[|log|] == note;
    assert forall k :: 0 <= k < |log| ==> all[k] == log[k];
    if Granted(all, |log| + 1) && !Grant(note) {
      var j :| 0 <= j < |log| + 1 && Grant(all[j]) && forall k :: j < k < |log| + 1 ==> all[k] != Cleared;
      assert j < |log|;
    }
    if Grant(note) {
      assert Grant(all[|log|]);
    } else if note != Cleared && Granted(log, |log|) {
      var j :| 0 <= j < |log| && Grant(log[j]) && forall k :: j < k < |log| ==> log[k] != Cleared;
      assert Grant(all[j]);
    }
  }

  lemma {:induction false} JudgementNotes(log: seq<Note>, cs: seq<Change>, v: Verification)
    requires Justified(log) && LastJudgement(log, |log|) == v
    ensures
      var all := log + Judgements(cs, v);
      var n := |all|;
      && Justified(all) && LastJudgement(all, n) == ChangedAll(v, cs)
      && Granted(all, n) == Granted(log, |log|) && LastLoaded(all, n) == LastLoaded(log, |log|)
    decreases |cs|
  {
    hide Granted, LastJudgement, LastLoaded, Justified;
    if cs == [] {
      assert log + [] == log;
    } else {
      var w := Changed(v, cs[0]);
      OneNote(log, Judged(w));
      JudgementNotes(log + [Judged(w)], cs[1..], w);
      assert log + ([Judged(w)] + Judgements(cs[1..], w)) == (log + [Judged(w)]) + Judgements(cs[1..], w);
    }
  }

  lemma StepFaithful(m: Machine, e: Event, cfg: Config)
    requires Faithful(m) && Step(m, e, cfg).Some?
    ensures Faithful(Step(m, e, cfg).value)
  {
    hide Granted, LastJudgement, LastLoaded, Justified;
    var g, log := m.g, m.log;
    match e
    case Verify(changes) =>
      JudgementNotes(log, changes, g.verification);
      OneNote(log + Judgements(changes, g.verification), Verified);
    case SecondStage(changes) =>
      JudgementNotes(log, changes, g.verification);
      OneNote(log + Judgements(changes, g.verification), Cleared);
    case LoadDone(result) => OneNote(log, Loaded(match result case None => 0 case Some(i) => i));
    case Start(image) => if image == g.lastLoaded { OneNote(log, StartedLast(image)); }
    case StartDone(error) => OneNote(log, Cleared);
    case ExitBoot => if MayLeave(g) { OneNote(log, LeftBoot); } else { OneNote(log, Refused); }
    case ExitFailed => OneNote(log, Cleared);
    case _ =>
  }

  /**
   Every run, whatever images do to the table: the hook lets the system leave boot services only behind
   an image verified by hash, or when since the last clearing the loader called shim's verification or
   started the very image the firmware last loaded for it; otherwise it refuses.
   */
  lemma {:induction false} LeavingIsJustified(m: Machine, es: seq<Event>, cfg: Config)
    requires Faithful(m) && After(m, es, cfg).Some?
    ensures Faithful(After(m, es, cfg).value)
    decreases |es|
  {
    hide Step, Faithful;
    if es != [] {
      StepFaithful(m, es[0], cfg);
      LeavingIsJustified(Step(m, es[0], cfg).value, es[1..], cfg);
    }
  }

  lemma BeginFaithful(cfg: Config)
    ensures Faithful(Begin(cfg))
  {
  }
}
