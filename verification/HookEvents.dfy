/** Who may leave boot services, in the calls and returns of a run themselves. */
module HookEvents {
  import opened Bytes
  import opened Hooks
  import opened HookRuns

  /** The image the firmware's last LoadImage behind the hook handed out; 0 if it failed or there was none. */
  function LoadedBy(es: seq<Event>, n: nat): nat
    requires n <= |es|
  {
    if n == 0 then 0
    else match es[n - 1] case LoadDone(result) => (if result.Some? then result.value else 0) case _ => LoadedBy(es, n - 1)
  }

  /** The judgements of a run, in order. */
  function ChangesOf(es: seq<Event>): seq<Change>
    decreases |es|
  {
    if es == [] then []
    else ChangesOf(es[..|es| - 1]) + ChangesIn(es[|es| - 1])
  }

  function ChangesIn(e: Event): seq<Change> {
    match e case Verify(changes) => changes case SecondStage(changes) => changes case _ => []
  }

  /** Starting shim's second stage, an image that fails, and an Exit that fails where shim hooks, take the grant back. */
  predicate TakesBack(e: Event, cfg: Config) {
    e.SecondStage? || (e.StartDone? && e.error) || (e.ExitFailed? && cfg.secure && cfg.vendorData)
  }

  /** Event j grants: shim's verification is called, or shim's StartImage is called with the image last loaded. */
  predicate Grants(es: seq<Event>, j: nat, cfg: Config)
    requires j < |es|
  {
    || es[j].Verify?
    || (es[j].Start? && es[j].image == LoadedBy(es, j)
        && After(Begin(cfg), es[..j], cfg).Some? && After(Begin(cfg), es[..j], cfg).value.g.table.start.Replacement?)
  }

  /** Some event grants, and none behind it takes the grant back. */
  predicate GrantStands(es: seq<Event>, cfg: Config) {
    exists j :: 0 <= j < |es| && Grants(es, j, cfg) && forall k :: j < k < |es| ==> !TakesBack(es[k], cfg)
  }

  // ---------------------------------------------------------------- one event more

  lemma {:induction false} AfterLast(m: Machine, es: seq<Event>, cfg: Config)
    requires es != []
    ensures After(m, es, cfg) ==
      match After(m, es[..|es| - 1], cfg) case None => None case Some(n) => Step(n, es[|es| - 1], cfg)
    decreases |es|
  {
    hide Step;
    if |es| == 1 {
      assert es[1..] == [] && es[..0] == [];
      if Step(m, es[0], cfg).Some? { RunEnds(Step(m, es[0], cfg).value, cfg); }
    } else {
      assert es[..|es| - 1][1..] == es[1..][..|es| - 2] && es[1..][|es| - 2] == es[|es| - 1];
      if Step(m, es[0], cfg).Some? { AfterLast(Step(m, es[0], cfg).value, es[1..], cfg); }
    }
  }

  lemma {:induction false} ChangedMore(v: Verification, a: seq<Change>, b: seq<Change>)
    ensures ChangedAll(v, a + b) == ChangedAll(ChangedAll(v, a), b)
    decreases |a|
  {
    if a == [] {
      assert a + b == b;
    } else {
      assert (a + b)[1..] == a[1..] + b;
      ChangedMore(Changed(v, a[0]), a[1..], b);
    }
  }

  lemma {:induction false} LoadedPrefix(es: seq<Event>, n: nat, upto: nat)
    requires n <= upto <= |es|
    ensures LoadedBy(es[..upto], n) == LoadedBy(es, n)
    decreases n
  {
    if n > 0 { LoadedPrefix(es, n - 1, upto); }
  }

  lemma GrantsPrefix(es: seq<Event>, j: nat, cfg: Config)
    requires j < |es| - 1
    ensures Grants(es[..|es| - 1], j, cfg) == Grants(es, j, cfg)
  {
    hide After;
    LoadedPrefix(es, j, |es| - 1);
    assert es[..|es| - 1][..j] == es[..j];
  }

  lemma GrantStep(es: seq<Event>, cfg: Config)
    requires es != []
    ensures GrantStands(es, cfg) <==>
      Grants(es, |es| - 1, cfg) || (!TakesBack(es[|es| - 1], cfg) && GrantStands(es[..|es| - 1], cfg))
  {
    hide Grants, TakesBack;
    var n := |es| - 1;
    var before := es[..n];
    forall j | 0 <= j < n ensures Grants(before, j, cfg) == Grants(es, j, cfg) && before[j] == es[j] { GrantsPrefix(es, j, cfg); }
    if GrantStands(es, cfg) {
      var j :| 0 <= j < |es| && Grants(es, j, cfg) && forall k :: j < k < |es| ==> !TakesBack(es[k], cfg);
      if j < n { assert Grants(before, j, cfg); }
    }
    if !TakesBack(es[n], cfg) && GrantStands(before, cfg) {
      var j :| 0 <= j < n && Grants(before, j, cfg) && forall k :: j < k < n ==> !TakesBack(before[k], cfg);
      assert Grants(es, j, cfg);
      assert forall k :: j < k < n ==> es[k] == before[k];
    }
  }

  // ---------------------------------------------------------------- the flags of a run

  /** What one event does to the flags. */
  lemma StepGlobals(m: Machine, e: Event, cfg: Config)
    requires Step(m, e, cfg).Some?
    ensures
      var g := Step(m, e, cfg).value.g;
      && g.participating ==
           (e.Verify? || (e.Start? && e.image == m.g.lastLoaded && m.g.table.start.Replacement?)
            || (!TakesBack(e, cfg) && m.g.participating))
      && g.lastLoaded == (if e.LoadDone? then (if e.result.Some? then e.result.value else 0) else m.g.lastLoaded)
      && g.verification == ChangedAll(m.g.verification, ChangesIn(e))
  {
  }

  /** One step, as the events tell it. */
  lemma StepFlags(m: Machine, es: seq<Event>, cfg: Config)
    requires es != [] && After(Begin(cfg), es[..|es| - 1], cfg) == Some(m) && Step(m, es[|es| - 1], cfg).Some?
    requires m.g.lastLoaded == LoadedBy(es, |es| - 1)
    ensures
      var e := es[|es| - 1];
      var g := Step(m, e, cfg).value.g;
      && g.participating == (Grants(es, |es| - 1, cfg) || (!TakesBack(e, cfg) && m.g.participating))
      && g.lastLoaded == LoadedBy(es, |es|)
      && g.verification == ChangedAll(m.g.verification, ChangesIn(e))
  {
    hide After, ChangedAll, Step, TakesBack, ChangesIn;
    StepGlobals(m, es[|es| - 1], cfg);
  }

  /** After any run from the first shim_init: who was granted, what was loaded last, and the verdict. */
  lemma {:induction false} RunFlags(es: seq<Event>, cfg: Config)
    requires After(Begin(cfg), es, cfg).Some?
    ensures
      var g := After(Begin(cfg), es, cfg).value.g;
      && g.participating == GrantStands(es, cfg) && g.lastLoaded == LoadedBy(es, |es|)
      && g.verification == ChangedAll(ByNothing, ChangesOf(es))
    decreases |es|
  {
    hide Step, After, GrantStands, Grants, TakesBack, LoadedBy, ChangedAll;
    if es == [] {
      AtBegin(cfg);
    } else {
      var n := |es| - 1;
      AfterLast(Begin(cfg), es, cfg);
      RunFlags(es[..n], cfg);
      var m := After(Begin(cfg), es[..n], cfg).value;
      LoadedPrefix(es, n, n);
      StepFlags(m, es, cfg);
      GrantStep(es, cfg);
      ChangedMore(ByNothing, ChangesOf(es[..n]), ChangesIn(es[n]));
    }
  }

  lemma AtBegin(cfg: Config)
    ensures After(Begin(cfg), [], cfg) == Some(Begin(cfg)) && !GrantStands([], cfg) && LoadedBy([], 0) == 0
    ensures ChangedAll(ByNothing, []) == ByNothing && Begin(cfg).g.lastLoaded == 0
    ensures Begin(cfg).g.verification == ByNothing && !Begin(cfg).g.participating
  {
  }

  /**
   Behind any run, shim's ExitBootServices shuts the machine down exactly when no grant stands and the verdict
   is not a hash; otherwise it puts back the saved entries and calls the firmware.
   */
  lemma LeavesIff(es: seq<Event>, cfg: Config)
    requires After(Begin(cfg), es, cfg).Some?
    ensures
      var m := After(Begin(cfg), es, cfg).value;
      !m.ended && m.g.table.exitBoot.Replacement? ==>
        && Step(m, ExitBoot, cfg).Some?
        && var n := Step(m, ExitBoot, cfg).value;
           if GrantStands(es, cfg) || ChangedAll(ByNothing, ChangesOf(es)) == ByHash
           then n.g.table == (if m.g.attached then m.g.saved else m.g.table) && n.log == m.log + [LeftBoot]
           else n.g == m.g && n.ended && n.log == m.log + [Refused]
  {
    hide After, GrantStands, ChangedAll;
    RunFlags(es, cfg);
  }
}
