/**
 replacements.c, and the steps of shim.c that share its globals: shim replaces four entries of the
 firmware's boot services table and decides in them whether the system may leave boot services.
 A hook that calls the firmware is split where it waits, since anything may run before the firmware
 returns.
 */
module Hooks {
  import opened Bytes

  /** What a table entry or a saved pointer holds: the firmware's own code, shim's, or another image's. */
  datatype Pointer = Null | Original | Replacement | Foreign(id: nat)

  /** The three entries hook_system_services replaces together. */
  datatype Services = Services(load: Pointer, start: Pointer, exitBoot: Pointer)

  const FIRMWARE := Services(Original, Original, Original)
  const HOOKED := Services(Replacement, Replacement, Replacement)

  datatype Verification = ByNothing | ByCert | ByHash

  /** verification_method is assigned, or set only if nothing verified yet (update_verification_method). */
  datatype Change = Assign(how: Verification) | Update(how: Verification)

  function Changed(v: Verification, c: Change): Verification {
    match c
    case Assign(how) => how
    case Update(how) => if v.ByNothing? then how else v
  }

  function ChangedAll(v: Verification, cs: seq<Change>): Verification
    decreases |cs|
  {
    if cs == [] then v else ChangedAll(Changed(v, cs[0]), cs[1..])
  }

  /** What came before an assignment does not matter. */
  lemma {:induction false} AssignmentDecides(v: Verification, cs: seq<Change>, k: nat)
    requires k < |cs| && cs[k].Assign?
    ensures ChangedAll(v, cs) == ChangedAll(cs[k].how, cs[k + 1..])
    decreases k
  {
    if k > 0 {
      AssignmentDecides(Changed(v, cs[0]), cs[1..], k - 1);
      assert cs[1..][k..] == cs[k + 1..];
    }
  }

  /** Of several updates the first verdict stands, and none changes a verdict there is already. */
  lemma {:induction false} FirstUpdateStands(v: Verification, cs: seq<Change>)
    requires forall k :: 0 <= k < |cs| ==> cs[k].Update?
    ensures v != ByNothing ==> ChangedAll(v, cs) == v
    ensures v == ByNothing && (forall k :: 0 <= k < |cs| ==> cs[k].how == ByNothing) ==> ChangedAll(v, cs) == ByNothing
    ensures forall j :: (0 <= j < |cs| && v == ByNothing && cs[j].how != ByNothing
                             && forall k :: 0 <= k < j ==> cs[k].how == ByNothing) ==> ChangedAll(v, cs) == cs[j].how
    decreases |cs|
  {
    if cs != [] {
      assert forall k :: 0 <= k < |cs[1..]| ==> cs[1..][k] == cs[k + 1];
      FirstUpdateStands(Changed(v, cs[0]), cs[1..]);
      forall j | 0 < j < |cs| && v == ByNothing && cs[j].how != ByNothing && (forall k :: 0 <= k < j ==> cs[k].how == ByNothing)
        ensures ChangedAll(v, cs) == cs[j].how
      {
        assert cs[0].how == ByNothing && cs[1..][j - 1] == cs[j];
      }
    }
  }

  /** Secure mode, and whether shim carries vendor certificates of its own. */
  datatype Config = Config(secure: bool, vendorData: bool)

  /** The globals; images are numbered and 0 is the null handle. */
  datatype Globals = Globals(
    table: Services,
    exit: Pointer,
    saved: Services,
    savedExit: Pointer,
    attached: bool,
    participating: bool,
    verification: Verification,
    lastLoaded: nat
  )

  // ---------------------------------------------------------------- the procedures

  function Hook(g: Globals): Globals { g.(attached := true, saved := g.table, table := HOOKED) }

  function Unhook(g: Globals): Globals { if g.attached then g.(table := g.saved) else g }

  function Init(g: Globals, cfg: Config): Globals {
    var h := if cfg.secure && cfg.vendorData then Hook(g).(participating := false) else g;
    h.(attached := true, savedExit := h.exit, exit := Replacement)
  }

  function Fini(g: Globals, cfg: Config): Globals {
    var h := if cfg.secure then Unhook(g) else g;
    h.(exit := h.savedExit)
  }

  function EnterStart(g: Globals, image: nat): Globals {
    var h := Unhook(g);
    if image == h.lastLoaded then h.(participating := true) else h
  }

  function LeaveStart(g: Globals, error: bool): Globals {
    if error then Hook(g).(participating := false) else g
  }

  function LeaveLoad(g: Globals, image: Option<nat>): Globals {
    Hook(g).(lastLoaded := match image case None => 0 case Some(h) => h)
  }

  predicate MayLeave(g: Globals) { g.participating || g.verification.ByHash? }

  class Shim {
    const cfg: Config
    var table: Services
    var exit: Pointer
    var saved: Services
    var savedExit: Pointer
    var attached: bool
    var participating: bool
    var verification: Verification
    var lastLoaded: nat

    /** The globals as efi_main finds them. */
    constructor (cfg: Config)
      ensures this.cfg == cfg
      ensures View() == Fresh()
    {
      this.cfg := cfg;
      table, exit := FIRMWARE, Original;
      saved, savedExit := Services(Null, Null, Null), Null;
      attached, participating := false, false;
      verification, lastLoaded := ByNothing, 0;
    }

    function View(): Globals
      reads this
    {
      Globals(table, exit, saved, savedExit, attached, participating, verification, lastLoaded)
    }

    method HookSystemServices()
      modifies this
      ensures View() == Hook(old(View()))
    {
      attached := true;
      saved := saved.(load := table.load);
      table := table.(load := Replacement);
      saved := saved.(start := table.start);
      table := table.(start := Replacement);
      saved := saved.(exitBoot := table.exitBoot);
      table := table.(exitBoot := Replacement);
    }

    method UnhookSystemServices()
      modifies this
      ensures View() == Unhook(old(View()))
    {
      if !attached { return; }
      table := table.(load := saved.load);
      table := table.(start := saved.start);
      table := table.(exitBoot := saved.exitBoot);
    }

    method ShimInit()
      modifies this
      ensures View() == Init(old(View()), cfg)
    {
      if cfg.secure {
        if cfg.vendorData {
          HookSystemServices();
          participating := false;
        }
      }
      attached := true;
      savedExit := exit;
      exit := Replacement;
    }

    method ShimFini()
      modifies this
      ensures View() == Fini(old(View()), cfg)
    {
      if cfg.secure { UnhookSystemServices(); }
      exit := savedExit;
    }

    /** load_image up to the firmware call; `callee` is what it calls. */
    method LoadImageEnter() returns (callee: Pointer)
      modifies this
      ensures View() == Unhook(old(View())) && callee == table.load
    {
      UnhookSystemServices();
      callee := table.load;
    }

    method LoadImageLeave(image: Option<nat>)
      modifies this
      ensures View() == LeaveLoad(old(View()), image)
    {
      HookSystemServices();
      lastLoaded := match image case None => 0 case Some(h) => h;
    }

    method StartImageEnter(image: nat) returns (callee: Pointer)
      modifies this
      ensures View() == EnterStart(old(View()), image) && callee == table.start
    {
      UnhookSystemServices();
      if image == lastLoaded { participating := true; }
      callee := table.start;
    }

    method StartImageLeave(error: bool)
      modifies this
      ensures View() == LeaveStart(old(View()), error)
    {
      if error {
        HookSystemServices();
        participating := false;
      }
    }

    /** exit_boot_services up to the firmware call; no callee means the machine is shut down. */
    method ExitBootServicesEnter() returns (callee: Option<Pointer>)
      modifies this
      ensures callee.Some? <==> MayLeave(old(View()))
      ensures callee.Some? ==> View() == Unhook(old(View())) && callee.value == table.exitBoot
      ensures callee.None? ==> View() == old(View())
    {
      if participating || verification == ByHash {
        UnhookSystemServices();
        return Some(table.exitBoot);
      }
      return None;
    }

    method ExitBootServicesLeave(error: bool)
      modifies this
      ensures View() == if error then Hook(old(View())) else old(View())
    {
      if error { HookSystemServices(); }
    }

    method DoExitEnter() returns (callee: Pointer)
      modifies this
      ensures View() == Fini(old(View()), cfg) && callee == exit
    {
      ShimFini();
      callee := exit;
    }

    /** do_exit behind a firmware Exit that returned, which means it failed. */
    method DoExitLeave()
      modifies this
      ensures View() == Init(old(View()), cfg)
    {
      ShimInit();
    }

    /** shim_verify, as far as these globals go. */
    method Verify(changes: seq<Change>)
      modifies this
      ensures View() == old(View()).(participating := true, verification := ChangedAll(old(verification), changes))
    {
      participating := true;
      ApplyChanges(changes);
    }

    /** start_image up to the jump into the image it verified. */
    method StartSecondStage(changes: seq<Change>)
      modifies this
      ensures View() == old(View()).(participating := false, verification := ChangedAll(old(verification), changes))
    {
      ApplyChanges(changes);
      participating := false;
    }

    method ApplyChanges(changes: seq<Change>)
      modifies this
      ensures View() == old(View()).(verification := ChangedAll(old(verification), changes))
    {
      var i := 0;
      while i < |changes|
        invariant i <= |changes|
        invariant View() == old(View()).(verification := verification)
        invariant ChangedAll(verification, changes[i..]) == ChangedAll(old(verification), changes)
      {
        verification := Changed(verification, changes[i]);
        i := i + 1;
      }
    }
  }

  /** The state efi_main starts from. */
  function Fresh(): Globals {
    Globals(FIRMWARE, Original, Services(Null, Null, Null), Null, false, false, ByNothing, 0)
  }
}
