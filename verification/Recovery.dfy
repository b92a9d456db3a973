/**
 The desktop shell's recovery mode (packages/desktop/src/recovery.ts, lines
 29-81, 217-301, 335-357 and 394-545; main.ts, lines 362-407 and 455-463).

 Three one-shot timers watch the main window: the connection deadline, the boot
 deadline and the unresponsive grace period. A timer is modelled by the instant
 at which it is due. In a timed run a timer fires exactly when due, and nothing
 else happens after that instant until it has fired; events at the same instant
 come in any order.
 */
module Recovery {
  import opened Totals

  const BOOT_TIMEOUT_MS := 20_000
  const CONNECTION_TIMEOUT_MS := 20_000
  const UNRESPONSIVE_GRACE_MS := 10_000

  datatype ReasonCode = LoadFailed | RenderGone | Unresponsive | RendererStalled

  datatype Mode = Normal | InRecovery

  datatype State = State(
    mode: Mode,
    reason: Option<ReasonCode>,
    entered: bool,             // the store's re-entry guard, inRecoveryMode
    pinged: bool,              // pingReceivedThisNav
    boot: Option<int>,
    bootArmed: bool,
    connection: Option<int>,
    grace: Option<int>,
    windowOpen: bool,
    loads: nat,                // how often recovery.html was loaded
    exits: nat                 // how often the guard was cleared
  )

  const INITIAL := State(Normal, None, false, false, None, false, None, None, false, 0, 0)

  datatype Action = Reload | ChangeInstance | OtherAction

  datatype What =
    | WindowOpened
    | StartNavigation(mainFrame: bool, sameDocument: bool, http: bool)
    | Navigated(http: bool)
    | FailLoad(mainFrame: bool, aborted: bool)
    | ProcessGone(cleanExit: bool)
    | BecameUnresponsive
    | BecameResponsive
    | RendererReady
    | Act(action: Action)
    | Closed
    | ConnectionFires
    | BootFires
    | GraceFires
    | TimePasses

  datatype Event = Event(what: What, at: int)

  // ---------------------------------------------------------------------
  // The effect of one event
  // ---------------------------------------------------------------------

  function Entered(s: State, code: ReasonCode): State {
    s.(mode := InRecovery, reason := Some(code), entered := true,
       loads := if !s.entered && s.windowOpen then s.loads + 1 else s.loads)
  }

  function Exited(s: State): State {
    s.(mode := Normal, reason := None, entered := false, exits := s.exits + 1)
  }

  /** Neither the connection nor the boot deadline is pending. */
  function Quiet(s: State): State {
    s.(connection := None, boot := None, bootArmed := false)
  }

  function Next(packaged: bool, s: State, e: Event): State {
    match e.what
    case WindowOpened => s.(windowOpen := true)
    case StartNavigation(mainFrame, sameDocument, http) =>
      if !mainFrame || sameDocument then s
      else if packaged && http then Quiet(s).(connection := Some(e.at + CONNECTION_TIMEOUT_MS))
      else Quiet(s)
    case Navigated(http) =>
      if packaged && http then
        Quiet(s).(pinged := false, boot := Some(e.at + BOOT_TIMEOUT_MS), bootArmed := true)
      else Quiet(s).(pinged := false)
    case FailLoad(mainFrame, aborted) =>
      if mainFrame && !aborted then Entered(Quiet(s), LoadFailed) else s
    case ProcessGone(cleanExit) => if cleanExit then s else Entered(Quiet(s), RenderGone)
    case BecameUnresponsive => if s.grace.Some? then s else s.(grace := Some(e.at + UNRESPONSIVE_GRACE_MS))
    case BecameResponsive => s.(grace := None)
    case RendererReady =>
      if s.bootArmed then s.(pinged := true, boot := None, bootArmed := false) else s.(pinged := true)
    case Act(action) => if action == OtherAction then s else Exited(s)
    case Closed => Exited(Quiet(s).(grace := None, windowOpen := false))
    case ConnectionFires =>
      if s.windowOpen then Entered(s.(connection := None), LoadFailed) else s.(connection := None)
    case BootFires =>
      if s.bootArmed then Entered(s.(boot := None, bootArmed := false), RendererStalled) else s.(boot := None)
    case GraceFires => Entered(s.(grace := None), Unresponsive)
    case TimePasses => s
  }

  // ---------------------------------------------------------------------
  // The module state, its helpers and the event handlers
  // ---------------------------------------------------------------------

  class RecoveryMonitor {
    const packaged: bool
    var mode: Mode
    var reason: Option<ReasonCode>
    var inRecoveryMode: bool
    var pingReceivedThisNav: bool
    var bootTimer: Option<int>
    var bootArmed: bool
    var connectionTimer: Option<int>
    var unresponsiveTimer: Option<int>
    var windowOpen: bool
    ghost var loads: nat
    ghost var exits: nat

    ghost function Now(): State
      reads this
    {
      State(mode, reason, inRecoveryMode, pingReceivedThisNav, bootTimer, bootArmed,
            connectionTimer, unresponsiveTimer, windowOpen, loads, exits)
    }

    constructor (packaged: bool)
      ensures this.packaged == packaged && Now() == INITIAL
    {
      this.packaged := packaged;
      mode, reason, inRecoveryMode, pingReceivedThisNav := Normal, None, false, false;
      bootTimer, bootArmed, connectionTimer, unresponsiveTimer := None, false, None, None;
      windowOpen, loads, exits := false, 0, 0;
    }

    method EnterRecoveryMode(code: ReasonCode)
      modifies this
      ensures Now() == Entered(old(Now()), code)
    {
      mode, reason := InRecovery, Some(code);
      if inRecoveryMode {
        return;
      }
      inRecoveryMode := true;
      if !windowOpen {
        return;
      }
      loads := loads + 1;
    }

    /** markRecoveryExited and the update that follows it at each of its three call sites. */
    method ExitRecoveryMode()
      modifies this
      ensures Now() == Exited(old(Now()))
    {
      inRecoveryMode := false;
      mode, reason := Normal, None;
      exits := exits + 1;
    }

    method ClearBootTimer()
      modifies this
      ensures Now() == old(Now()).(boot := None, bootArmed := false)
    {
      bootTimer, bootArmed := None, false;
    }

    method ClearConnectionTimer()
      modifies this
      ensures Now() == old(Now()).(connection := None)
    {
      connectionTimer := None;
    }

    method ArmBootTimer(http: bool, now: int)
      modifies this
      ensures Now() == if packaged && http && !old(pingReceivedThisNav)
                       then old(Now()).(boot := Some(now + BOOT_TIMEOUT_MS), bootArmed := true)
                       else old(Now())
    {
      if !packaged || !http || pingReceivedThisNav {
        return;
      }
      ClearBootTimer();
      bootArmed := true;
      bootTimer := Some(now + BOOT_TIMEOUT_MS);
    }

    method HandleRendererReady(now: int)
      modifies this
      ensures Now() == Next(packaged, old(Now()), Event(RendererReady, now))
    {
      pingReceivedThisNav := true;
      if bootArmed {
        ClearBootTimer();
      }
    }

    method HandleRecoveryAction(action: Action, now: int)
      modifies this
      ensures Now() == Next(packaged, old(Now()), Event(Act(action), now))
    {
      if action == Reload || action == ChangeInstance {
        ExitRecoveryMode();
      }
    }

    method OnDidStartNavigation(mainFrame: bool, sameDocument: bool, http: bool, now: int)
      modifies this
      ensures Now() == Next(packaged, old(Now()), Event(StartNavigation(mainFrame, sameDocument, http), now))
    {
      if !mainFrame || sameDocument {
        return;
      }
      ClearConnectionTimer();
      ClearBootTimer();
      if !packaged || !http {
        return;
      }
      connectionTimer := Some(now + CONNECTION_TIMEOUT_MS);
    }

    method OnDidNavigate(http: bool, now: int)
      modifies this
      ensures Now() == Next(packaged, old(Now()), Event(Navigated(http), now))
    {
      ClearConnectionTimer();
      ClearBootTimer();
      pingReceivedThisNav := false;
      ArmBootTimer(http, now);
    }

    method OnDidFailLoad(mainFrame: bool, aborted: bool, now: int)
      modifies this
      ensures Now() == Next(packaged, old(Now()), Event(FailLoad(mainFrame, aborted), now))
    {
      if !mainFrame || aborted {
        return;
      }
      ClearConnectionTimer();
      ClearBootTimer();
      EnterRecoveryMode(LoadFailed);
    }

    method OnRenderProcessGone(cleanExit: bool, now: int)
      modifies this
      ensures Now() == Next(packaged, old(Now()), Event(ProcessGone(cleanExit), now))
    {
      if cleanExit {
        return;
      }
      ClearConnectionTimer();
      ClearBootTimer();
      EnterRecoveryMode(RenderGone);
    }

    method OnUnresponsive(now: int)
      modifies this
      ensures Now() == Next(packaged, old(Now()), Event(BecameUnresponsive, now))
    {
      if unresponsiveTimer.None? {
        unresponsiveTimer := Some(now + UNRESPONSIVE_GRACE_MS);
      }
    }

    method OnResponsive(now: int)
      modifies this
      ensures Now() == Next(packaged, old(Now()), Event(BecameResponsive, now))
    {
      unresponsiveTimer := None;
    }

    /** Both 'closed' listeners: the one that clears the timers and the one in main.ts. */
    method OnClosed(now: int)
      modifies this
      ensures Now() == Next(packaged, old(Now()), Event(Closed, now))
    {
      ClearConnectionTimer();
      ClearBootTimer();
      unresponsiveTimer := None;
      windowOpen := false;
      ExitRecoveryMode();
    }

    method OnConnectionTimer(now: int)
      modifies this
      ensures Now() == Next(packaged, old(Now()), Event(ConnectionFires, now))
    {
      connectionTimer := None;
      if !windowOpen {
        return;
      }
      EnterRecoveryMode(LoadFailed);
    }

    method OnBootTimer(now: int)
      modifies this
      ensures Now() == Next(packaged, old(Now()), Event(BootFires, now))
    {
      bootTimer := None;
      if !bootArmed {
        return;
      }
      bootArmed := false;
      EnterRecoveryMode(RendererStalled);
    }

    method OnUnresponsiveTimer(now: int)
      modifies this
      ensures Now() == Next(packaged, old(Now()), Event(GraceFires, now))
    {
      unresponsiveTimer := None;
      EnterRecoveryMode(Unresponsive);
    }
  }

  // ---------------------------------------------------------------------
  // Timed runs
  // ---------------------------------------------------------------------

  ghost function After(packaged: bool, trace: seq<Event>): State {
    if trace == [] then INITIAL
    else Next(packaged, After(packaged, trace[..|trace| - 1]), trace[|trace| - 1])
  }

  ghost predicate NotOverdue(timer: Option<int>, now: int) {
    timer.Some? ==> now <= timer.value
  }

  /** An event can happen now: no timer is overdue, a timer fires when due, window events need a window. */
  ghost predicate CanHappen(s: State, e: Event) {
    && NotOverdue(s.boot, e.at) && NotOverdue(s.connection, e.at) && NotOverdue(s.grace, e.at)
    && match e.what
       case ConnectionFires => s.connection == Some(e.at)
       case BootFires => s.boot == Some(e.at)
       case GraceFires => s.grace == Some(e.at)
       case WindowOpened => !s.windowOpen
       case Act(_) => true
       case TimePasses => true
       case _ => s.windowOpen
  }

  ghost predicate Timed(packaged: bool, trace: seq<Event>) {
    trace != [] ==>
      var n := |trace| - 1;
      && Timed(packaged, trace[..n])
      && (n > 0 ==> trace[n - 1].at <= trace[n].at)
      && CanHappen(After(packaged, trace[..n]), trace[n])
  }

  lemma {:induction false} TimedPrefix(packaged: bool, trace: seq<Event>, n: nat)
    requires Timed(packaged, trace) && n <= |trace|
    ensures Timed(packaged, trace[..n])
    ensures n < |trace| ==> CanHappen(After(packaged, trace[..n]), trace[n])
  {
    if n < |trace| - 1 {
      TimedPrefix(packaged, trace[..|trace| - 1], n);
      assert trace[..|trace| - 1][..n] == trace[..n];
    } else {
      assert trace[..|trace|] == trace;
    }
  }

  // ---------------------------------------------------------------------
  // Recovery episodes
  // ---------------------------------------------------------------------

  ghost predicate Coherent(packaged: bool, s: State) {
    && (s.mode == InRecovery <==> s.entered) && (s.entered <==> s.reason.Some?)
    && (s.bootArmed <==> s.boot.Some?)
    && (s.bootArmed ==> !s.pinged)
    && !(s.boot.Some? && s.connection.Some?)
    && (s.boot.Some? || s.connection.Some? ==> packaged && s.windowOpen)
    && (s.grace.Some? ==> s.windowOpen)
    && s.loads <= s.exits + if s.entered then 1 else 0
  }

  /**
   At every event boundary: mode, guard and reason agree; an armed boot timer
   means no ping yet; boot and connection deadlines exclude each other; and
   recovery.html has been loaded at most once more than recovery was left.
   */
  lemma {:induction false} EpisodesAreCoherent(packaged: bool, trace: seq<Event>)
    requires Timed(packaged, trace)
    ensures Coherent(packaged, After(packaged, trace))
    ensures After(packaged, trace).loads <= After(packaged, trace).exits + 1
  {
    if trace != [] {
      EpisodesAreCoherent(packaged, trace[..|trace| - 1]);
      StepIsCoherent(packaged, After(packaged, trace[..|trace| - 1]), trace[|trace| - 1]);
    }
  }

  lemma StepIsCoherent(packaged: bool, s: State, e: Event)
    requires Coherent(packaged, s) && CanHappen(s, e)
    ensures Coherent(packaged, Next(packaged, s, e))
  {
  }

  /** Between two exits recovery.html is loaded at most once, and never again while recovery lasts. */
  lemma {:induction false} OneLoadBetweenExits(packaged: bool, trace: seq<Event>, from: nat)
    requires Timed(packaged, trace) && from <= |trace|
    requires After(packaged, trace).exits == After(packaged, trace[..from]).exits
    ensures After(packaged, trace).loads <= After(packaged, trace[..from]).loads
                                            + if After(packaged, trace[..from]).entered then 0 else 1
    ensures After(packaged, trace[..from]).entered ==> After(packaged, trace).entered
  {
    OneLoadFrom(packaged, trace, from);
  }

  /** Loads are paid for by exits: a load needs the guard down, and only an exit takes it down. */
  ghost predicate Paid(s: State, t: State) {
    && s.exits <= t.exits
    && (s.exits == t.exits ==>
          && (s.entered ==> t.entered)
          && t.loads + (if s.entered then 1 else 0) <= s.loads + if t.entered then 1 else 0)
  }

  /** The events that can enter recovery; the others leave or ignore it. */
  predicate CanEnter(what: What) {
    what.FailLoad? || what.ProcessGone? || what.ConnectionFires? || what.BootFires? || what.GraceFires?
  }

  lemma EnteringIsPaid(packaged: bool, s: State, t: State, e: Event)
    requires Paid(s, t) && CanEnter(e.what)
    ensures Paid(s, Next(packaged, t, e))
  {
  }

  predicate Exits(what: What) {
    what.Closed? || (what.Act? && what.action != OtherAction)
  }

  lemma OtherEventsExitOrIgnore(packaged: bool, t: State, e: Event)
    requires !CanEnter(e.what)
    ensures var u := Next(packaged, t, e);
            && u.loads == t.loads
            && (if Exits(e.what) then u.exits == t.exits + 1 else u.exits == t.exits && u.entered == t.entered)
  {
  }

  lemma StepIsPaid(packaged: bool, s: State, t: State, e: Event)
    requires Paid(s, t)
    ensures Paid(s, Next(packaged, t, e))
  {
    hide Next;
    if CanEnter(e.what) {
      EnteringIsPaid(packaged, s, t, e);
    } else {
      OtherEventsExitOrIgnore(packaged, t, e);
    }
  }

  lemma {:induction false} OneLoadFrom(packaged: bool, trace: seq<Event>, from: nat)
    requires from <= |trace|
    ensures Paid(After(packaged, trace[..from]), After(packaged, trace))
  {
    if from < |trace| {
      var before := trace[..|trace| - 1];
      assert before[..from] == trace[..from];
      OneLoadFrom(packaged, before, from);
      StepIsPaid(packaged, After(packaged, trace[..from]), After(packaged, before), trace[|trace| - 1]);
    } else {
      assert trace[..from] == trace;
    }
  }

  // ---------------------------------------------------------------------
  // When renderer-stalled is reported
  // ---------------------------------------------------------------------

  /** Events that end the wait for the page committed last. */
  predicate EndsWait(what: What) {
    match what
    case StartNavigation(mainFrame, sameDocument, _) => mainFrame && !sameDocument
    case Navigated(_) => true
    case FailLoad(mainFrame, aborted) => mainFrame && !aborted
    case ProcessGone(cleanExit) => !cleanExit
    case RendererReady => true
    case Closed => true
    case BootFires => true
    case _ => false
  }

  /** An http(s) page was committed at position `i` and nothing has ended the wait for it. */
  ghost predicate WaitingSince(trace: seq<Event>, i: nat) {
    && i < |trace|
    && trace[i].what == Navigated(true)
    && forall j :: i < j < |trace| ==> !EndsWait(trace[j].what)
  }

  /** Some committed page's wait runs out at `due`. */
  ghost predicate WaitEndsAt(trace: seq<Event>, due: int) {
    exists i: nat :: WaitingSince(trace, i) && due == trace[i].at + 20_000
  }

  lemma WaitGoesOn(trace: seq<Event>, due: int)
    requires trace != [] && !EndsWait(trace[|trace| - 1].what)
    ensures WaitEndsAt(trace, due) <==> WaitEndsAt(trace[..|trace| - 1], due)
  {
  }

  lemma WaitStartsOrEnds(trace: seq<Event>, due: int)
    requires trace != [] && EndsWait(trace[|trace| - 1].what)
    ensures WaitEndsAt(trace, due) <==>
            trace[|trace| - 1].what == Navigated(true) && due == trace[|trace| - 1].at + 20_000
  {
  }

  lemma StepArmsOrKeeps(s: State, e: Event, due: int)
    requires Coherent(true, s) && CanHappen(s, e)
    ensures Next(true, s, e).boot == Some(due) <==>
            if EndsWait(e.what) then e.what == Navigated(true) && due == e.at + 20_000 else s.boot == Some(due)
  {
  }

  /** The boot timer is pending exactly while a committed page has neither pinged nor been left. */
  lemma {:induction false} BootTimerMeansWaiting(trace: seq<Event>, due: int)
    requires Timed(true, trace)
    ensures After(true, trace).boot == Some(due) <==> WaitEndsAt(trace, due)
  {
    if trace != [] {
      var n := |trace| - 1;
      BootTimerMeansWaiting(trace[..n], due);
      EpisodesAreCoherent(true, trace[..n]);
      StepArmsOrKeeps(After(true, trace[..n]), trace[n], due);
      if EndsWait(trace[n].what) {
        WaitStartsOrEnds(trace, due);
      } else {
        WaitGoesOn(trace, due);
      }
    }
  }

  lemma StalledNeedsBootTimer(packaged: bool, s: State, e: Event)
    requires Coherent(packaged, s) && CanHappen(s, e)
    ensures var t := Next(packaged, s, e);
            (e.what == BootFires || (t.reason == Some(RendererStalled) && s.reason != t.reason)) ==>
              packaged && e.what == BootFires && s.boot == Some(e.at) && t.reason == Some(RendererStalled)
  {
  }

  /**
   An event reports renderer-stalled only when a page was committed exactly
   20 000 ms earlier, and since then no page has been started or committed and
   the renderer has not reported ready. When the boot timer fires it always reports it.
   */
  lemma StalledExactlyWhenDue(packaged: bool, before: seq<Event>, e: Event)
    requires Timed(packaged, before + [e])
    ensures var s, t := After(packaged, before), After(packaged, before + [e]);
            && (t.reason == Some(RendererStalled) && s.reason != t.reason ==> e.what == BootFires)
            && (e.what == BootFires ==> packaged && t.reason == Some(RendererStalled) && WaitEndsAt(before, e.at))
  {
    assert (before + [e])[..|before|] == before;
    EpisodesAreCoherent(packaged, before);
    StalledNeedsBootTimer(packaged, After(packaged, before), e);
    if e.what == BootFires {
      BootTimerMeansWaiting(before, e.at);
    }
  }

  // ---------------------------------------------------------------------
  // Every navigation is settled in time
  // ---------------------------------------------------------------------

  datatype Phase = Connecting | Committed(at: int) | Settled

  /** What an event does to a navigation; a ping counts only once the page is committed. */
  function Advance(phase: Phase, e: Event): Phase {
    match e.what
    case StartNavigation(mainFrame, sameDocument, _) => if mainFrame && !sameDocument then Settled else phase
    case Navigated(http) => if phase.Connecting? && http then Committed(e.at) else Settled
    case FailLoad(mainFrame, aborted) => if mainFrame && !aborted then Settled else phase
    case ProcessGone(cleanExit) => if cleanExit then phase else Settled
    case RendererReady => if phase.Connecting? then phase else Settled
    case Closed => Settled
    case ConnectionFires => Settled
    case BootFires => Settled
    case GraceFires => Settled
    case _ => phase
  }

  /** Where the navigation started at position `i` stands after the whole trace. */
  ghost function PhaseOf(trace: seq<Event>, i: nat): Phase
    requires i < |trace|
  {
    if i == |trace| - 1 then Connecting
    else
      var before := PhaseOf(trace[..|trace| - 1], i);
      if before.Settled? then Settled else Advance(before, trace[|trace| - 1])
  }

  ghost predicate Deadline(s: State, phase: Phase, start: int) {
    match phase
    case Connecting => s.connection == Some(start + CONNECTION_TIMEOUT_MS)
    case Committed(at) => s.boot == Some(at + BOOT_TIMEOUT_MS) && at <= start + CONNECTION_TIMEOUT_MS
    case Settled => true
  }

  lemma {:induction false} UnsettledHasDeadline(trace: seq<Event>, i: nat)
    requires Timed(true, trace) && i < |trace|
    requires trace[i].what == StartNavigation(true, false, true)
    ensures Deadline(After(true, trace), PhaseOf(trace, i), trace[i].at)
  {
    if i < |trace| - 1 {
      UnsettledHasDeadline(trace[..|trace| - 1], i);
      EpisodesAreCoherent(true, trace[..|trace| - 1]);
    }
  }

  // ---------------------------------------------------------------------
  // What puts the shell into recovery, and what takes it out
  // ---------------------------------------------------------------------

  /** The troubles, each with its own reason. */
  function Trouble(what: What): Option<ReasonCode> {
    match what
    case FailLoad(mainFrame, aborted) => if mainFrame && !aborted then Some(LoadFailed) else None
    case ProcessGone(cleanExit) => if cleanExit then None else Some(RenderGone)
    case ConnectionFires => Some(LoadFailed)
    case BootFires => Some(RendererStalled)
    case GraceFires => Some(Unresponsive)
    case _ => None
  }

  /** Reload, change of instance and the closing of the window. */
  predicate WayOut(what: What) {
    what == Closed || what == Act(Reload) || what == Act(ChangeInstance)
  }

  /** The trouble at `i` is the last, and nothing has led out of recovery since. */
  ghost predicate LastTrouble(trace: seq<Event>, i: nat, code: ReasonCode) {
    && i < |trace| && Trouble(trace[i].what) == Some(code)
    && forall j :: i < j < |trace| ==> Trouble(trace[j].what).None? && !WayOut(trace[j].what)
  }

  lemma StepInTrouble(packaged: bool, s: State, e: Event)
    requires Coherent(packaged, s) && CanHappen(s, e)
    ensures Next(packaged, s, e).reason
         == if Trouble(e.what).Some? then Trouble(e.what) else if WayOut(e.what) then None else s.reason
  {
  }

  lemma StepLoads(packaged: bool, s: State, e: Event)
    requires Coherent(packaged, s) && CanHappen(s, e)
    ensures Next(packaged, s, e).loads == s.loads + if Trouble(e.what).Some? && s.reason.None? then 1 else 0
  {
  }

  /**
   Over every run the shell is in recovery, with this reason, exactly when the
   last trouble had this reason and nothing has led out since.
   */
  lemma {:induction false} InRecoveryIff(packaged: bool, trace: seq<Event>, code: ReasonCode)
    requires Timed(packaged, trace)
    ensures After(packaged, trace).reason == Some(code) <==> exists i: nat :: LastTrouble(trace, i, code)
    ensures After(packaged, trace).mode == InRecovery <==> After(packaged, trace).reason.Some?
    ensures After(packaged, trace).entered <==> After(packaged, trace).reason.Some?
  {
    hide Next, Trouble, WayOut, CanHappen;
    EpisodesAreCoherent(packaged, trace);
    if trace != [] {
      var n := |trace| - 1;
      InRecoveryIff(packaged, trace[..n], code);
      EpisodesAreCoherent(packaged, trace[..n]);
      StepInTrouble(packaged, After(packaged, trace[..n]), trace[n]);
      LastTroubleStep(trace, code);
    }
  }

  lemma LastTroubleStep(trace: seq<Event>, code: ReasonCode)
    requires trace != []
    ensures var n := |trace| - 1;
            (exists i: nat :: LastTrouble(trace, i, code)) <==>
            if Trouble(trace[n].what).Some? then Trouble(trace[n].what) == Some(code)
            else !WayOut(trace[n].what) && exists i: nat :: LastTrouble(trace[..n], i, code)
  {
    var n := |trace| - 1;
    hide Trouble, WayOut;
    if i: nat :| LastTrouble(trace, i, code) && i < n {
      assert LastTrouble(trace[..n], i, code);
    }
    if i: nat :| LastTrouble(trace[..n], i, code) && Trouble(trace[n].what).None? && !WayOut(trace[n].what) {
      assert LastTrouble(trace, i, code);
    }
    if Trouble(trace[n].what) == Some(code) {
      assert LastTrouble(trace, n, code);
    }
  }

  /** The event at `k` is a trouble, and the shell shows recovery for it. */
  ghost predicate Shows(packaged: bool, trace: seq<Event>, k: nat) {
    k < |trace| &&
    var t := After(packaged, trace[..k + 1]);
    Trouble(trace[k].what).Some? && t.mode == InRecovery && t.entered && t.reason == Trouble(trace[k].what)
  }

  /** A connection or boot timeout, an unresponsive timeout, a main-frame failure and an unclean exit all show recovery, loading its page once. */
  lemma TroubleShows(packaged: bool, trace: seq<Event>, k: nat)
    requires Timed(packaged, trace) && k < |trace| && Trouble(trace[k].what).Some?
    ensures Shows(packaged, trace, k)
    ensures After(packaged, trace[..k + 1]).loads
         == After(packaged, trace[..k]).loads + if After(packaged, trace[..k]).mode == InRecovery then 0 else 1
  {
    TimedPrefix(packaged, trace, k);
    EpisodesAreCoherent(packaged, trace[..k]);
    StepInTrouble(packaged, After(packaged, trace[..k]), trace[k]);
    StepLoads(packaged, After(packaged, trace[..k]), trace[k]);
    StepIsCoherent(packaged, After(packaged, trace[..k]), trace[k]);
    assert trace[..k + 1][..k] == trace[..k];
    hide Next, CanHappen;
  }

  // ---------------------------------------------------------------------
  // What the other two timers and the ping flag mean
  // ---------------------------------------------------------------------

  /** Events that end the wait for a connection. */
  predicate EndsConnecting(what: What) {
    match what
    case StartNavigation(mainFrame, sameDocument, _) => mainFrame && !sameDocument
    case Navigated(_) => true
    case FailLoad(mainFrame, aborted) => mainFrame && !aborted
    case ProcessGone(cleanExit) => !cleanExit
    case Closed => true
    case ConnectionFires => true
    case _ => false
  }

  ghost predicate ConnectingSince(trace: seq<Event>, i: nat) {
    && i < |trace| && trace[i].what == StartNavigation(true, false, true)
    && forall j :: i < j < |trace| ==> !EndsConnecting(trace[j].what)
  }

  lemma StepConnection(s: State, e: Event, due: int)
    requires Coherent(true, s) && CanHappen(s, e)
    ensures Next(true, s, e).connection == Some(due) <==>
            if EndsConnecting(e.what) then e.what == StartNavigation(true, false, true) && due == e.at + 20_000
            else s.connection == Some(due)
  {
  }

  /** The connection deadline is pending exactly while a started navigation has been neither committed nor ended otherwise. */
  lemma {:induction false} ConnectionTimerMeansConnecting(trace: seq<Event>, due: int)
    requires Timed(true, trace)
    ensures After(true, trace).connection == Some(due)
       <==> exists i: nat :: ConnectingSince(trace, i) && due == trace[i].at + 20_000
  {
    hide Next, EndsConnecting, CanHappen;
    if trace != [] {
      var n := |trace| - 1;
      ConnectionTimerMeansConnecting(trace[..n], due);
      EpisodesAreCoherent(true, trace[..n]);
      StepConnection(After(true, trace[..n]), trace[n], due);
      ConnectingStep(trace, due);
    }
  }

  lemma ConnectingStep(trace: seq<Event>, due: int)
    requires trace != []
    ensures (exists i: nat :: ConnectingSince(trace, i) && due == trace[i].at + 20_000) <==>
            var last := trace[|trace| - 1];
            if EndsConnecting(last.what) then last.what == StartNavigation(true, false, true) && due == last.at + 20_000
            else exists i: nat :: ConnectingSince(trace[..|trace| - 1], i) && due == trace[i].at + 20_000
  {
    var n := |trace| - 1;
    assert forall i: nat :: i < n && !EndsConnecting(trace[n].what) ==> (ConnectingSince(trace, i) <==> ConnectingSince(trace[..n], i));
    assert EndsConnecting(trace[n].what) ==> forall i: nat :: ConnectingSince(trace, i) ==> i == n;
    assert trace[n].what == StartNavigation(true, false, true) ==> ConnectingSince(trace, n);
  }

  /** Events that end an unresponsive spell. */
  predicate EndsHang(what: What) {
    what == BecameResponsive || what == Closed || what == GraceFires
  }

  /** A report at `h` whose spell was ended before `n`. */
  ghost predicate Ended(trace: seq<Event>, h: nat, n: nat) {
    exists j :: h < j < n <= |trace| && EndsHang(trace[j].what)
  }

  /** The spell began at `i`: nothing has ended it since, and no earlier report was still pending. */
  ghost predicate HangingSince(trace: seq<Event>, i: nat) {
    && i < |trace| && trace[i].what == BecameUnresponsive && !Ended(trace, i, |trace|)
    && forall h: nat :: h < i && trace[h].what == BecameUnresponsive ==> Ended(trace, h, i)
  }

  /** The grace deadline tells the spell: the first report of a lasting one, or that every report has been ended. */
  ghost predicate Tells(trace: seq<Event>, grace: Option<int>) {
    && (grace.Some? ==> exists i: nat :: HangingSince(trace, i))
    && (grace.None? ==> forall h: nat :: h < |trace| && trace[h].what == BecameUnresponsive ==> Ended(trace, h, |trace|))
    && (forall i: nat :: HangingSince(trace, i) ==> grace == Some(trace[i].at + 10_000))
  }

  /** The grace period is pending exactly while a spell lasts, and counts from its first report. */
  lemma {:induction false} GraceTimerMeansHanging(packaged: bool, trace: seq<Event>)
    requires Timed(packaged, trace)
    ensures Tells(trace, After(packaged, trace).grace)
  {
    hide Tells, EndsHang;
    if trace != [] {
      var n := |trace| - 1;
      GraceTimerMeansHanging(packaged, trace[..n]);
      StepGrace(packaged, After(packaged, trace[..n]), trace[n]);
      hide Next, CanHappen;
      TellsStep(trace, After(packaged, trace[..n]).grace, After(packaged, trace).grace);
    } else {
      NobodyHangs();
    }
  }

  lemma TellsStep(trace: seq<Event>, was: Option<int>, now: Option<int>)
    requires trace != [] && Tells(trace[..|trace| - 1], was)
    requires var last := trace[|trace| - 1];
             now == if EndsHang(last.what) then None
                    else if last.what == BecameUnresponsive && was.None? then Some(last.at + 10_000) else was
    ensures Tells(trace, now)
  {
    var n := |trace| - 1;
    forall h: nat | h < n ensures Ended(trace, h, n + 1) <==> Ended(trace[..n], h, n) || EndsHang(trace[n].what) {
      EndedLonger(trace, h);
    }
    forall i: nat | i < n ensures HangingSince(trace, i) <==> HangingSince(trace[..n], i) && !EndsHang(trace[n].what) {
      HangingLonger(trace, i);
    }
    HangingFromLast(trace);
    assert forall i: nat :: HangingSince(trace, i) ==> i <= n;
    assert forall i: nat :: HangingSince(trace[..n], i) ==> i < n;
    assert EndsHang(trace[n].what) ==> trace[n].what != BecameUnresponsive && !HangingSince(trace, n);
    if was.Some? {
      var first: nat :| HangingSince(trace[..n], first);
      assert !EndsHang(trace[n].what) ==> HangingSince(trace, first);
      forall i: nat | HangingSince(trace, i) && !EndsHang(trace[n].what) ensures i == first {
        OneSpell(trace, i, first);
      }
    }
    hide EndsHang, Ended, HangingSince;
  }

  lemma NobodyHangs()
    ensures Tells([], None)
  {
  }

  lemma EndedLonger(trace: seq<Event>, h: nat)
    requires h < |trace| - 1
    ensures Ended(trace, h, |trace|) <==> Ended(trace[..|trace| - 1], h, |trace| - 1) || EndsHang(trace[|trace| - 1].what)
  {
  }

  lemma HangingLonger(trace: seq<Event>, i: nat)
    requires i < |trace| - 1
    ensures HangingSince(trace, i) <==> HangingSince(trace[..|trace| - 1], i) && !EndsHang(trace[|trace| - 1].what)
  {
    var n := |trace| - 1;
    EndedLonger(trace, i);
    assert forall h: nat :: h < i ==> (Ended(trace, h, i) <==> Ended(trace[..n], h, i));
  }

  lemma HangingFromLast(trace: seq<Event>)
    requires trace != []
    ensures var n := |trace| - 1;
            HangingSince(trace, n) <==>
            trace[n].what == BecameUnresponsive
            && forall h: nat :: h < n && trace[h].what == BecameUnresponsive ==> Ended(trace[..n], h, n)
  {
    var n := |trace| - 1;
    assert !Ended(trace, n, n + 1);
    assert forall h: nat :: h < n ==> (Ended(trace, h, n) <==> Ended(trace[..n], h, n));
  }

  lemma OneSpell(trace: seq<Event>, i: nat, j: nat)
    requires HangingSince(trace, i) && HangingSince(trace, j)
    ensures i == j
  {
  }

  lemma StepGrace(packaged: bool, s: State, e: Event)
    ensures Next(packaged, s, e).grace
         == if EndsHang(e.what) then None
            else if e.what == BecameUnresponsive && s.grace.None? then Some(e.at + 10_000)
            else s.grace
  {
  }

  /** A ready ping that no commit has followed. */
  ghost predicate ReadySince(trace: seq<Event>, i: nat) {
    i < |trace| && trace[i].what == RendererReady && forall j :: i < j < |trace| ==> !trace[j].what.Navigated?
  }

  /** The ping is remembered exactly until the next page is committed. */
  lemma {:induction false} PingedIff(packaged: bool, trace: seq<Event>)
    ensures After(packaged, trace).pinged <==> exists i: nat :: ReadySince(trace, i)
  {
    if trace != [] {
      var n := |trace| - 1;
      PingedIff(packaged, trace[..n]);
      StepPinged(packaged, After(packaged, trace[..n]), trace[n]);
      hide Next;
      assert trace[n].what == RendererReady ==> ReadySince(trace, n);
      assert forall i: nat :: i < n ==> (ReadySince(trace, i) <==> ReadySince(trace[..n], i) && !trace[n].what.Navigated?);
      hide ReadySince;
    }
  }

  lemma StepPinged(packaged: bool, s: State, e: Event)
    ensures Next(packaged, s, e).pinged <==> e.what == RendererReady || (s.pinged && !e.what.Navigated?)
  {
  }

  /** The window opened at `i` has not been closed since. */
  ghost predicate OpenSince(trace: seq<Event>, i: nat) {
    i < |trace| && trace[i].what == WindowOpened && forall j :: i < j < |trace| ==> trace[j].what != Closed
  }

  lemma {:induction false} WindowOpenIff(packaged: bool, trace: seq<Event>)
    ensures After(packaged, trace).windowOpen <==> exists i: nat :: OpenSince(trace, i)
  {
    if trace != [] {
      var n := |trace| - 1;
      WindowOpenIff(packaged, trace[..n]);
      StepOpens(packaged, After(packaged, trace[..n]), trace[n]);
      hide Next;
      assert trace[n].what == WindowOpened ==> OpenSince(trace, n);
      assert forall i: nat :: i < n ==> (OpenSince(trace, i) <==> OpenSince(trace[..n], i) && trace[n].what != Closed);
      hide OpenSince;
    }
  }

  /** Each way out is counted once, whether or not the shell is in recovery. */
  lemma StepOpens(packaged: bool, s: State, e: Event)
    ensures Next(packaged, s, e).windowOpen <==> e.what == WindowOpened || (s.windowOpen && e.what != Closed)
    ensures Next(packaged, s, e).exits == s.exits + if WayOut(e.what) then 1 else 0
  {
  }

  // ---------------------------------------------------------------------
  // Every navigation is answered in time
  // ---------------------------------------------------------------------

  /** The page of the navigation at `i` was committed before `k`. */
  ghost predicate CommittedBy(trace: seq<Event>, i: nat, k: nat) {
    exists j :: i < j < k < |trace| && trace[j].what == Navigated(true)
  }

  /**
   The event at `k` ends the matter of the navigation at `i`: the committed page
   reports ready, the shell shows recovery, the window closes, or another
   navigation takes its place.
   */
  ghost predicate Answered(trace: seq<Event>, i: nat, k: nat) {
    i < k < |trace| &&
    match trace[k].what
    case RendererReady => CommittedBy(trace, i, k)
    case Closed => true
    case StartNavigation(mainFrame, sameDocument, _) => mainFrame && !sameDocument
    case Navigated(http) => !http || CommittedBy(trace, i, k)
    case _ => Shows(true, trace, k)
  }

  lemma AnsweredInPrefix(trace: seq<Event>, n: nat, i: nat, k: nat)
    requires n <= |trace| && Answered(trace[..n], i, k)
    ensures Answered(trace, i, k)
  {
    assert trace[..n][..k + 1] == trace[..k + 1];
    if CommittedBy(trace[..n], i, k) {
      var j :| i < j < k < n && trace[..n][j].what == Navigated(true);
      assert trace[j].what == Navigated(true);
    }
  }

  lemma {:induction false} CommittedPhase(trace: seq<Event>, i: nat)
    requires i < |trace| && PhaseOf(trace, i).Committed?
    ensures exists j :: i < j < |trace| && trace[j].what == Navigated(true)
  {
    var n := |trace| - 1;
    if i < n && PhaseOf(trace[..n], i).Committed? {
      CommittedPhase(trace[..n], i);
      var j :| i < j < n && trace[..n][j].what == Navigated(true);
      assert trace[j].what == Navigated(true);
    } else {
      assert trace[n].what == Navigated(true);
    }
  }

  /** A settled navigation was answered. */
  lemma {:induction false} SettledWasAnswered(trace: seq<Event>, i: nat)
    requires Timed(true, trace) && i < |trace| && PhaseOf(trace, i).Settled?
    ensures exists k :: Answered(trace, i, k)
  {
    var n := |trace| - 1;
    TimedPrefix(true, trace, n);
    if PhaseOf(trace[..n], i).Settled? {
      SettledWasAnswered(trace[..n], i);
      var k :| Answered(trace[..n], i, k);
      AnsweredInPrefix(trace, n, i, k);
    } else {
      if PhaseOf(trace[..n], i).Committed? {
        CommittedPhase(trace[..n], i);
        var j :| i < j < n && trace[..n][j].what == Navigated(true);
        assert trace[j].what == Navigated(true);
        assert CommittedBy(trace, i, n);
      }
      if Trouble(trace[n].what).Some? {
        TroubleShows(true, trace, n);
      }
      assert Answered(trace, i, n);
    }
  }

  /**
   In a packaged build every main-frame http(s) navigation is answered within
   40 000 ms: while it is not, no event happens later than that.
   */
  lemma SettledInTime(trace: seq<Event>, i: nat, n: nat)
    requires Timed(true, trace) && i < n < |trace|
    requires trace[i].what == StartNavigation(true, false, true)
    requires forall k: nat :: k < n ==> !Answered(trace, i, k)
    ensures trace[n].at <= trace[i].at + 40_000
  {
    TimedPrefix(true, trace, n);
    UnsettledHasDeadline(trace[..n], i);
    if PhaseOf(trace[..n], i).Settled? {
      SettledWasAnswered(trace[..n], i);
      var k :| Answered(trace[..n], i, k);
      AnsweredInPrefix(trace, n, i, k);
    }
  }

  /**
   Seen from later on: once 40 000 ms have passed, the page has reported ready,
   the shell has shown recovery for a trouble, the window was closed, or another
   navigation has taken over.
   */
  lemma SettledAfterDeadline(trace: seq<Event>, i: nat)
    requires Timed(true, trace) && i < |trace| - 1
    requires trace[i].what == StartNavigation(true, false, true)
    requires trace[|trace| - 1].at > trace[i].at + 40_000
    ensures exists k: nat :: k < |trace| - 1 && Answered(trace, i, k)
  {
    if forall k: nat :: k < |trace| - 1 ==> !Answered(trace, i, k) {
      SettledInTime(trace, i, |trace| - 1);
    }
  }
}
