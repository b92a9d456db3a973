/**
 Global keybinds of the desktop shell (packages/desktop/src/keybindManager.ts,
 lines 72-218). Native key and mouse events update a set of held keys and a
 cached set of active actions, and each change of the cache is reported as a
 press or a release. Keys arrive as hashes, None for a key code without one.
 */
module Keybinds {
  import opened Totals

  datatype Keybind = Keybind(actionId: string, keys: seq<int>, mouseButton: Option<int>)

  datatype Event =
    | Update(keybinds: seq<Keybind>, startWorks: bool)
    | Stop
    | KeyDown(key: Option<int>)
    | KeyUp(key: Option<int>)
    | MouseDown(button: int)
    | MouseUp(button: int)

  datatype State = State(keybinds: seq<Keybind>, pressed: set<int>, active: set<string>, started: bool)

  const FRESH := State([], {}, {}, false)

  /** A missing button and button 0 both make a keyboard keybind. */
  predicate OnMouse(kb: Keybind) {
    kb.mouseButton.Some? && kb.mouseButton.value != 0
  }

  predicate Held(kb: Keybind, pressed: set<int>) {
    forall key :: key in kb.keys ==> key in pressed
  }

  function Ids(keybinds: seq<Keybind>): set<string> {
    set kb | kb in keybinds :: kb.actionId
  }

  predicate DistinctIds(keybinds: seq<Keybind>) {
    forall i, j :: 0 <= i < j < |keybinds| ==> keybinds[i].actionId != keybinds[j].actionId
  }

  /** The first keybind of an action, as Array.find returns it. */
  function FirstOf(keybinds: seq<Keybind>, id: string): (first: Option<Keybind>)
    ensures first.Some? ==> first.value in keybinds && first.value.actionId == id
    ensures first.None? <==> id !in Ids(keybinds)
  {
    if keybinds == [] then None
    else if keybinds[0].actionId == id then Some(keybinds[0])
    else
      var rest := FirstOf(keybinds[1..], id);
      assert keybinds == [keybinds[0]] + keybinds[1..];
      rest
  }

  // ---------------------------------------------------------------------
  // The effect of one event on the active set
  // ---------------------------------------------------------------------

  predicate FiresOnKeys(kb: Keybind, pressed: set<int>) {
    !OnMouse(kb) && kb.keys != [] && Held(kb, pressed)
  }

  predicate FiresOnMouse(kb: Keybind, pressed: set<int>, button: int) {
    kb.mouseButton == Some(button) && Held(kb, pressed)
  }

  function FiredByKeys(keybinds: seq<Keybind>, pressed: set<int>): set<string> {
    set kb | kb in keybinds && FiresOnKeys(kb, pressed) :: kb.actionId
  }

  function FiredByMouse(keybinds: seq<Keybind>, pressed: set<int>, button: int): set<string> {
    set kb | kb in keybinds && FiresOnMouse(kb, pressed, button) :: kb.actionId
  }

  predicate LetGo(keybinds: seq<Keybind>, pressed: set<int>, id: string) {
    var kb := FirstOf(keybinds, id);
    kb.Some? && !OnMouse(kb.value) && !Held(kb.value, pressed)
  }

  predicate ButtonUp(keybinds: seq<Keybind>, button: int, id: string) {
    var kb := FirstOf(keybinds, id);
    kb.Some? && kb.value.mouseButton == Some(button)
  }

  function Stopped(s: State): State {
    if s.started then s.(pressed := {}, active := {}, started := false) else s
  }

  function Next(s: State, e: Event): State {
    match e
    case Update(keybinds, startWorks) =>
      var kept := s.(keybinds := keybinds, active := s.active * Ids(keybinds));
      if keybinds == [] then Stopped(kept)
      else if !s.started && startWorks then kept.(started := true)
      else kept
    case Stop => Stopped(s)
    case KeyDown(key) =>
      if key.None? then s
      else
        var pressed := s.pressed + {key.value};
        s.(pressed := pressed, active := s.active + FiredByKeys(s.keybinds, pressed))
    case KeyUp(key) =>
      if key.None? then s
      else
        var pressed := s.pressed - {key.value};
        s.(pressed := pressed, active := set id | id in s.active && !LetGo(s.keybinds, pressed, id))
    case MouseDown(button) =>
      if button <= 2 then s else s.(active := s.active + FiredByMouse(s.keybinds, s.pressed, button))
    case MouseUp(button) =>
      if button <= 2 then s else s.(active := set id | id in s.active && !ButtonUp(s.keybinds, button, id))
  }

  // ---------------------------------------------------------------------
  // The log of presses and releases
  // ---------------------------------------------------------------------

  datatype Signal = Signal(actionId: string, pressed: bool)

  /** What one action was sent. */
  function Project(log: seq<Signal>, id: string): seq<bool> {
    if log == [] then []
    else
      var before, last := Project(log[..|log| - 1], id), log[|log| - 1];
      if last.actionId == id then before + [last.pressed] else before
  }

  /** A newly active action is pressed once, one that stopped being active is released once, nothing else is sent. */
  function Change(was: set<string>, now: set<string>, id: string): seq<bool> {
    if id in now && id !in was then [true]
    else if id in was && id !in now then [false]
    else []
  }

  ghost predicate Reported(before: seq<Signal>, was: set<string>, after: seq<Signal>, now: set<string>) {
    forall id :: Project(after, id) == Project(before, id) + Change(was, now, id)
  }

  lemma ProjectOneMore(log: seq<Signal>, last: Signal, id: string)
    ensures Project(log + [last], id) == Project(log, id) + if last.actionId == id then [last.pressed] else []
  {
  }

  // ---------------------------------------------------------------------
  // The manager
  // ---------------------------------------------------------------------

  class KeybindManager {
    var keybinds: seq<Keybind>
    var pressedKeys: set<int>
    var activeActions: set<string>
    var started: bool
    ghost var log: seq<Signal>

    function Now(): State
      reads this
    {
      State(keybinds, pressedKeys, activeActions, started)
    }

    constructor ()
      ensures Now() == FRESH && log == []
    {
      keybinds, pressedKeys, activeActions, started := [], {}, {}, false;
      log := [];
    }

    /** Adds or removes one action and reports it. */
    method Switch(id: string, on: bool)
      requires on <==> id !in activeActions
      modifies this`activeActions, this`log
      ensures activeActions == if on then old(activeActions) + {id} else old(activeActions) - {id}
      ensures Reported(old(log), old(activeActions), log, activeActions)
    {
      activeActions := if on then activeActions + {id} else activeActions - {id};
      log := log + [Signal(id, on)];
      forall other ensures Project(log, other) == Project(old(log), other) + Change(old(activeActions), activeActions, other) {
        ProjectOneMore(old(log), Signal(id, on), other);
      }
    }

    /** Releases every action of `going`, one by one. */
    method Release(going: set<string>)
      requires going <= activeActions
      modifies this`activeActions, this`log
      ensures activeActions == old(activeActions) - going
      ensures Reported(old(log), old(activeActions), log, activeActions)
    {
      var todo := going;
      while todo != {}
        invariant todo <= going && activeActions == old(activeActions) - (going - todo)
        invariant Reported(old(log), old(activeActions), log, activeActions)
        decreases todo
      {
        var id :| id in todo;
        ghost var mid, was := log, activeActions;
        Switch(id, false);
        ReportsAddUp(old(log), old(activeActions), mid, was, log, activeActions);
        todo := todo - {id};
      }
    }

    method EvaluateKeybinds()
      modifies this`activeActions, this`log
      ensures activeActions == old(activeActions) + FiredByKeys(keybinds, pressedKeys)
      ensures Reported(old(log), old(activeActions), log, activeActions)
    {
      for i := 0 to |keybinds|
        invariant activeActions == old(activeActions) + FiredByKeys(keybinds[..i], pressedKeys)
        invariant Reported(old(log), old(activeActions), log, activeActions)
      {
        var kb := keybinds[i];
        assert keybinds[..i + 1] == keybinds[..i] + [kb];
        if kb.actionId !in activeActions && !OnMouse(kb) && kb.keys != [] && Held(kb, pressedKeys) {
          ghost var mid, was := log, activeActions;
          Switch(kb.actionId, true);
          ReportsAddUp(old(log), old(activeActions), mid, was, log, activeActions);
        }
      }
      assert keybinds[..|keybinds|] == keybinds;
    }

    method EvaluateKeybindsWithMouse(button: int)
      modifies this`activeActions, this`log
      ensures activeActions == old(activeActions) + FiredByMouse(keybinds, pressedKeys, button)
      ensures Reported(old(log), old(activeActions), log, activeActions)
    {
      for i := 0 to |keybinds|
        invariant activeActions == old(activeActions) + FiredByMouse(keybinds[..i], pressedKeys, button)
        invariant Reported(old(log), old(activeActions), log, activeActions)
      {
        var kb := keybinds[i];
        assert keybinds[..i + 1] == keybinds[..i] + [kb];
        if kb.actionId !in activeActions && kb.mouseButton == Some(button) && Held(kb, pressedKeys) {
          ghost var mid, was := log, activeActions;
          Switch(kb.actionId, true);
          ReportsAddUp(old(log), old(activeActions), mid, was, log, activeActions);
        }
      }
      assert keybinds[..|keybinds|] == keybinds;
    }

    method CheckReleases()
      modifies this`activeActions, this`log
      ensures activeActions == set id | id in old(activeActions) && !LetGo(keybinds, pressedKeys, id)
      ensures Reported(old(log), old(activeActions), log, activeActions)
    {
      Release(set id | id in activeActions && LetGo(keybinds, pressedKeys, id));
    }

    method CheckMouseReleases(button: int)
      modifies this`activeActions, this`log
      ensures activeActions == set id | id in old(activeActions) && !ButtonUp(keybinds, button, id)
      ensures Reported(old(log), old(activeActions), log, activeActions)
    {
      Release(set id | id in activeActions && ButtonUp(keybinds, button, id));
    }

    method UpdateKeybinds(next: seq<Keybind>, startWorks: bool)
      modifies this
      ensures Now() == Next(old(Now()), Update(next, startWorks))
      ensures Reported(old(log), old(activeActions), log, activeActions)
    {
      keybinds := next;
      Release(activeActions - Ids(next));
      ghost var mid, was := log, activeActions;
      if |keybinds| > 0 && !started {
        Start(startWorks);
      }
      if |keybinds| == 0 && started {
        StopHook();
      }
      ReportsAddUp(old(log), old(activeActions), mid, was, log, activeActions);
    }

    /** Registers the listeners; the hook may refuse to start, for lack of trust or by an exception. */
    method Start(works: bool)
      modifies this`started
      ensures started == (old(started) || works)
    {
      if works {
        started := true;
      }
    }

    method StopHook()
      modifies this
      ensures Now() == Next(old(Now()), Stop)
      ensures Reported(old(log), old(activeActions), log, activeActions)
    {
      if !started {
        return;
      }
      Release(activeActions);
      pressedKeys, started := {}, false;
    }

    method OnKeyDown(key: Option<int>)
      modifies this
      ensures Now() == Next(old(Now()), KeyDown(key))
      ensures Reported(old(log), old(activeActions), log, activeActions)
    {
      if key.None? {
        return;
      }
      pressedKeys := pressedKeys + {key.value};
      EvaluateKeybinds();
    }

    method OnKeyUp(key: Option<int>)
      modifies this
      ensures Now() == Next(old(Now()), KeyUp(key))
      ensures Reported(old(log), old(activeActions), log, activeActions)
    {
      if key.None? {
        return;
      }
      pressedKeys := pressedKeys - {key.value};
      CheckReleases();
    }

    method OnMouseDown(button: int)
      modifies this
      ensures Now() == Next(old(Now()), MouseDown(button))
      ensures Reported(old(log), old(activeActions), log, activeActions)
    {
      if button <= 2 {
        return;
      }
      EvaluateKeybindsWithMouse(button);
    }

    method OnMouseUp(button: int)
      modifies this
      ensures Now() == Next(old(Now()), MouseUp(button))
      ensures Reported(old(log), old(activeActions), log, activeActions)
    {
      if button <= 2 {
        return;
      }
      CheckMouseReleases(button);
    }
  }

  /** Changes of the same kind add up, as long as no action flips twice. */
  lemma ReportsAddUp(log0: seq<Signal>, set0: set<string>, log1: seq<Signal>, set1: set<string>, log2: seq<Signal>, set2: set<string>)
    requires Reported(log0, set0, log1, set1) && Reported(log1, set1, log2, set2)
    requires (set0 <= set1 <= set2) || (set2 <= set1 <= set0)
    ensures Reported(log0, set0, log2, set2)
  {
  }

  // ---------------------------------------------------------------------
  // Runs with any reconfigurations
  // ---------------------------------------------------------------------

  function After(run: seq<Event>): State {
    if run == [] then FRESH else Next(After(run[..|run| - 1]), run[|run| - 1])
  }

  /** Everything an action is sent over a run. */
  function Emitted(run: seq<Event>, id: string): seq<bool> {
    if run == [] then []
    else
      var n := |run| - 1;
      Emitted(run[..n], id) + Change(After(run[..n]).active, After(run).active, id)
  }

  /** press, release, press, ... */
  predicate Alternates(signals: seq<bool>) {
    forall i :: 0 <= i < |signals| ==> signals[i] == (i % 2 == 0)
  }

  lemma ChangeAlternates(signals: seq<bool>, was: set<string>, now: set<string>, id: string)
    requires Alternates(signals) && |signals| % 2 == if id in was then 1 else 0
    ensures Alternates(signals + Change(was, now, id))
    ensures |signals + Change(was, now, id)| % 2 == if id in now then 1 else 0
  {
  }

  /**
   Over every run, reconfigurations included, each action's signals strictly
   alternate from a press; the last one is a press exactly while the action is
   active.
   */
  lemma {:induction false} SignalsAlternate(run: seq<Event>, id: string)
    ensures Alternates(Emitted(run, id))
    ensures |Emitted(run, id)| % 2 == if id in After(run).active then 1 else 0
  {
    hide Next;
    if run != [] {
      var n := |run| - 1;
      SignalsAlternate(run[..n], id);
      ChangeAlternates(Emitted(run[..n], id), After(run[..n]).active, After(run).active, id);
    }
  }

  function Count(signals: seq<bool>, kind: bool): nat {
    if signals == [] then 0
    else Count(signals[..|signals| - 1], kind) + if signals[|signals| - 1] == kind then 1 else 0
  }

  lemma {:induction false} AlternatingCounts(signals: seq<bool>)
    requires Alternates(signals)
    ensures Count(signals, true) == (|signals| + 1) / 2 && Count(signals, false) == |signals| / 2
  {
    if signals != [] {
      AlternatingCounts(signals[..|signals| - 1]);
    }
  }

  /** Native events reach the manager only while the hook runs. */
  ghost predicate Possible(run: seq<Event>) {
    run != [] ==>
      var n := |run| - 1;
      Possible(run[..n]) && (run[n].Update? || run[n].Stop? || After(run[..n]).started)
  }

  /** Active actions are configured ones, and a stopped manager has none. */
  lemma {:induction false} ActiveAreConfigured(run: seq<Event>)
    requires Possible(run)
    ensures After(run).active <= Ids(After(run).keybinds)
    ensures !After(run).started ==> After(run).active == {} && After(run).pressed == {}
  {
    if run != [] {
      var n := |run| - 1;
      ActiveAreConfigured(run[..n]);
      StepKeepsConfigured(After(run[..n]), run[n]);
    }
  }

  lemma StepKeepsConfigured(s: State, e: Event)
    requires s.active <= Ids(s.keybinds) && (!s.started ==> s.active == {} && s.pressed == {})
    requires e.Update? || e.Stop? || s.started
    ensures var t := Next(s, e);
            t.active <= Ids(t.keybinds) && (!t.started ==> t.active == {} && t.pressed == {})
  {
  }

  /** Stopping leaves every press matched by exactly one release, whatever happened before. */
  lemma StopBalances(run: seq<Event>, id: string)
    requires Possible(run + [Stop])
    ensures Count(Emitted(run + [Stop], id), true) == Count(Emitted(run + [Stop], id), false)
  {
    ActiveAreConfigured(run + [Stop]);
    SignalsAlternate(run + [Stop], id);
    AlternatingCounts(Emitted(run + [Stop], id));
    assert (run + [Stop])[..|run|] == run;
  }

  /** An event delivered twice, as after a failed start that left its listeners behind, changes nothing more. */
  lemma DoubleDeliveryIsHarmless(s: State, e: Event)
    requires e.KeyDown? || e.KeyUp? || e.MouseDown? || e.MouseUp?
    ensures Next(Next(s, e), e) == Next(s, e)
  {
  }

  // ---------------------------------------------------------------------
  // What a run leaves
  // ---------------------------------------------------------------------

  /** The hook is stopped, by request or by an empty list. */
  predicate Halts(e: Event) {
    e.Stop? || (e.Update? && e.keybinds == [])
  }

  predicate SetsGoing(e: Event) {
    e.Update? && e.keybinds != [] && e.startWorks
  }

  /** The hook runs exactly if a non-empty list set it going and nothing has halted it since. */
  lemma {:induction false} HookRunsIff(run: seq<Event>)
    ensures After(run).started <==> exists i :: 0 <= i < |run| && SetsGoing(run[i]) && forall k :: i < k < |run| ==> !Halts(run[k])
  {
    hide Halts, SetsGoing;
    if run != [] {
      var n := |run| - 1;
      HookRunsIff(run[..n]);
      StepOnHook(After(run[..n]), run[n]);
    }
  }

  lemma StepOnHook(s: State, e: Event)
    ensures Next(s, e).started <==> SetsGoing(e) || (s.started && !Halts(e))
  {
  }

  /** The key went down at `i` and nothing since let it go. */
  predicate DownAt(run: seq<Event>, i: nat, key: int) {
    i < |run| && run[i] == KeyDown(Some(key)) && forall k :: i < k < |run| ==> run[k] != KeyUp(Some(key)) && !Halts(run[k])
  }

  lemma DownLonger(run: seq<Event>, key: int)
    requires run != []
    ensures var n := |run| - 1;
            && (forall i: nat :: i < n ==> (DownAt(run, i, key) <==> DownAt(run[..n], i, key) && run[n] != KeyUp(Some(key)) && !Halts(run[n])))
            && (DownAt(run, n, key) <==> run[n] == KeyDown(Some(key)))
            && (forall i: nat :: (DownAt(run, i, key) ==> i <= n) && (DownAt(run[..n], i, key) ==> i < n))
  {
  }

  /** A key counts as held exactly if it went down, and neither came up nor was the hook halted since. */
  lemma {:induction false} PressedIff(run: seq<Event>, key: int)
    requires Possible(run)
    ensures key in After(run).pressed <==> exists i: nat :: DownAt(run, i, key)
  {
    hide Halts, DownAt;
    if run != [] {
      var n := |run| - 1;
      PressedIff(run[..n], key);
      DownLonger(run, key);
      ActiveAreConfigured(run[..n]);
      StepOnPressed(After(run[..n]), run[n], key);
    } else {
      NothingIsDown(key);
    }
  }

  lemma NothingIsDown(key: int)
    ensures forall i: nat :: !DownAt([], i, key)
  {
  }

  lemma StepOnPressed(s: State, e: Event, key: int)
    requires !s.started ==> s.pressed == {}
    ensures key in Next(s, e).pressed <==> e == KeyDown(Some(key)) || (key in s.pressed && e != KeyUp(Some(key)) && !Halts(e))
  {
  }

  /** The list in use is the one of the last update. */
  lemma {:induction false} LastListCounts(run: seq<Event>, i: nat)
    requires i < |run| && run[i].Update? && forall k :: i < k < |run| ==> !run[k].Update?
    ensures After(run).keybinds == run[i].keybinds
  {
    if i < |run| - 1 {
      LastListCounts(run[..|run| - 1], i);
    }
  }

  /** An update presses nothing, and releases exactly the active actions that the new list does not have. */
  lemma UpdateKeepsIff(s: State, e: Event, id: string)
    requires e.Update?
    ensures id in Next(s, e).active <==> id in s.active && exists i :: 0 <= i < |e.keybinds| && e.keybinds[i].actionId == id
  {
  }

  // ---------------------------------------------------------------------
  // The cache against recomputation
  // ---------------------------------------------------------------------

  predicate Keyboard(s: State, kb: Keybind) {
    kb in s.keybinds && !OnMouse(kb) && kb.keys != []
  }

  /** Every keyboard action with keys is active exactly while all its keys are held. */
  ghost predicate Agrees(s: State) {
    forall kb :: Keyboard(s, kb) ==> (kb.actionId in s.active <==> Held(kb, s.pressed))
  }

  /** A press restores agreement exactly when no active keyboard action lacks a held key. */
  lemma KeyDownAgreesIff(s: State, key: int)
    requires DistinctIds(s.keybinds)
    ensures Agrees(Next(s, KeyDown(Some(key))))
       <==> forall kb :: Keyboard(s, kb) && kb.actionId in s.active ==> Held(kb, s.pressed + {key})
  {
  }

  /** A release restores agreement exactly when no inactive keyboard action still has all its keys held. */
  lemma KeyUpAgreesIff(s: State, key: int)
    requires DistinctIds(s.keybinds)
    ensures Agrees(Next(s, KeyUp(Some(key))))
       <==> forall kb :: Keyboard(s, kb) && kb.actionId !in s.active ==> !Held(kb, s.pressed - {key})
  {
  }

  lemma HookEventKeepsAgreement(s: State, e: Event)
    requires DistinctIds(s.keybinds) && Agrees(s) && !e.Update? && !e.Stop?
    ensures Agrees(Next(s, e))
  {
  }

  // ---------------------------------------------------------------------
  // From a fresh start
  // ---------------------------------------------------------------------

  predicate HookEvents(events: seq<Event>) {
    forall e :: e in events ==> !e.Update? && !e.Stop?
  }

  /** The key went down and has not come up since. */
  predicate IsDown(events: seq<Event>, key: int) {
    events != [] &&
    var last := events[|events| - 1];
    last == KeyDown(Some(key)) || (last != KeyUp(Some(key)) && IsDown(events[..|events| - 1], key))
  }

  /** A mouse keybind was fired and its button has not come up since. */
  predicate Latched(events: seq<Event>, kb: Keybind) {
    events != [] && kb.mouseButton.Some? &&
    var n, button := |events| - 1, kb.mouseButton.value;
    if events[n] == MouseUp(button) then button <= 2 && Latched(events[..n], kb)
    else Latched(events[..n], kb)
         || (events[n] == MouseDown(button) && button > 2 && forall key :: key in kb.keys ==> IsDown(events[..n], key))
  }

  function Started(keybinds: seq<Keybind>, events: seq<Event>): State {
    if events == [] then Next(FRESH, Update(keybinds, true))
    else Next(Started(keybinds, events[..|events| - 1]), events[|events| - 1])
  }

  lemma {:induction false} PressedAreDown(keybinds: seq<Keybind>, events: seq<Event>, key: int)
    requires keybinds != [] && HookEvents(events)
    ensures Started(keybinds, events).keybinds == keybinds
    ensures key in Started(keybinds, events).pressed <==> IsDown(events, key)
  {
    if events != [] {
      assert events[|events| - 1] in events;
      PressedAreDown(keybinds, events[..|events| - 1], key);
    }
  }

  /**
   From a fresh start, with distinct action ids, after any sequence of key and
   mouse events a keyboard action with keys is active exactly while every one
   of its keys is down.
   */
  lemma {:induction false} ActiveIffDown(keybinds: seq<Keybind>, events: seq<Event>, kb: Keybind)
    requires keybinds != [] && DistinctIds(keybinds) && HookEvents(events)
    requires kb in keybinds && !OnMouse(kb) && kb.keys != []
    ensures kb.actionId in Started(keybinds, events).active <==> forall key :: key in kb.keys ==> IsDown(events, key)
  {
    FreshStartAgrees(keybinds, events);
    var s := Started(keybinds, events);
    forall key ensures s.keybinds == keybinds && (key in s.pressed <==> IsDown(events, key)) {
      PressedAreDown(keybinds, events, key);
    }
    assert Keyboard(s, kb);
  }

  lemma NothingHeld(kb: Keybind, pressed: set<int>)
    requires kb.keys != [] && pressed == {}
    ensures !Held(kb, pressed)
  {
    var key := kb.keys[0];
    assert key in kb.keys;
    assert key !in pressed;
  }

  lemma {:induction false} FreshStartAgrees(keybinds: seq<Keybind>, events: seq<Event>)
    requires keybinds != [] && DistinctIds(keybinds) && HookEvents(events)
    ensures Agrees(Started(keybinds, events)) && Started(keybinds, events).keybinds == keybinds
  {
    if events == [] {
      var s := Started(keybinds, events);
      assert s == State(keybinds, {}, {}, true);
      forall kb | Keyboard(s, kb) ensures !Held(kb, s.pressed) {
        NothingHeld(kb, s.pressed);
      }
    } else {
      var n := |events| - 1;
      assert events[n] in events;
      FreshStartAgrees(keybinds, events[..n]);
      HookEventKeepsAgreement(Started(keybinds, events[..n]), events[n]);
    }
  }

  /** From a fresh start a mouse action is active exactly while its button is latched; buttons 1 and 2 never latch. */
  lemma {:induction false} MouseActiveIffLatched(keybinds: seq<Keybind>, events: seq<Event>, kb: Keybind)
    requires keybinds != [] && DistinctIds(keybinds) && HookEvents(events)
    requires kb in keybinds && OnMouse(kb)
    ensures Started(keybinds, events).keybinds == keybinds
    ensures kb.actionId in Started(keybinds, events).active <==> Latched(events, kb)
  {
    if events != [] {
      var n := |events| - 1;
      assert events[n] in events;
      MouseActiveIffLatched(keybinds, events[..n], kb);
      forall key ensures key in Started(keybinds, events[..n]).pressed <==> IsDown(events[..n], key) {
        PressedAreDown(keybinds, events[..n], key);
      }
      MouseStep(Started(keybinds, events[..n]), events[n], kb);
    }
  }

  lemma MouseStep(s: State, e: Event, kb: Keybind)
    requires DistinctIds(s.keybinds) && kb in s.keybinds && OnMouse(kb) && !e.Update? && !e.Stop?
    ensures kb.actionId in Next(s, e).active <==>
            if e == MouseUp(kb.mouseButton.value) then kb.mouseButton.value <= 2 && kb.actionId in s.active
            else kb.actionId in s.active || (e == MouseDown(kb.mouseButton.value) && kb.mouseButton.value > 2 && Held(kb, s.pressed))
  {
  }

  const MUTE := Keybind("mute", [3], None)
  const TALK := Keybind("talk", [1], None)

  /** Keys 1 and 2 are pressed under one keybind, the list is replaced while they are held, and 2 is let go. */
  const RECONFIGURED: seq<Event> := [Update([MUTE], true), KeyDown(Some(1)), KeyDown(Some(2)), Update([TALK], true), KeyUp(Some(2))]

  lemma RunMore(run: seq<Event>, e: Event)
    ensures After(run + [e]) == Next(After(run), e)
    ensures Possible(run + [e]) <==> Possible(run) && (e.Update? || e.Stop? || After(run).started)
  {
  }

  lemma MuteHeld(pressed: set<int>)
    requires 3 !in pressed
    ensures FiredByKeys([MUTE], pressed) == {}
    ensures forall kb :: kb in [MUTE] ==> !Held(kb, pressed)
  {
  }

  /** Reconfiguring to keys already held leaves the action inactive, even across a release. */
  lemma ReconfiguringBreaksAgreement()
    ensures Possible(RECONFIGURED) && DistinctIds([MUTE]) && DistinctIds([TALK])
    ensures After(RECONFIGURED[..3]) == State([MUTE], {1, 2}, {}, true) && Agrees(After(RECONFIGURED[..3]))
    ensures After(RECONFIGURED) == State([TALK], {1}, {}, true) && !Agrees(After(RECONFIGURED))
  {
    var run := RECONFIGURED;
    assert run[..0] == [] && run[..1] == run[..0] + [run[0]] && run[..2] == run[..1] + [run[1]];
    assert run[..3] == run[..2] + [run[2]] && run[..4] == run[..3] + [run[3]] && run == run[..4] + [run[4]];
    RunMore(run[..0], run[0]);
    RunMore(run[..1], run[1]);
    RunMore(run[..2], run[2]);
    RunMore(run[..3], run[3]);
    RunMore(run[..4], run[4]);
    MuteHeld({1});
    MuteHeld({1, 2});
    hide After, Possible;
    assert After(run[..1]) == State([MUTE], {}, {}, true);
    assert After(run[..2]) == State([MUTE], {1}, {}, true);
    assert After(run[..3]) == State([MUTE], {1, 2}, {}, true);
    assert After(run[..4]) == State([TALK], {1, 2}, {}, true);
    assert After(run) == State([TALK], {1}, {}, true);
    assert TALK in [TALK] && Held(TALK, {1});
  }

  /** The state after more events. */
  function Onward(s: State, events: seq<Event>): State {
    if events == [] then s else Next(Onward(s, events[..|events| - 1]), events[|events| - 1])
  }

  /** No active keyboard action lacks a held key. */
  ghost predicate NoneLacks(s: State) {
    forall kb :: Keyboard(s, kb) && kb.actionId in s.active ==> Held(kb, s.pressed)
  }

  lemma HookEventKeepsNoneLacking(s: State, e: Event)
    requires DistinctIds(s.keybinds) && !e.Update? && !e.Stop? && (NoneLacks(s) || (e.KeyUp? && e.key.Some?))
    ensures NoneLacks(Next(s, e)) && Next(s, e).keybinds == s.keybinds
    ensures e.KeyDown? && e.key.Some? ==> Agrees(Next(s, e))
  {
  }

  /**
   However the list was replaced, one release and a later press, of any keys,
   bring the cache back into agreement for as long as the list stays.
   */
  lemma {:induction false} AgreementReturns(s: State, events: seq<Event>)
    requires DistinctIds(s.keybinds) && HookEvents(events)
    ensures Onward(s, events).keybinds == s.keybinds
    ensures (exists up, key :: 0 <= up < |events| && events[up] == KeyUp(Some(key))) ==> NoneLacks(Onward(s, events))
    ensures (exists up, down, key, other :: 0 <= up < down < |events| && events[up] == KeyUp(Some(key)) && events[down] == KeyDown(Some(other)))
            ==> Agrees(Onward(s, events))
  {
    hide Next, Agrees, NoneLacks, DistinctIds;
    if events != [] {
      var n := |events| - 1;
      var before, last := Onward(s, events[..n]), events[n];
      assert last in events;
      AgreementReturns(s, events[..n]);
      SettlesStep(before, last);
    }
  }

  lemma SettlesStep(s: State, e: Event)
    requires DistinctIds(s.keybinds) && !e.Update? && !e.Stop?
    ensures Next(s, e).keybinds == s.keybinds
    ensures NoneLacks(s) || (e.KeyUp? && e.key.Some?) ==> NoneLacks(Next(s, e))
    ensures Agrees(s) || (NoneLacks(s) && e.KeyDown? && e.key.Some?) ==> Agrees(Next(s, e))
  {
  }
}
