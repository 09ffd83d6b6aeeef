/** That the protocol of EventProtocol gets somewhere: who finds the events lock free comes to handle events,
who does not goes to sleep, and who closes a device does so. Other threads take any steps in between.
*/
module Progress {
  import opened EventProtocol

  /** A step of another thread leaves a thread that does not sleep where it is. */
  lemma OthersLeave(s: State, u: Tid, e: Effect, s': State, t: Tid)
    requires Step(false, s, u, e, s') && u != t && t in s.pcs && s.pcs[t] != Sleeping
    ensures t in s'.pcs && s'.pcs[t] == s.pcs[t]
  {
  }

  lemma {:induction false} TraceReaches(run: seq<State>, movers: seq<Tid>, effects: seq<Effect>, t: Tid, i: nat)
    requires IsTrace(run, movers, effects) && t in run[0].pcs && i < |run|
    ensures t in run[i].pcs && Reachable(false, run[i])
  {
    if i > 0 {
      TraceReaches(run, movers, effects, t, i - 1);
      assert StepAt(run, movers, effects, i - 1);
      StepReaches(false, run[i - 1], movers[i - 1], effects[i - 1], run[i]);
    }
  }

  // ---------------------------------------------------------------- handling events

  /** How far a thread is on its way to handle events. */
  function TrySteps(pc: PC): nat {
    match pc
    case TryLockModify => 5
    case TryReadModify => 4
    case TryUnlockModify(busy) => if busy then 9 else 3
    case TryEvents => 2
    case TryActivate => 1
    case Handling => 0
    case _ => 9
  }

  /** The poll set is not being modified, and no other thread holds the events lock. */
  predicate Quiet(s: State, t: Tid) {
    s.modifying == 0 && (s.events == Free || s.events == Held(t))
  }

  lemma TryStep(s: State, t: Tid, e: Effect, s': State)
    requires Reachable(false, s) && Step(false, s, t, e, s') && 1 <= TrySteps(s.pcs[t]) <= 5 && Quiet(s, t)
    ensures TrySteps(s'.pcs[t]) == TrySteps(s.pcs[t]) - 1
  {
    assert s.pcs[t] == TryEvents ==> s.events == Free by { ReachableKeepsInv(false, s); }
    TryEdge(s, s.pcs[t], e, s'.pcs[t]);
  }

  lemma TryEdge(s: State, pc: PC, e: Effect, pc': PC)
    requires 1 <= TrySteps(pc) <= 5 && Edge(false, s, pc, e, pc')
    requires s.modifying == 0 && (pc == TryEvents ==> s.events == Free)
    ensures TrySteps(pc') == TrySteps(pc) - 1
  {
  }

  lemma {:induction false} TryCountsDown(run: seq<State>, movers: seq<Tid>, effects: seq<Effect>, t: Tid)
    requires IsTrace(run, movers, effects) && t in run[0].pcs && TrySteps(run[0].pcs[t]) <= 5
    requires forall i | 0 <= i < |run| :: Quiet(run[i], t)
    requires StepsOf(movers, t) == TrySteps(run[0].pcs[t])
    ensures t in run[|run| - 1].pcs && run[|run| - 1].pcs[t] == Handling
    decreases |run|
  {
    if movers != [] {
      assert StepAt(run, movers, effects, 0);
      TraceRest(run, movers, effects);
      if movers[0] == t {
        TryStep(run[0], t, effects[0], run[1]);
      } else {
        OthersLeave(run[0], movers[0], effects[0], run[1], t);
      }
      TryCountsDown(run[1..], movers[1..], effects[1..], t);
    }
  }

  /** A thread that calls libusb_handle_events_timeout, while the poll set is not being modified and no other
      thread holds the events lock, handles events after five steps of its own. */
  lemma TriesAndHandles(run: seq<State>, movers: seq<Tid>, effects: seq<Effect>, t: Tid)
    requires IsTrace(run, movers, effects) && t in run[0].pcs && run[0].pcs[t] == TryLockModify
    requires forall i | 0 <= i < |run| :: run[i].modifying == 0 && (run[i].events == Free || run[i].events == Held(t))
    requires StepsOf(movers, t) == 5
    ensures t in run[|run| - 1].pcs && run[|run| - 1].pcs[t] == Handling
  {
    TryCountsDown(run, movers, effects, t);
  }

  /** So does one that locks the events itself, once it has the lock. */
  lemma AppHandles(s: State, t: Tid, e: Effect, s': State)
    requires Step(false, s, t, e, s')
    ensures s.pcs[t] == AppLockEvents ==> s'.pcs[t] == AppActivate && s.events == Free && s'.events == Held(t)
    ensures s.pcs[t] == AppActivate ==> s'.pcs[t] == Handling && s'.active
  {
  }

  /** On the way to the waiting half of libusb_handle_events_timeout, or in it. */
  predicate SentAway(pc: PC) {
    match pc
    case TryUnlockModify(busy) => busy
    case _ => PartOf(pc) == Waiting
  }

  lemma QuietStep(s: State, t: Tid, e: Effect, s': State)
    requires Reachable(false, s) && Step(false, s, t, e, s') && !SentAway(s.pcs[t]) && Quiet(s, t)
    ensures !SentAway(s'.pcs[t])
  {
    ReachableKeepsInv(false, s);
    if PartOf(s.pcs[t]) == Trying {
      assert s.pcs[t] == TryEvents ==> s.events == Free;
      TryQuiet(s, s.pcs[t], e, s'.pcs[t]);
    } else {
      OtherPartsStay(s, s.pcs[t], e, s'.pcs[t]);
    }
  }

  lemma TryQuiet(s: State, pc: PC, e: Effect, pc': PC)
    requires PartOf(pc) == Trying && Edge(false, s, pc, e, pc') && !SentAway(pc)
    requires s.modifying == 0 && (pc == TryEvents ==> s.events == Free)
    ensures !SentAway(pc')
  {
  }

  lemma OtherPartsStay(s: State, pc: PC, e: Effect, pc': PC)
    requires PartOf(pc) != Trying && PartOf(pc) != Waiting && Edge(false, s, pc, e, pc')
    ensures !SentAway(pc')
  {
    match PartOf(pc)
    case HandlingEvents => HandlerStays(s, pc, e, pc');
    case Announcing => AnnouncerStays(s, pc, e, pc');
    case ModifyingPollSet => ModifierStays(s, pc, e, pc');
    case GivingUp => GiverUpStays(s, pc, e, pc');
  }

  lemma HandlerStays(s: State, pc: PC, e: Effect, pc': PC)
    requires PartOf(pc) == HandlingEvents && Edge(false, s, pc, e, pc')
    ensures !SentAway(pc')
  {
  }

  lemma AnnouncerStays(s: State, pc: PC, e: Effect, pc': PC)
    requires PartOf(pc) == Announcing && Edge(false, s, pc, e, pc')
    ensures !SentAway(pc')
  {
  }

  lemma ModifierStays(s: State, pc: PC, e: Effect, pc': PC)
    requires PartOf(pc) == ModifyingPollSet && Edge(false, s, pc, e, pc')
    ensures !SentAway(pc')
  {
  }

  lemma GiverUpStays(s: State, pc: PC, e: Effect, pc': PC)
    requires PartOf(pc) == GivingUp && Edge(false, s, pc, e, pc')
    ensures !SentAway(pc')
  {
  }

  lemma {:induction false} StaysWhileQuiet(run: seq<State>, movers: seq<Tid>, effects: seq<Effect>, t: Tid, i: nat)
    requires IsTrace(run, movers, effects) && t in run[0].pcs && !SentAway(run[0].pcs[t]) && i < |run|
    requires forall k | 0 <= k < i :: Quiet(run[k], t)
    ensures t in run[i].pcs && !SentAway(run[i].pcs[t])
  {
    if i > 0 {
      StaysWhileQuiet(run, movers, effects, t, i - 1);
      assert StepAt(run, movers, effects, i - 1);
      TraceReaches(run, movers, effects, t, i - 1);
      if movers[i - 1] == t {
        QuietStep(run[i - 1], t, effects[i - 1], run[i]);
      } else {
        OthersLeave(run[i - 1], movers[i - 1], effects[i - 1], run[i], t);
      }
    }
  }

  /** And it is turned away only if the poll set was being modified or another thread held the events lock. */
  lemma TurnedAwayOnlyIfBusy(run: seq<State>, movers: seq<Tid>, effects: seq<Effect>, t: Tid)
    requires IsTrace(run, movers, effects) && t in run[0].pcs && run[0].pcs[t] == TryLockModify
    requires t in run[|run| - 1].pcs && run[|run| - 1].pcs[t] == WaitLockWaiters
    ensures exists i :: 0 <= i < |run| && (run[i].modifying != 0 || (run[i].events != Free && run[i].events != Held(t)))
  {
    if forall i | 0 <= i < |run| :: Quiet(run[i], t) {
      StaysWhileQuiet(run, movers, effects, t, |run| - 1);
    }
  }

  // ---------------------------------------------------------------- going to sleep

  /** A way of finding that there is somebody to wait for. */
  datatype Reason = PollSetModified | HandlerActive

  predicate Applies(reason: Reason, s: State) {
    match reason
    case PollSetModified => s.modifying != 0
    case HandlerActive => s.active
  }

  /** How far a thread that has been turned away is from having decided to sleep. */
  function WaitSteps(pc: PC, reason: Reason): nat {
    match pc
    case WaitLockWaiters => 5
    case WaitLockModify => 4
    case WaitReadModify => 3
    case WaitUnlockModify(busy) => if busy || reason == HandlerActive then 2 else 9
    case WaitReadActive => if reason == HandlerActive then 1 else 9
    case WaitSleep => 0
    case _ => 9
  }

  lemma WaitStep(s: State, t: Tid, e: Effect, s': State, reason: Reason)
    requires Step(false, s, t, e, s') && 1 <= WaitSteps(s.pcs[t], reason) <= 5 && Applies(reason, s)
    ensures WaitSteps(s'.pcs[t], reason) < WaitSteps(s.pcs[t], reason)
  {
  }

  lemma {:induction false} WaitCountsDown(run: seq<State>, movers: seq<Tid>, effects: seq<Effect>, t: Tid,
                                          reason: Reason)
    requires IsTrace(run, movers, effects) && t in run[0].pcs && WaitSteps(run[0].pcs[t], reason) <= 5
    requires forall i | 0 <= i < |run| :: Applies(reason, run[i])
    requires StepsOf(movers, t) >= WaitSteps(run[0].pcs[t], reason)
    ensures exists i :: 0 <= i < |run| && t in run[i].pcs && run[i].pcs[t] == WaitSleep
    decreases |run|
  {
    if WaitSteps(run[0].pcs[t], reason) > 0 {
      assert StepAt(run, movers, effects, 0);
      TraceRest(run, movers, effects);
      if movers[0] == t {
        WaitStep(run[0], t, effects[0], run[1], reason);
      } else {
        OthersLeave(run[0], movers[0], effects[0], run[1], t);
      }
      WaitCountsDown(run[1..], movers[1..], effects[1..], t, reason);
      var i :| 0 <= i < |run[1..]| && t in run[1..][i].pcs && run[1..][i].pcs[t] == WaitSleep;
      assert run[i + 1] == run[1..][i];
    } else {
      assert run[0].pcs[t] == WaitSleep;
    }
  }

  /** A thread that has been turned away decides to sleep within five steps of its own, if the poll set is
      being modified all the while, or a handler is active all the while. */
  lemma DecidesToSleep(run: seq<State>, movers: seq<Tid>, effects: seq<Effect>, t: Tid)
    requires IsTrace(run, movers, effects) && t in run[0].pcs && run[0].pcs[t] == WaitLockWaiters
    requires (forall i | 0 <= i < |run| :: run[i].modifying != 0) || (forall i | 0 <= i < |run| :: run[i].active)
    requires StepsOf(movers, t) >= 5
    ensures exists i :: 0 <= i < |run| && t in run[i].pcs && run[i].pcs[t] == WaitSleep
  {
    var reason := if forall i | 0 <= i < |run| :: run[i].modifying != 0 then PollSetModified else HandlerActive;
    WaitCountsDown(run, movers, effects, t, reason);
  }

  /** Then it can: it gives up the waiters lock as it goes to sleep. */
  lemma CanSleep(s: State, t: Tid) returns (s': State)
    requires t in s.pcs && s.pcs[t] == WaitSleep
    ensures Step(false, s, t, Drop(WaitersLock), s') && s'.pcs[t] == Sleeping && s'.waiters == Free
  {
    s' := s.(waiters := Free, pcs := s.pcs[t := Sleeping]);
  }

  /** The thread has come to believe that somebody is handling events. */
  predicate Convinced(pc: PC) {
    match pc
    case WaitUnlockModify(busy) => busy
    case WaitSleep | Sleeping | WaitReacquire | WaitUnlockWaiters => true
    case _ => false
  }

  lemma IdleStep(s: State, t: Tid, e: Effect, s': State)
    requires Step(false, s, t, e, s') && !Convinced(s.pcs[t]) && s.modifying == 0 && !s.active
    ensures !Convinced(s'.pcs[t])
  {
  }

  lemma {:induction false} UnconvincedWhileIdle(run: seq<State>, movers: seq<Tid>, effects: seq<Effect>, t: Tid, i: nat)
    requires IsTrace(run, movers, effects) && t in run[0].pcs && !Convinced(run[0].pcs[t]) && i < |run|
    requires forall k | 0 <= k < i :: run[k].modifying == 0 && !run[k].active
    ensures t in run[i].pcs && !Convinced(run[i].pcs[t])
  {
    if i > 0 {
      UnconvincedWhileIdle(run, movers, effects, t, i - 1);
      assert StepAt(run, movers, effects, i - 1);
      if movers[i - 1] == t {
        IdleStep(run[i - 1], t, effects[i - 1], run[i]);
      } else {
        OthersLeave(run[i - 1], movers[i - 1], effects[i - 1], run[i], t);
      }
    }
  }

  /** A thread sleeps only if since it called the poll set was being modified or a handler was active. */
  lemma SleepsOnlyIfBusy(run: seq<State>, movers: seq<Tid>, effects: seq<Effect>, t: Tid)
    requires IsTrace(run, movers, effects) && t in run[0].pcs && run[0].pcs[t] == TryLockModify
    requires t in run[|run| - 1].pcs && run[|run| - 1].pcs[t] == Sleeping
    ensures exists i :: 0 <= i < |run| && (run[i].modifying != 0 || run[i].active)
  {
    if forall i | 0 <= i < |run| :: run[i].modifying == 0 && !run[i].active {
      UnconvincedWhileIdle(run, movers, effects, t, |run| - 1);
    }
  }

  // ---------------------------------------------------------------- opening and closing

  /** The thread has yet to come to the point where the device is closed. */
  predicate BeforeClose(pc: PC) {
    match pc
    case NoteLockModify(c) => c
    case NoteIncrement(c) => c
    case NoteUnlockModify(c) => c
    case NoteWrite(c) => c
    case NoteLockEvents(c) => c
    case NoteActivate(c) => c
    case NoteRead(c) => c
    case _ => false
  }

  lemma CloseStep(s: State, t: Tid, e: Effect, s': State)
    requires Step(false, s, t, e, s') && BeforeClose(s.pcs[t])
    ensures BeforeClose(s'.pcs[t]) || s'.pcs[t] == NoteClose
  {
  }

  lemma {:induction false} ClosesOrGoesOn(run: seq<State>, movers: seq<Tid>, effects: seq<Effect>, t: Tid, i: nat)
    requires IsTrace(run, movers, effects) && t in run[0].pcs && BeforeClose(run[0].pcs[t]) && i < |run|
    ensures t in run[i].pcs
    ensures BeforeClose(run[i].pcs[t]) || exists k :: 0 <= k <= i && t in run[k].pcs && run[k].pcs[t] == NoteClose
  {
    if i > 0 {
      ClosesOrGoesOn(run, movers, effects, t, i - 1);
      TraceReaches(run, movers, effects, t, i);
      assert StepAt(run, movers, effects, i - 1);
      if BeforeClose(run[i - 1].pcs[t]) {
        if movers[i - 1] == t {
          CloseStep(run[i - 1], t, effects[i - 1], run[i]);
        } else {
          OthersLeave(run[i - 1], movers[i - 1], effects[i - 1], run[i], t);
        }
      }
    }
  }

  /** libusb_close does not return before the device has been closed, with the events lock held. */
  lemma CloseCloses(run: seq<State>, movers: seq<Tid>, effects: seq<Effect>, t: Tid)
    requires IsTrace(run, movers, effects) && t in run[0].pcs && run[0].pcs[t] == NoteLockModify(true)
    requires t in run[|run| - 1].pcs && run[|run| - 1].pcs[t] == Idle
    ensures exists k :: (0 <= k < |run| && t in run[k].pcs && run[k].pcs[t] == NoteClose
                         && run[k].events == Held(t) && run[k].active)
  {
    ClosesOrGoesOn(run, movers, effects, t, |run| - 1);
    var k :| 0 <= k < |run| && t in run[k].pcs && run[k].pcs[t] == NoteClose;
    TraceReaches(run, movers, effects, t, k);
    CloserHolds(run[k], t);
  }

  lemma CloserHolds(s: State, t: Tid)
    requires Reachable(false, s) && t in s.pcs && s.pcs[t] == NoteClose
    ensures s.events == Held(t) && s.active
  {
    ReachableKeepsInv(false, s);
  }

  // ---------------------------------------------------------------- every call can be made, and ended

  ghost predicate CanGo(s: State, t: Tid, pc': PC) {
    exists e, s' :: Step(false, s, t, e, s') && s'.pcs[t] == pc'
  }

  lemma Goes(s: State, t: Tid, pc': PC)
    requires t in s.pcs && Edge(false, s, s.pcs[t], Local, pc')
    ensures CanGo(s, t, pc')
  {
    var s' := s.(pcs := s.pcs[t := pc']);
    assert Step(false, s, t, Local, s') && s'.pcs[t] == pc';
  }

  /** An idle thread can make any of the calls; one that handles events can report completions and wake the
      waiters, and can stop; a sleeper can wake up by itself. */
  lemma Choices(s: State, t: Tid)
    requires t in s.pcs
    ensures s.pcs[t] == Idle ==>
      && CanGo(s, t, TryLockModify) && CanGo(s, t, AppLockEvents)
      && CanGo(s, t, NoteLockModify(false)) && CanGo(s, t, NoteLockModify(true))
    ensures s.pcs[t] == Handling ==> CanGo(s, t, DoneLockWaiters) && CanGo(s, t, ClearActive)
    ensures s.pcs[t] == Sleeping ==> CanGo(s, t, WaitReacquire)
  {
    if s.pcs[t] == Idle {
      Goes(s, t, TryLockModify);
      Goes(s, t, AppLockEvents);
      Goes(s, t, NoteLockModify(false));
      Goes(s, t, NoteLockModify(true));
    } else if s.pcs[t] == Handling {
      Goes(s, t, DoneLockWaiters);
      Goes(s, t, ClearActive);
    } else if s.pcs[t] == Sleeping {
      Goes(s, t, WaitReacquire);
    }
  }
}
