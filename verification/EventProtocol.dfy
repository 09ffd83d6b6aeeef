/** libusb's multi-threaded event handling protocol (io.c, core.c).

Any number of threads call libusb_handle_events_timeout, libusb_lock_events (followed by event
handling and libusb_unlock_events), libusb_open and libusb_close on one context. Every access to
shared state is one step; mutexes have explicit owners; memory is sequentially consistent.

The parameter `mayFail` says whether writing to the control pipe may fail (core.c:867, core.c:1059):
the failure branches neither take the event lock nor wake the event waiters.
*/
module EventProtocol {
  type Tid = nat

  datatype Owner = Free | Held(holder: Tid)

  datatype PC =
    | Idle
      // libusb_try_lock_events
    | TryLockModify | TryReadModify | TryUnlockModify(busy: bool) | TryEvents | TryActivate
      // libusb_lock_events, called by the application
    | AppLockEvents | AppActivate
      // handle_events, and the wake-up at the end of usbi_handle_transfer_completion
    | Handling | DoneLockWaiters | DoneBroadcast | DoneUnlockWaiters
      // libusb_unlock_events
    | ClearActive | UnlockEvents | EndLockWaiters | EndBroadcast | EndUnlockWaiters
      // the waiting half of libusb_handle_events_timeout
    | WaitLockWaiters | WaitLockModify | WaitReadModify | WaitUnlockModify(busy: bool)
    | WaitReadActive | WaitSleep | Sleeping | WaitReacquire | WaitUnlockWaiters | RetryUnlockWaiters
      // usbi_fd_notification (closing == false) and libusb_close (closing == true)
    | NoteLockModify(closing: bool) | NoteIncrement(closing: bool) | NoteUnlockModify(closing: bool)
    | NoteWrite(closing: bool) | NoteLockEvents(closing: bool) | NoteActivate(closing: bool)
    | NoteRead(closing: bool) | NoteClose | NoteRelockModify | NoteDecrement | NoteReunlockModify
      // the branches taken when the control pipe write fails
    | FailClose | FailLockModify | FailDecrement | FailUnlockModify

  datatype State = State(
    pcs: map<Tid, PC>,
    events: Owner,      // events_lock
    waiters: Owner,     // event_waiters_lock
    modifyLock: Owner,  // pollfd_modify_lock
    active: bool,       // event_handler_active
    modifying: nat,        // pollfd_modify, an unsigned int
    pipe: nat)          // bytes in the control pipe

  const UINT_RANGE: nat := 0x1_0000_0000

  ghost predicate Init(s: State) {
    && (forall t | t in s.pcs :: s.pcs[t] == Idle)
    && s.events == s.waiters == s.modifyLock == Free
    && !s.active && s.modifying == 0 && s.pipe == 0
  }

  // ---------------------------------------------------------------- the program

  datatype Lock = EventsLock | WaitersLock | ModifyLock

  /** What one step does to the shared state. */
  datatype Effect =
    | Local                                 // only reads
    | Take(lock: Lock) | Drop(lock: Lock)   // mutex lock (blocks while held) and unlock
    | SetFlag | ClearFlag                   // event_handler_active
    | Increment | Decrement                 // pollfd_modify
    | WriteByte | ReadByte                  // control pipe; reading blocks while it is empty
    | WakeAll                               // pthread_cond_broadcast

  /** Every step of the program: from `pc`, with effect `e`, to `pc'`. */
  ghost predicate Edge(mayFail: bool, s: State, pc: PC, e: Effect, pc': PC) {
    match pc
    // libusb_try_lock_events (io.c:1473-1494), and libusb_lock_events (io.c:1514-1519) called by
    // the application. An idle thread may enter any call.
    case Idle =>
      e == Local && (pc' == TryLockModify || pc' == AppLockEvents || pc'.NoteLockModify?)
    case TryLockModify => e == Take(ModifyLock) && pc' == TryReadModify
    case TryReadModify => e == Local && pc' == TryUnlockModify(s.modifying != 0)
    case TryUnlockModify(busy) =>
      e == Drop(ModifyLock) && pc' == if busy then WaitLockWaiters else TryEvents
    case TryEvents =>
      if s.events == Free then e == Take(EventsLock) && pc' == TryActivate
      else e == Local && pc' == WaitLockWaiters
    case TryActivate => e == SetFlag && pc' == Handling
    case AppLockEvents => e == Take(EventsLock) && pc' == AppActivate
    case AppActivate => e == SetFlag && pc' == Handling
    // handle_events with the wake-ups of its completions (io.c:1430-1432), then
    // libusb_unlock_events (io.c:1529-1541).
    case Handling => e == Local && (pc' == DoneLockWaiters || pc' == ClearActive)
    case DoneLockWaiters => e == Take(WaitersLock) && pc' == DoneBroadcast
    case DoneBroadcast => e == WakeAll && pc' == DoneUnlockWaiters
    case DoneUnlockWaiters => e == Drop(WaitersLock) && pc' == Handling
    case ClearActive => e == ClearFlag && pc' == UnlockEvents
    case UnlockEvents => e == Drop(EventsLock) && pc' == EndLockWaiters
    case EndLockWaiters => e == Take(WaitersLock) && pc' == EndBroadcast
    case EndBroadcast => e == WakeAll && pc' == EndUnlockWaiters
    case EndUnlockWaiters => e == Drop(WaitersLock) && pc' == Idle
    // The waiting half of libusb_handle_events_timeout (io.c:1972-1993) with
    // libusb_event_handler_active (io.c:1592-1608) and libusb_wait_for_event (io.c:1671-1698). The
    // clock may be unreadable, and a sleeper may time out.
    case WaitLockWaiters => e == Take(WaitersLock) && pc' == WaitLockModify
    case WaitLockModify => e == Take(ModifyLock) && pc' == WaitReadModify
    case WaitReadModify => e == Local && pc' == WaitUnlockModify(s.modifying != 0)
    case WaitUnlockModify(busy) =>
      e == Drop(ModifyLock) && pc' == if busy then WaitSleep else WaitReadActive
    case WaitReadActive => e == Local && pc' == if s.active then WaitSleep else RetryUnlockWaiters
    case WaitSleep =>
      (e == Drop(WaitersLock) && pc' == Sleeping) || (e == Local && pc' == WaitUnlockWaiters)
    case Sleeping => e == Local && pc' == WaitReacquire
    case WaitReacquire => e == Take(WaitersLock) && pc' == WaitUnlockWaiters
    case WaitUnlockWaiters => e == Drop(WaitersLock) && pc' == Idle
    case RetryUnlockWaiters => e == Drop(WaitersLock) && pc' == TryLockModify
    // usbi_fd_notification and libusb_close up to the control pipe (core.c:861-867,
    // core.c:1053-1059).
    case NoteLockModify(c) => e == Take(ModifyLock) && pc' == NoteIncrement(c)
    case NoteIncrement(c) => e == Increment && pc' == NoteUnlockModify(c)
    case NoteUnlockModify(c) => e == Drop(ModifyLock) && pc' == NoteWrite(c)
    case NoteWrite(c) =>
      || (e == WriteByte && pc' == NoteLockEvents(c))
      || (mayFail && e == Local && pc' == if c then FailClose else FailLockModify)
    // The rest of both calls, up to libusb_unlock_events (core.c:876-890, core.c:1069-1086).
    case NoteLockEvents(c) => e == Take(EventsLock) && pc' == NoteActivate(c)
    case NoteActivate(c) => e == SetFlag && pc' == NoteRead(c)
    case NoteRead(c) => e == ReadByte && pc' == if c then NoteClose else NoteRelockModify
    case NoteClose => e == Local && pc' == NoteRelockModify
    case NoteRelockModify => e == Take(ModifyLock) && pc' == NoteDecrement
    case NoteDecrement => e == Decrement && pc' == NoteReunlockModify
    case NoteReunlockModify => e == Drop(ModifyLock) && pc' == ClearActive
    // The branches taken when the control pipe write fails (core.c:868-874, core.c:1060-1067).
    case FailClose => e == Local && pc' == FailLockModify
    case FailLockModify => e == Take(ModifyLock) && pc' == FailDecrement
    case FailDecrement => e == Decrement && pc' == FailUnlockModify
    case FailUnlockModify => e == Drop(ModifyLock) && pc' == Idle
  }

  // ---------------------------------------------------------------- its semantics

  predicate Enabled(s: State, e: Effect) {
    match e
    case Take(EventsLock) => s.events == Free
    case Take(WaitersLock) => s.waiters == Free
    case Take(ModifyLock) => s.modifyLock == Free
    case ReadByte => s.pipe > 0
    case _ => true
  }

  /** pthread_cond_broadcast: every sleeper wakes and must reacquire the waiters lock. */
  function Woken(pcs: map<Tid, PC>): map<Tid, PC> {
    map u | u in pcs :: if pcs[u] == Sleeping then WaitReacquire else pcs[u]
  }

  function Apply(s: State, t: Tid, e: Effect): State
    requires Enabled(s, e)
  {
    match e
    case Local => s
    case Take(EventsLock) => s.(events := Held(t))
    case Take(WaitersLock) => s.(waiters := Held(t))
    case Take(ModifyLock) => s.(modifyLock := Held(t))
    case Drop(EventsLock) => s.(events := Free)
    case Drop(WaitersLock) => s.(waiters := Free)
    case Drop(ModifyLock) => s.(modifyLock := Free)
    case SetFlag => s.(active := true)
    case ClearFlag => s.(active := false)
    case Increment => s.(modifying := (s.modifying + 1) % UINT_RANGE)
    case Decrement => s.(modifying := (s.modifying - 1) % UINT_RANGE)
    case WriteByte => s.(pipe := s.pipe + 1)
    case ReadByte => s.(pipe := s.pipe - 1)
    case WakeAll => s.(pcs := Woken(s.pcs))
  }

  /** Thread `t` takes one step with effect `e`. */
  ghost predicate Step(mayFail: bool, s: State, t: Tid, e: Effect, s': State) {
    && t in s.pcs && t in s'.pcs
    && Edge(mayFail, s, s.pcs[t], e, s'.pcs[t])
    && Enabled(s, e)
    && var s1 := Apply(s, t, e); s' == s1.(pcs := s1.pcs[t := s'.pcs[t]])
  }

  ghost predicate Next(mayFail: bool, s: State, s': State) {
    exists t, e :: Step(mayFail, s, t, e, s')
  }

  ghost predicate NextAt(mayFail: bool, run: seq<State>, i: nat)
    requires i + 1 < |run|
  {
    Next(mayFail, run[i], run[i + 1])
  }

  /** An interleaving of any number of steps of any of the threads. */
  ghost predicate IsRun(mayFail: bool, run: seq<State>) {
    && |run| > 0
    && Init(run[0])
    && forall i: nat | i + 1 < |run| :: NextAt(mayFail, run, i)
  }

  ghost predicate Reachable(mayFail: bool, s: State) {
    exists run :: IsRun(mayFail, run) && run[|run| - 1] == s
  }

  // ---------------------------------------------------------------- what a program point means

  predicate HoldsEvents(pc: PC) {
    match pc
    case TryActivate | AppActivate | UnlockEvents | NoteActivate(_) | Handling | DoneLockWaiters |
         DoneBroadcast | DoneUnlockWaiters | ClearActive | NoteRead(_) | NoteClose |
         NoteRelockModify | NoteDecrement | NoteReunlockModify => true
    case _ => false
  }

  /** The thread has set event_handler_active and has not cleared it yet. */
  predicate SetActive(pc: PC) {
    match pc
    case Handling | DoneLockWaiters | DoneBroadcast | DoneUnlockWaiters | ClearActive |
         NoteRead(_) | NoteClose | NoteRelockModify | NoteDecrement | NoteReunlockModify => true
    case _ => false
  }

  predicate InHandleEvents(pc: PC) {
    match pc
    case Handling | DoneLockWaiters | DoneBroadcast | DoneUnlockWaiters => true
    case _ => false
  }

  predicate HoldsWaiters(pc: PC) {
    match pc
    case DoneBroadcast | DoneUnlockWaiters | EndBroadcast | EndUnlockWaiters | WaitLockModify |
         WaitReadModify | WaitUnlockModify(_) | WaitReadActive | WaitSleep | WaitUnlockWaiters |
         RetryUnlockWaiters => true
    case _ => false
  }

  predicate HoldsModify(pc: PC) {
    match pc
    case TryReadModify | TryUnlockModify(_) | WaitReadModify | WaitUnlockModify(_) |
         NoteIncrement(_) | NoteUnlockModify(_) | NoteDecrement | NoteReunlockModify |
         FailDecrement | FailUnlockModify => true
    case _ => false
  }

  /** Between incrementing and decrementing pollfd_modify. */
  predicate Modifying(pc: PC) {
    match pc
    case NoteUnlockModify(_) | NoteWrite(_) | NoteLockEvents(_) | NoteActivate(_) | NoteRead(_) |
         NoteClose | NoteRelockModify | NoteDecrement | FailClose | FailLockModify |
         FailDecrement => true
    case _ => false
  }

  predicate Failing(pc: PC) {
    match pc
    case FailClose | FailLockModify | FailDecrement => true
    case _ => false
  }

  /** Between writing and reading the control pipe. */
  predicate InPipe(pc: PC) {
    match pc
    case NoteLockEvents(_) | NoteActivate(_) | NoteRead(_) => true
    case _ => false
  }

  /** The thread has raised the active flag or pollfd_modify, and still has to wake the waiters. */
  predicate OwesBroadcast(pc: PC) {
    match pc
    case Handling | DoneLockWaiters | DoneBroadcast | DoneUnlockWaiters | ClearActive |
         NoteRead(_) | NoteClose | NoteRelockModify | NoteDecrement | NoteReunlockModify |
         UnlockEvents | EndLockWaiters | EndBroadcast | NoteUnlockModify(_) | NoteWrite(_) |
         NoteLockEvents(_) | NoteActivate(_) => true
    case _ => false
  }

  /** The thread has decided to sleep, or sleeps. */
  predicate WillSleep(pc: PC) {
    match pc
    case WaitUnlockModify(busy) => busy
    case WaitSleep | Sleeping => true
    case _ => false
  }

  // ---------------------------------------------------------------- counting threads

  function Where(pcs: map<Tid, PC>, p: PC -> bool): (r: set<Tid>)
    ensures forall t :: t in r <==> t in pcs && p(pcs[t])
  {
    set t | t in pcs && p(pcs[t])
  }

  lemma CountAfterGoto(pcs: map<Tid, PC>, t: Tid, pc: PC, p: PC -> bool)
    requires t in pcs
    ensures |Where(pcs[t := pc], p)|
         == |Where(pcs, p)| - (if p(pcs[t]) then 1 else 0) + (if p(pc) then 1 else 0)
  {
    var before, after := Where(pcs, p), Where(pcs[t := pc], p);
    var rest := before - {t};
    assert before == if p(pcs[t]) then rest + {t} else rest;
    assert after == if p(pc) then rest + {t} else rest;
  }

  lemma CountAfterWake(pcs: map<Tid, PC>, p: PC -> bool)
    requires p(Sleeping) == p(WaitReacquire)
    ensures Where(Woken(pcs), p) == Where(pcs, p)
  {
  }

  // ---------------------------------------------------------------- the invariant

  /** Exactly the thread that owns something is at a program point where `p` holds. */
  ghost predicate OwnedBy(pcs: map<Tid, PC>, p: PC -> bool, owner: Owner) {
    && (forall t | t in pcs :: p(pcs[t]) <==> owner == Held(t))
    && (owner.Held? ==> owner.holder in pcs)
  }

  /** Mutexes are held where the program says so, event_handler_active is set exactly between its
      setting and clearing by the holder of the events lock, and the counters count threads. */
  ghost predicate Inv(s: State) {
    && OwnedBy(s.pcs, HoldsEvents, s.events)
    && OwnedBy(s.pcs, HoldsWaiters, s.waiters)
    && OwnedBy(s.pcs, HoldsModify, s.modifyLock)
    && OwnedBy(s.pcs, SetActive, if s.active then s.events else Free)
    && (s.active ==> s.events.Held?)
    && s.modifying == |Where(s.pcs, Modifying)| % UINT_RANGE
    && s.pipe == |Where(s.pcs, InPipe)|
  }

  ghost predicate SomeAt(pcs: map<Tid, PC>, p: PC -> bool) {
    exists t :: t in pcs && p(pcs[t])
  }

  ghost predicate SomeoneOwes(s: State) {
    SomeAt(s.pcs, OwesBroadcast)
  }

  /** No thread is on the failure branch, and whoever sleeps has someone left to wake it. */
  ghost predicate WakeupsKept(s: State) {
    && !SomeAt(s.pcs, Failing)
    && (SomeAt(s.pcs, WillSleep) ==> SomeoneOwes(s))
  }

  // ---------------------------------------------------------------- the parts of the program

  datatype Part = Trying | HandlingEvents | Waiting | Announcing | ModifyingPollSet | GivingUp

  function PartOf(pc: PC): Part {
    match pc
    case Idle | TryLockModify | TryReadModify | TryUnlockModify(_) | TryEvents | TryActivate |
         AppLockEvents | AppActivate => Trying
    case Handling | DoneLockWaiters | DoneBroadcast | DoneUnlockWaiters | ClearActive |
         UnlockEvents | EndLockWaiters | EndBroadcast | EndUnlockWaiters => HandlingEvents
    case WaitLockWaiters | WaitLockModify | WaitReadModify | WaitUnlockModify(_) | WaitReadActive |
         WaitSleep | Sleeping | WaitReacquire | WaitUnlockWaiters | RetryUnlockWaiters => Waiting
    case NoteLockModify(_) | NoteIncrement(_) | NoteUnlockModify(_) | NoteWrite(_) => Announcing
    case NoteLockEvents(_) | NoteActivate(_) | NoteRead(_) | NoteClose | NoteRelockModify |
         NoteDecrement | NoteReunlockModify => ModifyingPollSet
    case FailClose | FailLockModify | FailDecrement | FailUnlockModify => GivingUp
  }

  // ---------------------------------------------------------------- every step keeps the invariant

  /** The effect of moving from `pc` to `pc'` is the one the program point facts call for. */
  ghost predicate Fits(pc: PC, e: Effect, pc': PC) {
    && Changes(HoldsEvents(pc), HoldsEvents(pc'), e == Take(EventsLock), e == Drop(EventsLock))
    && Changes(HoldsWaiters(pc), HoldsWaiters(pc'), e == Take(WaitersLock), e == Drop(WaitersLock))
    && Changes(HoldsModify(pc), HoldsModify(pc'), e == Take(ModifyLock), e == Drop(ModifyLock))
    && Changes(SetActive(pc), SetActive(pc'), e == SetFlag, e == ClearFlag)
    && Changes(Modifying(pc), Modifying(pc'), e == Increment, e == Decrement)
    && Changes(InPipe(pc), InPipe(pc'), e == WriteByte, e == ReadByte)
    && (e == SetFlag || e == ClearFlag ==> HoldsEvents(pc))
    && (e == WakeAll ==> HoldsWaiters(pc))
  }

  predicate Changes(before: bool, after: bool, up: bool, down: bool) {
    if up then !before && after else if down then before && !after else before == after
  }

  lemma TryFits(mayFail: bool, s: State, pc: PC, e: Effect, pc': PC)
    requires PartOf(pc) == Trying && Edge(mayFail, s, pc, e, pc')
    ensures Fits(pc, e, pc')
  {
  }

  lemma HandleFits(mayFail: bool, s: State, pc: PC, e: Effect, pc': PC)
    requires PartOf(pc) == HandlingEvents && Edge(mayFail, s, pc, e, pc')
    ensures Fits(pc, e, pc')
  {
  }

  lemma WaitFits(mayFail: bool, s: State, pc: PC, e: Effect, pc': PC)
    requires PartOf(pc) == Waiting && Edge(mayFail, s, pc, e, pc')
    ensures Fits(pc, e, pc')
  {
    if Deciding(pc) { DecideFits(mayFail, s, pc, e, pc'); } else { SleepFits(mayFail, s, pc, e, pc'); }
  }

  /** The part of the waiting half in which the thread finds out whether to sleep. */
  predicate Deciding(pc: PC) {
    match pc
    case WaitLockWaiters | WaitLockModify | WaitReadModify | WaitUnlockModify(_) | WaitReadActive => true
    case _ => false
  }

  lemma DecideFits(mayFail: bool, s: State, pc: PC, e: Effect, pc': PC)
    requires PartOf(pc) == Waiting && Deciding(pc) && Edge(mayFail, s, pc, e, pc')
    ensures Fits(pc, e, pc')
  {
  }

  lemma SleepFits(mayFail: bool, s: State, pc: PC, e: Effect, pc': PC)
    requires PartOf(pc) == Waiting && !Deciding(pc) && Edge(mayFail, s, pc, e, pc')
    ensures Fits(pc, e, pc')
  {
  }

  lemma NoteFits(mayFail: bool, s: State, pc: PC, e: Effect, pc': PC)
    requires PartOf(pc) == Announcing && Edge(mayFail, s, pc, e, pc')
    ensures Fits(pc, e, pc')
  {
  }

  lemma ModifyFits(mayFail: bool, s: State, pc: PC, e: Effect, pc': PC)
    requires PartOf(pc) == ModifyingPollSet && Edge(mayFail, s, pc, e, pc')
    ensures Fits(pc, e, pc')
  {
    if InPipe(pc) { EnterFits(mayFail, s, pc, e, pc'); } else { LeaveFits(mayFail, s, pc, e, pc'); }
  }

  lemma EnterFits(mayFail: bool, s: State, pc: PC, e: Effect, pc': PC)
    requires PartOf(pc) == ModifyingPollSet && InPipe(pc) && Edge(mayFail, s, pc, e, pc')
    ensures Fits(pc, e, pc')
  {
  }

  lemma LeaveFits(mayFail: bool, s: State, pc: PC, e: Effect, pc': PC)
    requires PartOf(pc) == ModifyingPollSet && !InPipe(pc) && Edge(mayFail, s, pc, e, pc')
    ensures Fits(pc, e, pc')
  {
  }

  lemma FailFits(mayFail: bool, s: State, pc: PC, e: Effect, pc': PC)
    requires PartOf(pc) == GivingUp && Edge(mayFail, s, pc, e, pc')
    ensures Fits(pc, e, pc')
  {
  }

  lemma EdgeFits(mayFail: bool, s: State, pc: PC, e: Effect, pc': PC)
    requires Edge(mayFail, s, pc, e, pc')
    ensures Fits(pc, e, pc')
  {
    match PartOf(pc)
    case Trying => TryFits(mayFail, s, pc, e, pc');
    case HandlingEvents => HandleFits(mayFail, s, pc, e, pc');
    case Waiting => WaitFits(mayFail, s, pc, e, pc');
    case Announcing => NoteFits(mayFail, s, pc, e, pc');
    case ModifyingPollSet => ModifyFits(mayFail, s, pc, e, pc');
    case GivingUp => FailFits(mayFail, s, pc, e, pc');
  }

  lemma SetActiveHoldsEvents(pc: PC)
    ensures SetActive(pc) ==> HoldsEvents(pc)
  {
  }

  lemma OwnedAfterGoto(pcs: map<Tid, PC>, t: Tid, pc: PC, p: PC -> bool, owner: Owner, up: bool, down: bool)
    requires t in pcs && OwnedBy(pcs, p, owner)
    requires Changes(p(pcs[t]), p(pc), up, down)
    requires up ==> owner == Free
    ensures OwnedBy(pcs[t := pc], p, if up then Held(t) else if down then Free else owner)
  {
  }

  lemma OwnedAfterWake(pcs: map<Tid, PC>, p: PC -> bool, owner: Owner)
    requires p(Sleeping) == p(WaitReacquire)
    requires OwnedBy(pcs, p, owner)
    ensures OwnedBy(Woken(pcs), p, owner)
  {
  }

  lemma WakeKeepsInv(s: State)
    requires Inv(s)
    ensures Inv(s.(pcs := Woken(s.pcs)))
  {
    OwnedAfterWake(s.pcs, HoldsEvents, s.events);
    OwnedAfterWake(s.pcs, HoldsWaiters, s.waiters);
    OwnedAfterWake(s.pcs, HoldsModify, s.modifyLock);
    OwnedAfterWake(s.pcs, SetActive, if s.active then s.events else Free);
    CountAfterWake(s.pcs, Modifying);
    CountAfterWake(s.pcs, InPipe);
  }

  lemma LocksAfterMove(s: State, t: Tid, e: Effect, pc': PC)
    requires Inv(s) && t in s.pcs && Fits(s.pcs[t], e, pc') && Enabled(s, e) && e != WakeAll
    ensures OwnedBy(s.pcs[t := pc'], HoldsEvents, Apply(s, t, e).events)
    ensures OwnedBy(s.pcs[t := pc'], HoldsWaiters, Apply(s, t, e).waiters)
    ensures OwnedBy(s.pcs[t := pc'], HoldsModify, Apply(s, t, e).modifyLock)
  {
    var s1 := OwnersAfter(s, t, e);
    OwnedAfterGoto(s.pcs, t, pc', HoldsEvents, s.events, e == Take(EventsLock), e == Drop(EventsLock));
    OwnedAfterGoto(s.pcs, t, pc', HoldsWaiters, s.waiters, e == Take(WaitersLock), e == Drop(WaitersLock));
    OwnedAfterGoto(s.pcs, t, pc', HoldsModify, s.modifyLock, e == Take(ModifyLock), e == Drop(ModifyLock));
  }

  lemma OwnersAfter(s: State, t: Tid, e: Effect) returns (s1: State)
    requires Enabled(s, e) && e != WakeAll
    ensures s1 == Apply(s, t, e)
    ensures s1.events == if e == Take(EventsLock) then Held(t) else if e == Drop(EventsLock) then Free else s.events
    ensures s1.waiters == if e == Take(WaitersLock) then Held(t) else if e == Drop(WaitersLock) then Free else s.waiters
    ensures s1.modifyLock
      == if e == Take(ModifyLock) then Held(t) else if e == Drop(ModifyLock) then Free else s.modifyLock
  {
    s1 := Apply(s, t, e);
  }

  lemma FlagAfterMove(s: State, t: Tid, e: Effect, pc': PC)
    requires Inv(s) && t in s.pcs && Fits(s.pcs[t], e, pc') && Enabled(s, e) && e != WakeAll
    ensures var s1 := Apply(s, t, e);
      && OwnedBy(s.pcs[t := pc'], SetActive, if s1.active then s1.events else Free)
      && (s1.active ==> s1.events.Held?)
  {
    var owner := if s.active then s.events else Free;
    SetActiveHoldsEvents(s.pcs[t]);
    SetActiveHoldsEvents(pc');
    OwnedAfterGoto(s.pcs, t, pc', SetActive, owner, e == SetFlag, e == ClearFlag);
  }

  lemma CountersAfterMove(s: State, t: Tid, e: Effect, pc': PC)
    requires Inv(s) && t in s.pcs && Fits(s.pcs[t], e, pc') && Enabled(s, e) && e != WakeAll
    ensures Apply(s, t, e).modifying == |Where(s.pcs[t := pc'], Modifying)| % UINT_RANGE
    ensures Apply(s, t, e).pipe == |Where(s.pcs[t := pc'], InPipe)|
  {
    CountAfterGoto(s.pcs, t, pc', InPipe);
    CountAfterGoto(s.pcs, t, pc', Modifying);
    var before, after := |Where(s.pcs, Modifying)|, |Where(s.pcs[t := pc'], Modifying)|;
    if e == Increment || e == Decrement {
      UnsignedStep(before, after - before);
    }
  }

  lemma UnsignedStep(n: nat, d: int)
    requires 0 <= n + d
    ensures (n % UINT_RANGE + d) % UINT_RANGE == (n + d) % UINT_RANGE
  {
  }

  lemma StepKeepsInv(mayFail: bool, s: State, t: Tid, e: Effect, s': State)
    requires Inv(s) && Step(mayFail, s, t, e, s')
    ensures Inv(s')
  {
    var pc' := s'.pcs[t];
    EdgeFits(mayFail, s, s.pcs[t], e, pc');
    var s1 := s;
    if e == WakeAll {
      s1 := s.(pcs := Woken(s.pcs));
      WakeKeepsInv(s);
      LocalMove(s1, t, pc');
    } else {
      LocksAfterMove(s, t, e, pc');
      FlagAfterMove(s, t, e, pc');
      CountersAfterMove(s, t, e, pc');
    }
  }

  lemma LocalMove(s: State, t: Tid, pc': PC)
    requires Inv(s) && t in s.pcs && Fits(s.pcs[t], Local, pc')
    ensures Inv(s.(pcs := s.pcs[t := pc']))
  {
    LocksAfterMove(s, t, Local, pc');
    FlagAfterMove(s, t, Local, pc');
    CountersAfterMove(s, t, Local, pc');
  }

  // ---------------------------------------------------------------- nobody sleeps for ever

  /** How a step moves a thread with respect to sleeping and to owing a wake-up. */
  ghost predicate KeepsDebt(s: State, pc: PC, e: Effect, pc': PC) {
    && (OwesBroadcast(pc) && e != WakeAll ==> OwesBroadcast(pc'))
    && (Failing(pc') ==> Failing(pc))
    && (WillSleep(pc') ==> e != WakeAll)
    && (WillSleep(pc') && !WillSleep(pc) ==>
          !OwesBroadcast(pc) && (s.active || (s.modifying != 0 && !Modifying(pc))))
  }

  lemma TryKeepsDebt(s: State, pc: PC, e: Effect, pc': PC)
    requires PartOf(pc) == Trying && Edge(false, s, pc, e, pc') && !Failing(pc)
    ensures KeepsDebt(s, pc, e, pc')
  {
  }

  lemma HandleKeepsDebt(s: State, pc: PC, e: Effect, pc': PC)
    requires PartOf(pc) == HandlingEvents && Edge(false, s, pc, e, pc') && !Failing(pc)
    ensures KeepsDebt(s, pc, e, pc')
  {
  }

  lemma WaitKeepsDebt(s: State, pc: PC, e: Effect, pc': PC)
    requires PartOf(pc) == Waiting && Edge(false, s, pc, e, pc') && !Failing(pc)
    ensures KeepsDebt(s, pc, e, pc')
  {
  }

  lemma NoteKeepsDebt(s: State, pc: PC, e: Effect, pc': PC)
    requires PartOf(pc) == Announcing && Edge(false, s, pc, e, pc') && !Failing(pc)
    ensures KeepsDebt(s, pc, e, pc')
  {
  }

  lemma ModifyKeepsDebt(s: State, pc: PC, e: Effect, pc': PC)
    requires PartOf(pc) == ModifyingPollSet && Edge(false, s, pc, e, pc') && !Failing(pc)
    ensures KeepsDebt(s, pc, e, pc')
  {
  }

  lemma FailKeepsDebt(s: State, pc: PC, e: Effect, pc': PC)
    requires PartOf(pc) == GivingUp && Edge(false, s, pc, e, pc') && !Failing(pc)
    ensures KeepsDebt(s, pc, e, pc')
  {
  }

  lemma EdgeKeepsDebt(s: State, pc: PC, e: Effect, pc': PC)
    requires Edge(false, s, pc, e, pc') && !Failing(pc)
    ensures KeepsDebt(s, pc, e, pc')
  {
    match PartOf(pc)
    case Trying => TryKeepsDebt(s, pc, e, pc');
    case HandlingEvents => HandleKeepsDebt(s, pc, e, pc');
    case Waiting => WaitKeepsDebt(s, pc, e, pc');
    case Announcing => NoteKeepsDebt(s, pc, e, pc');
    case ModifyingPollSet => ModifyKeepsDebt(s, pc, e, pc');
    case GivingUp => FailKeepsDebt(s, pc, e, pc');
  }

  lemma ModifierOwes(pc: PC)
    ensures (Modifying(pc) && !Failing(pc)) || SetActive(pc) ==> OwesBroadcast(pc)
  {
  }

  /** What the waiter saw under the waiters lock is the doing of some thread that owes a wake-up. */
  lemma ReasonToSleep(s: State)
    requires Inv(s) && !SomeAt(s.pcs, Failing)
    requires s.active || s.modifying != 0
    ensures SomeoneOwes(s)
  {
    if s.active {
      ModifierOwes(s.pcs[s.events.holder]);
    } else {
      var u :| u in Where(s.pcs, Modifying);
      ModifierOwes(s.pcs[u]);
    }
  }

  /** Waking all sleepers while holding the lock that everybody about to sleep holds leaves none. */
  lemma WakeLeavesNone(pcs: map<Tid, PC>, t: Tid, pc': PC, sleeps: PC -> bool, holds: PC -> bool)
    requires t in pcs && OwnedBy(pcs, holds, Held(t)) && !sleeps(pc') && !sleeps(WaitReacquire)
    requires forall u | u in pcs :: sleeps(pcs[u]) && pcs[u] != Sleeping ==> holds(pcs[u])
    ensures !SomeAt(Woken(pcs)[t := pc'], sleeps)
  {
  }

  lemma MoveKeepsNone(pcs: map<Tid, PC>, t: Tid, pc': PC, p: PC -> bool)
    requires t in pcs && !SomeAt(pcs, p) && (p(pc') ==> p(pcs[t]))
    ensures !SomeAt(pcs[t := pc'], p)
  {
  }

  lemma MoveKeepsSome(pcs: map<Tid, PC>, t: Tid, pc': PC, p: PC -> bool)
    requires t in pcs && SomeAt(pcs, p) && (p(pcs[t]) ==> p(pc'))
    ensures SomeAt(pcs[t := pc'], p)
  {
    var u :| u in pcs && p(pcs[u]);
    var pcs' := pcs[t := pc'];
    assert u in pcs' && p(pcs'[u]);
  }

  lemma AboutToSleepHoldsWaiters(pc: PC)
    ensures WillSleep(pc) && pc != Sleeping ==> HoldsWaiters(pc)
  {
  }

  lemma WakeLeavesNobodyAsleep(pcs: map<Tid, PC>, t: Tid, pc': PC)
    requires t in pcs && OwnedBy(pcs, HoldsWaiters, Held(t)) && !WillSleep(pc')
    ensures !SomeAt(Woken(pcs)[t := pc'], WillSleep)
  {
    forall u | u in pcs ensures WillSleep(pcs[u]) && pcs[u] != Sleeping ==> HoldsWaiters(pcs[u]) {
      AboutToSleepHoldsWaiters(pcs[u]);
    }
    WakeLeavesNone(pcs, t, pc', WillSleep, HoldsWaiters);
  }

  lemma WakeKeepsNone(pcs: map<Tid, PC>, p: PC -> bool)
    requires !SomeAt(pcs, p) && !p(WaitReacquire)
    ensures !SomeAt(Woken(pcs), p)
  {
  }

  lemma WakingEdge(s: State, pc: PC, pc': PC)
    requires Edge(false, s, pc, WakeAll, pc') && !Failing(pc)
    ensures HoldsWaiters(pc) && !WillSleep(pc') && !Failing(pc')
  {
    EdgeFits(false, s, pc, WakeAll, pc');
    EdgeKeepsDebt(s, pc, WakeAll, pc');
  }

  lemma WakeAllKeepsWakeups(s: State, t: Tid, s': State)
    requires Inv(s) && WakeupsKept(s) && Step(false, s, t, WakeAll, s')
    ensures WakeupsKept(s')
    ensures !SomeAt(s'.pcs, WillSleep)
  {
    var pc' := s'.pcs[t];
    assert !Failing(s.pcs[t]);
    WakingEdge(s, s.pcs[t], pc');
    WakeLeavesNobodyAsleep(s.pcs, t, pc');
    WakeKeepsNone(s.pcs, Failing);
    MoveKeepsNone(Woken(s.pcs), t, pc', Failing);
  }

  lemma OtherStepKeepsWakeups(s: State, t: Tid, e: Effect, s': State)
    requires Inv(s) && WakeupsKept(s) && Step(false, s, t, e, s') && e != WakeAll
    ensures WakeupsKept(s')
  {
    var pc' := s'.pcs[t];
    assert !Failing(s.pcs[t]);
    EdgeKeepsDebt(s, s.pcs[t], e, pc');
    assert s'.pcs == s.pcs[t := pc'];
    MoveKeepsNone(s.pcs, t, pc', Failing);
    if SomeAt(s'.pcs, WillSleep) {
      if WillSleep(pc') && !WillSleep(s.pcs[t]) {
        ReasonToSleep(s);
      } else if !SomeAt(s.pcs, WillSleep) {
        MoveKeepsNone(s.pcs, t, pc', WillSleep);
      }
      MoveKeepsSome(s.pcs, t, pc', OwesBroadcast);
    }
  }

  // ---------------------------------------------------------------- theorems about every reachable state

  lemma ReachableKeepsInv(mayFail: bool, s: State)
    requires Reachable(mayFail, s)
    ensures Inv(s)
    ensures !mayFail ==> WakeupsKept(s)
  {
    var run :| IsRun(mayFail, run) && run[|run| - 1] == s;
    RunKeepsInv(mayFail, run, |run| - 1);
  }

  lemma {:induction false} RunKeepsInv(mayFail: bool, run: seq<State>, i: nat)
    requires IsRun(mayFail, run) && i < |run|
    ensures Inv(run[i])
    ensures !mayFail ==> WakeupsKept(run[i])
  {
    if i == 0 {
      InitInv(run[0]);
    } else {
      RunKeepsInv(mayFail, run, i - 1);
      assert NextAt(mayFail, run, i - 1);
      NextKeeps(mayFail, run[i - 1], run[i]);
    }
  }

  lemma NextKeeps(mayFail: bool, s: State, s': State)
    requires Inv(s) && (!mayFail ==> WakeupsKept(s)) && Next(mayFail, s, s')
    ensures Inv(s') && (!mayFail ==> WakeupsKept(s'))
  {
    var t, e :| Step(mayFail, s, t, e, s');
    StepKeeps(mayFail, s, t, e, s');
  }

  lemma StepKeeps(mayFail: bool, s: State, t: Tid, e: Effect, s': State)
    requires Inv(s) && (!mayFail ==> WakeupsKept(s)) && Step(mayFail, s, t, e, s')
    ensures Inv(s') && (!mayFail ==> WakeupsKept(s'))
  {
    StepKeepsInv(mayFail, s, t, e, s');
    if !mayFail {
      if e == WakeAll { WakeAllKeepsWakeups(s, t, s'); } else { OtherStepKeepsWakeups(s, t, e, s'); }
    }
  }

  lemma InitInv(s: State)
    requires Init(s)
    ensures Inv(s) && WakeupsKept(s)
  {
    assert Where(s.pcs, Modifying) == {};
    assert Where(s.pcs, InPipe) == {};
    assert !SomeAt(s.pcs, Failing) && !SomeAt(s.pcs, WillSleep);
  }

  /** No lost wake-up: while anybody sleeps, some thread still owes the waiters a broadcast. */
  lemma NoLostWakeup(s: State, t: Tid)
    requires Reachable(false, s)
    requires t in s.pcs && s.pcs[t] == Sleeping
    ensures SomeoneOwes(s)
  {
    ReachableKeepsInv(false, s);
  }

  /** A debt is paid only by a broadcast, and a broadcast leaves nobody asleep or about to sleep. */
  lemma DebtsArePaidByWaking(s: State, t: Tid, e: Effect, s': State)
    requires Reachable(false, s) && Step(false, s, t, e, s')
    ensures OwesBroadcast(s.pcs[t]) && !OwesBroadcast(s'.pcs[t]) ==> e == WakeAll
    ensures e == WakeAll ==>
      && !SomeAt(s'.pcs, WillSleep)
      && (forall u | u in s.pcs && s.pcs[u] == Sleeping :: s'.pcs[u] == WaitReacquire)
  {
    ReachableKeepsInv(false, s);
    EdgeKeepsDebt(s, s.pcs[t], e, s'.pcs[t]);
    if e == WakeAll {
      EdgeFits(false, s, s.pcs[t], e, s'.pcs[t]);
      WakeAllKeepsWakeups(s, t, s');
    }
  }

  /** How many more steps a thread that owes a broadcast takes until it broadcasts. */
  function StepsToBroadcast(pc: PC): nat {
    match pc
    case EndBroadcast | DoneBroadcast => 1
    case EndLockWaiters | DoneLockWaiters => 2
    case UnlockEvents => 3
    case ClearActive => 4
    case Handling | NoteReunlockModify => 5
    case DoneUnlockWaiters | NoteDecrement => 6
    case NoteRelockModify => 7
    case NoteClose => 8
    case NoteRead(_) => 9
    case NoteActivate(_) => 10
    case NoteLockEvents(_) => 11
    case NoteWrite(_) => 12
    case NoteUnlockModify(_) => 13
    case _ => 0
  }

  /** Whoever owes a broadcast gives it within 13 of its own steps: each of them either is the
      broadcast or brings it nearer. */
  lemma DebtCountsDown(s: State, t: Tid, e: Effect, s': State)
    requires Step(false, s, t, e, s') && OwesBroadcast(s.pcs[t])
    ensures 1 <= StepsToBroadcast(s.pcs[t]) <= 13
    ensures e == WakeAll || StepsToBroadcast(s'.pcs[t]) < StepsToBroadcast(s.pcs[t])
    ensures e == WakeAll ==> StepsToBroadcast(s.pcs[t]) == 1
  {
    EdgeCountsDown(s, s.pcs[t], e, s'.pcs[t]);
  }

  lemma EdgeCountsDown(s: State, pc: PC, e: Effect, pc': PC)
    requires Edge(false, s, pc, e, pc') && OwesBroadcast(pc)
    ensures 1 <= StepsToBroadcast(pc) <= 13
    ensures if e == WakeAll then StepsToBroadcast(pc) == 1 else StepsToBroadcast(pc') < StepsToBroadcast(pc)
  {
  }

  /** A part of a run, with who takes each step and what the step does. */
  ghost predicate IsTrace(run: seq<State>, movers: seq<Tid>, effects: seq<Effect>) {
    && |run| == |movers| + 1 == |effects| + 1 && Reachable(false, run[0])
    && forall i | 0 <= i < |movers| :: StepAt(run, movers, effects, i)
  }

  ghost predicate StepAt(run: seq<State>, movers: seq<Tid>, effects: seq<Effect>, i: nat)
    requires |run| == |movers| + 1 == |effects| + 1 && i < |movers|
  {
    Step(false, run[i], movers[i], effects[i], run[i + 1])
  }

  function StepsOf(movers: seq<Tid>, t: Tid): nat {
    if movers == [] then 0 else (if movers[0] == t then 1 else 0) + StepsOf(movers[1..], t)
  }

  /** However the others move in between: once a thread that owes a broadcast has taken 13 steps, there has
      been a state in which nobody slept or was about to. */
  lemma WokenInTime(run: seq<State>, movers: seq<Tid>, effects: seq<Effect>, t: Tid)
    requires IsTrace(run, movers, effects) && t in run[0].pcs && OwesBroadcast(run[0].pcs[t])
    requires StepsOf(movers, t) >= 13
    ensures exists k :: 0 < k < |run| && !SomeAt(run[k].pcs, WillSleep)
  {
    StepsAreFew(run[0].pcs[t]);
    WokenWithin(run, movers, effects, t);
  }

  lemma StepsAreFew(pc: PC)
    requires OwesBroadcast(pc)
    ensures 1 <= StepsToBroadcast(pc) <= 13
  {
  }

  lemma {:induction false} WokenWithin(run: seq<State>, movers: seq<Tid>, effects: seq<Effect>, t: Tid)
    requires IsTrace(run, movers, effects) && t in run[0].pcs && OwesBroadcast(run[0].pcs[t])
    requires StepsOf(movers, t) >= StepsToBroadcast(run[0].pcs[t])
    ensures exists k :: 0 < k < |run| && !SomeAt(run[k].pcs, WillSleep)
    decreases |run|
  {
    StepsAreFew(run[0].pcs[t]);
    assert StepAt(run, movers, effects, 0);
    if effects[0] == WakeAll {
      DebtsArePaidByWaking(run[0], movers[0], effects[0], run[1]);
      assert !SomeAt(run[1].pcs, WillSleep);
    } else {
      StillOwes(run[0], movers[0], effects[0], run[1], t);
      TraceRest(run, movers, effects);
      WokenWithin(run[1..], movers[1..], effects[1..], t);
      var k :| 0 < k < |run[1..]| && !SomeAt(run[1..][k].pcs, WillSleep);
      assert run[k + 1] == run[1..][k];
    }
  }

  /** A step that is no broadcast: the debtor is where it was, or has come nearer. */
  lemma StillOwes(s: State, u: Tid, e: Effect, s': State, t: Tid)
    requires Reachable(false, s) && Step(false, s, u, e, s') && e != WakeAll && t in s.pcs && OwesBroadcast(s.pcs[t])
    ensures t in s'.pcs && OwesBroadcast(s'.pcs[t])
    ensures if u == t then StepsToBroadcast(s'.pcs[t]) < StepsToBroadcast(s.pcs[t]) else s'.pcs[t] == s.pcs[t]
  {
    if u == t {
      DebtsArePaidByWaking(s, t, e, s');
      DebtCountsDown(s, t, e, s');
    }
  }

  lemma TraceRest(run: seq<State>, movers: seq<Tid>, effects: seq<Effect>)
    requires IsTrace(run, movers, effects) && movers != []
    ensures IsTrace(run[1..], movers[1..], effects[1..])
  {
    assert StepAt(run, movers, effects, 0);
    StepReaches(false, run[0], movers[0], effects[0], run[1]);
    forall i | 0 <= i < |movers[1..]| ensures StepAt(run[1..], movers[1..], effects[1..], i) {
      assert StepAt(run, movers, effects, i + 1);
    }
  }

  // ---------------------------------------------------------------- nobody is stuck

  datatype Wait = NoLock | For(lock: Lock)

  function WaitsFor(pc: PC): Wait {
    match pc
    case AppLockEvents | NoteLockEvents(_) => For(EventsLock)
    case DoneLockWaiters | EndLockWaiters | WaitLockWaiters | WaitReacquire => For(WaitersLock)
    case TryLockModify | WaitLockModify | NoteLockModify(_) | NoteRelockModify | FailLockModify =>
      For(ModifyLock)
    case _ => NoLock
  }

  ghost predicate CanMove(mayFail: bool, s: State, pc: PC) {
    exists e, pc' :: Edge(mayFail, s, pc, e, pc') && Enabled(s, e)
  }

  /** In a call, and awake. */
  predicate Busy(pc: PC) {
    !pc.Idle? && !pc.Sleeping?
  }

  /** The lock that `pc` is about to take is free, and the pipe it is about to read is not empty. */
  predicate Unblocked(s: State, pc: PC) {
    && (WaitsFor(pc).For? ==> Enabled(s, Take(WaitsFor(pc).lock)))
    && (pc.NoteRead? ==> s.pipe > 0)
  }

  lemma TryMoves(mayFail: bool, s: State, pc: PC) returns (e: Effect, pc': PC)
    requires PartOf(pc) == Trying && Busy(pc) && Unblocked(s, pc)
    ensures Edge(mayFail, s, pc, e, pc') && Enabled(s, e)
  {
    match pc
    case TryLockModify => e, pc' := Take(ModifyLock), TryReadModify;
    case TryReadModify => e, pc' := Local, TryUnlockModify(s.modifying != 0);
    case TryUnlockModify(busy) => e, pc' := Drop(ModifyLock), if busy then WaitLockWaiters else TryEvents;
    case TryEvents =>
      if s.events == Free { e, pc' := Take(EventsLock), TryActivate; } else { e, pc' := Local, WaitLockWaiters; }
    case TryActivate => e, pc' := SetFlag, Handling;
    case AppLockEvents => e, pc' := Take(EventsLock), AppActivate;
    case AppActivate => e, pc' := SetFlag, Handling;
  }

  lemma HandleMoves(mayFail: bool, s: State, pc: PC) returns (e: Effect, pc': PC)
    requires PartOf(pc) == HandlingEvents && Unblocked(s, pc)
    ensures Edge(mayFail, s, pc, e, pc') && Enabled(s, e)
  {
    match pc
    case Handling => e, pc' := Local, ClearActive;
    case DoneLockWaiters => e, pc' := Take(WaitersLock), DoneBroadcast;
    case DoneBroadcast => e, pc' := WakeAll, DoneUnlockWaiters;
    case DoneUnlockWaiters => e, pc' := Drop(WaitersLock), Handling;
    case ClearActive => e, pc' := ClearFlag, UnlockEvents;
    case UnlockEvents => e, pc' := Drop(EventsLock), EndLockWaiters;
    case EndLockWaiters => e, pc' := Take(WaitersLock), EndBroadcast;
    case EndBroadcast => e, pc' := WakeAll, EndUnlockWaiters;
    case EndUnlockWaiters => e, pc' := Drop(WaitersLock), Idle;
  }

  lemma WaitMoves(mayFail: bool, s: State, pc: PC) returns (e: Effect, pc': PC)
    requires PartOf(pc) == Waiting && Busy(pc) && Unblocked(s, pc)
    ensures Edge(mayFail, s, pc, e, pc') && Enabled(s, e)
  {
    match pc
    case WaitLockWaiters => e, pc' := Take(WaitersLock), WaitLockModify;
    case WaitLockModify => e, pc' := Take(ModifyLock), WaitReadModify;
    case WaitReadModify => e, pc' := Local, WaitUnlockModify(s.modifying != 0);
    case WaitUnlockModify(busy) => e, pc' := Drop(ModifyLock), if busy then WaitSleep else WaitReadActive;
    case WaitReadActive => e, pc' := Local, if s.active then WaitSleep else RetryUnlockWaiters;
    case WaitSleep => e, pc' := Drop(WaitersLock), Sleeping;
    case WaitReacquire => e, pc' := Take(WaitersLock), WaitUnlockWaiters;
    case WaitUnlockWaiters => e, pc' := Drop(WaitersLock), Idle;
    case RetryUnlockWaiters => e, pc' := Drop(WaitersLock), TryLockModify;
  }

  lemma NoteMoves(mayFail: bool, s: State, pc: PC) returns (e: Effect, pc': PC)
    requires PartOf(pc) == Announcing && Unblocked(s, pc)
    ensures Edge(mayFail, s, pc, e, pc') && Enabled(s, e)
  {
    match pc
    case NoteLockModify(c) => e, pc' := Take(ModifyLock), NoteIncrement(c);
    case NoteIncrement(c) => e, pc' := Increment, NoteUnlockModify(c);
    case NoteUnlockModify(c) => e, pc' := Drop(ModifyLock), NoteWrite(c);
    case NoteWrite(c) => e, pc' := WriteByte, NoteLockEvents(c);
  }

  lemma ModifyMoves(mayFail: bool, s: State, pc: PC) returns (e: Effect, pc': PC)
    requires PartOf(pc) == ModifyingPollSet && Unblocked(s, pc)
    ensures Edge(mayFail, s, pc, e, pc') && Enabled(s, e)
  {
    match pc
    case NoteLockEvents(c) => e, pc' := Take(EventsLock), NoteActivate(c);
    case NoteActivate(c) => e, pc' := SetFlag, NoteRead(c);
    case NoteRead(c) => e, pc' := ReadByte, if c then NoteClose else NoteRelockModify;
    case NoteClose => e, pc' := Local, NoteRelockModify;
    case NoteRelockModify => e, pc' := Take(ModifyLock), NoteDecrement;
    case NoteDecrement => e, pc' := Decrement, NoteReunlockModify;
    case NoteReunlockModify => e, pc' := Drop(ModifyLock), ClearActive;
  }

  lemma FailMoves(mayFail: bool, s: State, pc: PC) returns (e: Effect, pc': PC)
    requires PartOf(pc) == GivingUp && Unblocked(s, pc)
    ensures Edge(mayFail, s, pc, e, pc') && Enabled(s, e)
  {
    match pc
    case FailClose => e, pc' := Local, FailLockModify;
    case FailLockModify => e, pc' := Take(ModifyLock), FailDecrement;
    case FailDecrement => e, pc' := Decrement, FailUnlockModify;
    case FailUnlockModify => e, pc' := Drop(ModifyLock), Idle;
  }

  lemma UnblockedCanMove(mayFail: bool, s: State, pc: PC)
    requires Busy(pc) && Unblocked(s, pc)
    ensures CanMove(mayFail, s, pc)
  {
    var e, pc';
    if PartOf(pc) == Trying { e, pc' := TryMoves(mayFail, s, pc); }
    else if PartOf(pc) == HandlingEvents { e, pc' := HandleMoves(mayFail, s, pc); }
    else if PartOf(pc) == Waiting { e, pc' := WaitMoves(mayFail, s, pc); }
    else if PartOf(pc) == Announcing { e, pc' := NoteMoves(mayFail, s, pc); }
    else if PartOf(pc) == ModifyingPollSet { e, pc' := ModifyMoves(mayFail, s, pc); }
    else { e, pc' := FailMoves(mayFail, s, pc); }
    assert Edge(mayFail, s, pc, e, pc') && Enabled(s, e);
  }

  /** Locks are only ever taken in the order events, waiters, pollfd_modify. */
  lemma LockOrder(pc: PC)
    ensures HoldsModify(pc) ==> Busy(pc) && !pc.NoteRead? && WaitsFor(pc) == NoLock
    ensures HoldsWaiters(pc) ==>
      && Busy(pc) && !pc.NoteRead?
      && (WaitsFor(pc) == NoLock || WaitsFor(pc) == For(ModifyLock))
    ensures HoldsEvents(pc) ==> Busy(pc) && WaitsFor(pc) != For(EventsLock)
  {
  }

  /** The byte a thread goes to read is there: reading the control pipe never blocks. */
  lemma ReadNeverBlocks(mayFail: bool, s: State, t: Tid)
    requires Reachable(mayFail, s)
    requires t in s.pcs && s.pcs[t].NoteRead?
    ensures s.pipe > 0
  {
    ReachableKeepsInv(mayFail, s);
    assert t in Where(s.pcs, InPipe);
  }

  /** In every reachable state, even when pipe writes fail, if any thread is awake inside a call
      then some thread that is awake inside a call can take a step. */
  lemma NoDeadlock(mayFail: bool, s: State, t: Tid) returns (u: Tid)
    requires Reachable(mayFail, s)
    requires t in s.pcs && Busy(s.pcs[t])
    ensures u in s.pcs && Busy(s.pcs[u]) && CanMove(mayFail, s, s.pcs[u])
  {
    ReachableKeepsInv(mayFail, s);
    u := t;
    if WaitsFor(s.pcs[u]) == For(EventsLock) && s.events.Held? { u := s.events.holder; }
    LockOrder(s.pcs[u]);
    if WaitsFor(s.pcs[u]) == For(WaitersLock) && s.waiters.Held? { u := s.waiters.holder; }
    LockOrder(s.pcs[u]);
    if WaitsFor(s.pcs[u]) == For(ModifyLock) && s.modifyLock.Held? { u := s.modifyLock.holder; }
    LockOrder(s.pcs[u]);
    if s.pcs[u].NoteRead? { ReadNeverBlocks(mayFail, s, u); }
    UnblockedCanMove(mayFail, s, s.pcs[u]);
  }

  // ---------------------------------------------------------------- conservation

  /** In every reachable state, even when pipe writes fail: pollfd_modify counts (modulo the range of
      an unsigned int) the threads between its increment and its decrement, and the control pipe
      holds one byte for every thread between its write and its read. */
  lemma Conservation(mayFail: bool, s: State)
    requires Reachable(mayFail, s)
    ensures s.modifying == |Where(s.pcs, Modifying)| % UINT_RANGE
    ensures |s.pcs| < UINT_RANGE ==> s.modifying == |Where(s.pcs, Modifying)|
    ensures s.pipe == |Where(s.pcs, InPipe)|
  {
    ReachableCounts(mayFail, s);
    SubsetSize(Where(s.pcs, Modifying), s.pcs.Keys);
  }

  lemma ReachableCounts(mayFail: bool, s: State)
    requires Reachable(mayFail, s)
    ensures s.modifying == |Where(s.pcs, Modifying)| % UINT_RANGE
    ensures s.pipe == |Where(s.pcs, InPipe)|
  {
    ReachableKeepsInv(mayFail, s);
  }

  /** The active flag is raised exactly while the holder of the events lock has it raised. */
  lemma FlagImpliesLock(mayFail: bool, s: State)
    requires Reachable(mayFail, s)
    ensures s.active ==> s.events.Held? && s.events.holder in s.pcs && SetActive(s.pcs[s.events.holder])
    ensures forall t | t in s.pcs && SetActive(s.pcs[t]) :: s.active && s.events == Held(t)
  {
    var owner := if s.active then s.events else Free;
    assert OwnedBy(s.pcs, SetActive, owner) && (s.active ==> s.events.Held?) by {
      ReachableKeepsInv(mayFail, s);
    }
  }

  lemma {:induction false} SubsetSize<T>(a: set<T>, b: set<T>)
    requires a <= b
    ensures |a| <= |b|
  {
    if x :| x in a {
      SubsetSize(a - {x}, b - {x});
    }
  }

  /** At most one thread is in handle_events or owns the right to modify the poll set. */
  lemma HandlingIsExclusive(mayFail: bool, s: State, t: Tid, u: Tid)
    requires Reachable(mayFail, s)
    requires t in s.pcs && u in s.pcs && SetActive(s.pcs[t]) && SetActive(s.pcs[u])
    ensures t == u
  {
    FlagImpliesLock(mayFail, s);
  }

  /** The device is being closed and its file descriptor removed from the poll set. */
  predicate Closing(pc: PC) {
    pc.NoteClose? || pc.FailClose?
  }

  ghost predicate CloseDuringHandling(s: State) {
    exists t, u :: t in s.pcs && u in s.pcs && Closing(s.pcs[t]) && InHandleEvents(s.pcs[u])
  }

  ghost predicate LostWakeup(s: State) {
    SomeAt(s.pcs, pc => pc == Sleeping) && !SomeoneOwes(s)
  }

  lemma HandlingSetsActive(pc: PC)
    ensures InHandleEvents(pc) || pc.NoteClose? ==> SetActive(pc)
    ensures !(InHandleEvents(pc) && Closing(pc))
  {
  }

  lemma NoLossWithoutFailure(s: State)
    requires Reachable(false, s)
    ensures !LostWakeup(s)
  {
    if t :| t in s.pcs && s.pcs[t] == Sleeping {
      NoLostWakeup(s, t);
    }
  }

  lemma NoClashWithoutFailure(s: State)
    requires Reachable(false, s)
    ensures !CloseDuringHandling(s)
  {
    assert !SomeAt(s.pcs, Failing) by { ReachableKeepsInv(false, s); }
    if t, u :| t in s.pcs && u in s.pcs && Closing(s.pcs[t]) && InHandleEvents(s.pcs[u]) {
      assert !Failing(s.pcs[t]);
      HandlingSetsActive(s.pcs[t]);
      HandlingSetsActive(s.pcs[u]);
      HandlingIsExclusive(false, s, t, u);
    }
  }

  // ---------------------------------------------------------------- what a failed pipe write breaks

  /** Only thread `t` moves. */
  ghost predicate OthersStay(s: State, t: Tid, s': State) {
    && s'.pcs.Keys == s.pcs.Keys
    && forall u | u in s.pcs && u != t :: s'.pcs[u] == s.pcs[u]
  }

  lemma StepReaches(mayFail: bool, s: State, t: Tid, e: Effect, s': State)
    requires Reachable(mayFail, s) && Step(mayFail, s, t, e, s')
    ensures Reachable(mayFail, s')
  {
    var run :| IsRun(mayFail, run) && run[|run| - 1] == s;
    var longer := run + [s'];
    forall i: nat | i + 1 < |longer| ensures NextAt(mayFail, longer, i) {
      if i + 1 < |run| {
        assert NextAt(mayFail, run, i);
      } else {
        assert Next(mayFail, s, s');
      }
    }
    assert IsRun(mayFail, longer) && longer[|longer| - 1] == s';
  }

  /** One more step of thread `t`. */
  lemma Extend(s: State, t: Tid, pc: PC, e: Effect, pc': PC) returns (s': State)
    requires Reachable(true, s) && e != WakeAll
    requires t in s.pcs && s.pcs[t] == pc && Edge(true, s, pc, e, pc') && Enabled(s, e)
    ensures Reachable(true, s') && OthersStay(s, t, s') && t in s'.pcs && s'.pcs[t] == pc'
    ensures s' == Apply(s, t, e).(pcs := s'.pcs)
  {
    s' := Apply(s, t, e).(pcs := s.pcs[t := pc']);
    assert Step(true, s, t, e, s');
    StepReaches(true, s, t, e, s');
  }

  ghost predicate LocksFree(s: State) {
    s.events == Free && s.waiters == Free && s.modifyLock == Free
  }

  /** Thread `t` opens or closes a device up to its write to the control pipe. */
  lemma Announces(s: State, t: Tid, closing: bool) returns (s': State)
    requires Reachable(true, s) && t in s.pcs && s.pcs[t] == Idle && LocksFree(s) && s.modifying == 0
    ensures Reachable(true, s') && OthersStay(s, t, s') && t in s'.pcs && s'.pcs[t] == NoteWrite(closing)
    ensures LocksFree(s') && s'.modifying == 1
  {
    var s1 := Extend(s, t, Idle, Local, NoteLockModify(closing));
    var s2 := Extend(s1, t, NoteLockModify(closing), Take(ModifyLock), NoteIncrement(closing));
    s' := Announced(s2, t, closing);
  }

  lemma Announced(s: State, t: Tid, closing: bool) returns (s': State)
    requires Reachable(true, s) && t in s.pcs && s.pcs[t] == NoteIncrement(closing) && s.modifying == 0
    requires s.events == Free && s.waiters == Free
    ensures Reachable(true, s') && OthersStay(s, t, s') && t in s'.pcs && s'.pcs[t] == NoteWrite(closing)
    ensures LocksFree(s') && s'.modifying == 1
  {
    s' := Extend(s, t, NoteIncrement(closing), Increment, NoteUnlockModify(closing));
    s' := Extend(s', t, NoteUnlockModify(closing), Drop(ModifyLock), NoteWrite(closing));
  }

  /** Thread `t` is turned away from the events lock. */
  lemma TurnedAway(s: State, t: Tid) returns (s': State)
    requires Reachable(true, s) && t in s.pcs && s.pcs[t] == Idle && LocksFree(s) && s.modifying == 1
    ensures Reachable(true, s') && OthersStay(s, t, s') && t in s'.pcs && s'.pcs[t] == WaitLockWaiters
    ensures LocksFree(s') && s'.modifying == 1
  {
    s' := Extend(s, t, Idle, Local, TryLockModify);
    s' := Extend(s', t, TryLockModify, Take(ModifyLock), TryReadModify);
    s' := Extend(s', t, TryReadModify, Local, TryUnlockModify(true));
    s' := Extend(s', t, TryUnlockModify(true), Drop(ModifyLock), WaitLockWaiters);
  }

  /** Thread `t` sees that the poll set is being modified, and goes to sleep. */
  lemma FallsAsleep(s: State, t: Tid) returns (s': State)
    requires Reachable(true, s) && t in s.pcs && s.pcs[t] == WaitLockWaiters && LocksFree(s) && s.modifying == 1
    ensures Reachable(true, s') && OthersStay(s, t, s') && t in s'.pcs && s'.pcs[t] == Sleeping
    ensures LocksFree(s') && s'.modifying == 1
  {
    var s1 := Extend(s, t, WaitLockWaiters, Take(WaitersLock), WaitLockModify);
    var s2 := Extend(s1, t, WaitLockModify, Take(ModifyLock), WaitReadModify);
    s' := FellAsleep(s2, t);
  }

  lemma FellAsleep(s: State, t: Tid) returns (s': State)
    requires Reachable(true, s) && t in s.pcs && s.pcs[t] == WaitReadModify && s.events == Free && s.modifying == 1
    ensures Reachable(true, s') && OthersStay(s, t, s') && t in s'.pcs && s'.pcs[t] == Sleeping
    ensures LocksFree(s') && s'.modifying == 1
  {
    s' := Extend(s, t, WaitReadModify, Local, WaitUnlockModify(true));
    s' := Extend(s', t, WaitUnlockModify(true), Drop(ModifyLock), WaitSleep);
    s' := Extend(s', t, WaitSleep, Drop(WaitersLock), Sleeping);
  }

  /** Thread `t` fails to write to the control pipe and returns without a broadcast. */
  lemma GivesUp(s: State, t: Tid) returns (s': State)
    requires Reachable(true, s) && t in s.pcs && s.pcs[t] == NoteWrite(false) && LocksFree(s)
    ensures Reachable(true, s') && OthersStay(s, t, s') && t in s'.pcs && s'.pcs[t] == Idle
  {
    var s1 := Extend(s, t, NoteWrite(false), Local, FailLockModify);
    var s2 := Extend(s1, t, FailLockModify, Take(ModifyLock), FailDecrement);
    s' := GaveUp(s2, t);
  }

  lemma GaveUp(s: State, t: Tid) returns (s': State)
    requires Reachable(true, s) && t in s.pcs && s.pcs[t] == FailDecrement
    ensures Reachable(true, s') && OthersStay(s, t, s') && t in s'.pcs && s'.pcs[t] == Idle
  {
    s' := Extend(s, t, FailDecrement, Decrement, FailUnlockModify);
    s' := Extend(s', t, FailUnlockModify, Drop(ModifyLock), Idle);
  }

  lemma TwoIdleThreads() returns (s: State)
    ensures Reachable(true, s) && LocksFree(s) && s.modifying == 0
    ensures s.pcs == map[0 := Idle, 1 := Idle]
  {
    s := State(map[0 := Idle, 1 := Idle], Free, Free, Free, false, 0, 0);
    assert IsRun(true, [s]) && [s][|[s]| - 1] == s;
  }

  /** Thread 1 sleeps because thread 0 opens a device, and thread 0 leaves without waking it. */
  lemma FailedOpen() returns (s: State)
    ensures Reachable(true, s) && LostWakeup(s)
  {
    s := TwoIdleThreads();
    s := Announces(s, 0, false);
    s := TurnedAway(s, 1);
    s := LeftAsleep(s);
  }

  lemma LeftAsleep(s: State) returns (s': State)
    requires Reachable(true, s) && LocksFree(s) && s.modifying == 1
    requires s.pcs == map[0 := NoteWrite(false), 1 := WaitLockWaiters]
    ensures Reachable(true, s') && LostWakeup(s')
  {
    var s1 := FallsAsleep(s, 1);
    s' := GivesUp(s1, 0);
    SleeperForgotten(s');
  }

  lemma SleeperForgotten(s: State)
    requires 0 in s.pcs && s.pcs[0] == Idle && 1 in s.pcs && s.pcs[1] == Sleeping
    requires forall t | t in s.pcs :: t == 0 || t == 1
    ensures LostWakeup(s)
  {
    var asleep := pc => pc == Sleeping;
    assert asleep(s.pcs[1]);
  }

  /** Thread 0 cannot write to the control pipe, and closes the device while thread 1 handles events. */
  lemma FailedClose() returns (s: State)
    ensures Reachable(true, s) && CloseDuringHandling(s)
  {
    s := TwoIdleThreads();
    s := Announces(s, 0, true);
    s := Extend(s, 0, NoteWrite(true), Local, FailClose);
    s := Extend(s, 1, Idle, Local, AppLockEvents);
    s := Extend(s, 1, AppLockEvents, Take(EventsLock), AppActivate);
    s := Extend(s, 1, AppActivate, SetFlag, Handling);
    assert Closing(s.pcs[0]) && InHandleEvents(s.pcs[1]);
  }

  /** Both guarantees hold in every reachable state exactly when writing to the control pipe cannot fail. */
  lemma SafeIffWritesSucceed(mayFail: bool)
    ensures (forall s :: Reachable(mayFail, s) ==> !LostWakeup(s)) <==> !mayFail
    ensures (forall s :: Reachable(mayFail, s) ==> !CloseDuringHandling(s)) <==> !mayFail
  {
    if mayFail {
      var lost := FailedOpen();
      var clash := FailedClose();
    } else {
      forall s | Reachable(false, s) ensures !LostWakeup(s) && !CloseDuringHandling(s) {
        NoLossWithoutFailure(s);
        NoClashWithoutFailure(s);
      }
    }
  }

  // ---------------------------------------------------------------- runs in which no write failed

  /** No thread has come to the branch that is taken when the write fails. */
  ghost predicate NoWriteFailed(run: seq<State>) {
    forall i: nat, t | i < |run| && t in run[i].pcs :: !Failing(run[i].pcs[t])
  }

  lemma EdgeWithoutFailure(s: State, pc: PC, e: Effect, pc': PC)
    requires Edge(true, s, pc, e, pc') && !Failing(pc')
    ensures Edge(false, s, pc, e, pc')
  {
  }

  lemma NextWithoutFailure(s: State, s': State)
    requires Next(true, s, s') && forall t | t in s'.pcs :: !Failing(s'.pcs[t])
    ensures Next(false, s, s')
  {
    var t, e :| Step(true, s, t, e, s');
    EdgeWithoutFailure(s, s.pcs[t], e, s'.pcs[t]);
    assert Step(false, s, t, e, s');
  }

  /** Even if writes may fail: until one does, no wake-up is lost and no device is closed while another
      thread handles events. */
  lemma SafeUntilAWriteFails(run: seq<State>, i: nat)
    requires IsRun(true, run) && NoWriteFailed(run) && i < |run|
    ensures !LostWakeup(run[i]) && !CloseDuringHandling(run[i])
  {
    var prefix := run[..i + 1];
    forall k: nat | k + 1 < |prefix| ensures NextAt(false, prefix, k) {
      assert NextAt(true, run, k);
      NextWithoutFailure(run[k], run[k + 1]);
    }
    assert IsRun(false, prefix) && prefix[|prefix| - 1] == run[i];
    NoLossWithoutFailure(run[i]);
    NoClashWithoutFailure(run[i]);
  }
}
