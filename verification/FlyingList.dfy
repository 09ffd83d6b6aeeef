/** The list of flying transfers, sorted by timeout, and the timer that follows it (io.c:
calculate_timeout, add_to_flying_list, libusb_submit_transfer, arm_timerfd_for_next_timeout,
handle_timeouts_locked, handle_timerfd_trigger, libusb_get_next_timeout).

Each API call is atomic and setting the timer succeeds; the clock and the backend's answer to a submission
are parameters. The list is a sequence here; AddLinked and DeleteLinked do the same on the linked list.
*/
module FlyingList {
  import opened IntrusiveList

  // ---------------------------------------------------------------- time

  datatype Option<T> = None | Some(value: T)

  datatype TimeVal = TimeVal(sec: nat, usec: nat)
  datatype TimeSpec = TimeSpec(sec: nat, nsec: nat)

  const NONE := TimeVal(0, 0)
  const ERROR_OTHER: int := -99
  const MILLION: nat := 1_000_000
  const BILLION: nat := 1_000_000_000

  predicate IsSet(t: TimeVal) {
    t.sec != 0 || t.usec != 0
  }

  /** The comparison that the list, the scan and the timers use. */
  predicate Later(a: TimeVal, b: TimeVal) {
    a.sec > b.sec || (a.sec == b.sec && a.usec > b.usec)
  }

  function Micros(t: TimeVal): nat {
    t.sec * MILLION + t.usec
  }

  predicate IsClock(now: TimeSpec) {
    now.nsec < BILLION
  }

  function ToTimeVal(t: TimeSpec): TimeVal {
    TimeVal(t.sec, t.nsec / 1000)
  }

  /** calculate_timeout: a transfer with no timeout keeps what its field held before. None if the clock
      cannot be read. */
  method CalculateTimeout(before: TimeVal, ms: nat, clock: Option<TimeSpec>) returns (t: Option<TimeVal>)
    ensures t == if ms == 0 then Some(before) else if clock.None? then None else Some(Deadline(before, ms, clock.value))
  {
    if ms == 0 {
      return Some(before);
    }
    if clock.None? {
      return None;
    }
    var sec, nsec := clock.value.sec + ms / 1000, clock.value.nsec + (ms % 1000) * 1000000;
    if nsec > BILLION {
      nsec := nsec - BILLION;
      sec := sec + 1;
    }
    return Some(ToTimeVal(TimeSpec(sec, nsec)));
  }

  function Deadline(before: TimeVal, ms: nat, now: TimeSpec): TimeVal {
    if ms == 0 then before
    else
      var sec, nsec := now.sec + ms / 1000, now.nsec + (ms % 1000) * 1000000;
      if nsec > BILLION then ToTimeVal(TimeSpec(sec + 1, nsec - BILLION)) else ToTimeVal(TimeSpec(sec, nsec))
  }

  /** A deadline is the time of the clock plus the timeout, to the microsecond, and never looks unset. It
      is in lowest terms but for one instant: then it has a full million microseconds. */
  lemma DeadlineIsLater(before: TimeVal, ms: nat, now: TimeSpec)
    requires ms > 0 && IsClock(now)
    ensures var t := Deadline(before, ms, now);
      && (Settable(t) <==> now.nsec + (ms % 1000) * 1000000 != BILLION)
      && Micros(t) == (now.sec * BILLION + now.nsec + ms * 1000000) / 1000
      && IsSet(t) && t.usec <= MILLION
      && (t.usec == MILLION <==> now.nsec + (ms % 1000) * 1000000 == BILLION)
  {
    var s, m := ms / 1000, ms % 1000;
    assert now.sec * BILLION + now.nsec + ms * 1000000 == (now.sec + s) * BILLION + (now.nsec + m * 1000000);
  }

  /** What a submission asks for, and the time of the clock. */
  datatype Request = Request(ms: nat, now: TimeSpec)

  /** The deadline of a new transfer that has been submitted and resubmitted with these requests. */
  function DeadlineAfter(requests: seq<Request>): TimeVal {
    if requests == [] then NONE
    else
      var last := requests[|requests| - 1];
      Deadline(DeadlineAfter(requests[..|requests| - 1]), last.ms, last.now)
  }

  /** The clock plus the timeout, or unset if there is none. */
  predicate IsAsked(r: Request, t: TimeVal) {
    if r.ms == 0 then !IsSet(t)
    else IsSet(t) && Micros(t) == (r.now.sec * BILLION + r.now.nsec + r.ms * 1000000) / 1000
  }

  lemma {:induction false} UnsetIff(requests: seq<Request>)
    requires forall k | 0 <= k < |requests| :: IsClock(requests[k].now)
    ensures !IsSet(DeadlineAfter(requests)) <==> forall k | 0 <= k < |requests| :: requests[k].ms == 0
  {
    if requests != [] {
      var before, last := requests[..|requests| - 1], requests[|requests| - 1];
      UnsetIff(before);
      if last.ms > 0 { DeadlineIsLater(DeadlineAfter(before), last.ms, last.now); }
    }
  }

  /** A transfer has the deadline that its latest submission asks for exactly if that has a timeout, or no
      submission ever had one: resubmitted without timeout, it keeps an old deadline. */
  lemma DeadlineAsAskedIff(requests: seq<Request>)
    requires requests != [] && forall k | 0 <= k < |requests| :: IsClock(requests[k].now)
    ensures IsAsked(requests[|requests| - 1], DeadlineAfter(requests))
      <==> requests[|requests| - 1].ms > 0 || forall k | 0 <= k < |requests| :: requests[k].ms == 0
  {
    var last := requests[|requests| - 1];
    UnsetIff(requests);
    if last.ms > 0 { DeadlineIsLater(DeadlineAfter(requests[..|requests| - 1]), last.ms, last.now); }
  }

  /** A transfer that is submitted with a second's timeout, and then without one, expires after six. */
  lemma StaleDeadline() returns (requests: seq<Request>)
    ensures |requests| == 2 && requests[1].ms == 0 && DeadlineAfter(requests) == TimeVal(6, 0)
    ensures !IsAsked(requests[1], DeadlineAfter(requests))
  {
    requests := [Request(1000, TimeSpec(5, 0)), Request(0, TimeSpec(9, 0))];
    assert requests[..1][..0] == [];
    assert DeadlineAfter(requests[..1]) == TimeVal(6, 0);
  }

  /** Deadlines out of lowest terms do not confuse the comparison. */
  lemma LaterRespectsTime(a: TimeVal, b: TimeVal)
    requires a.usec <= MILLION && b.usec <= MILLION
    ensures Micros(a) > Micros(b) ==> Later(a, b)
    ensures Later(a, b) ==> Micros(a) >= Micros(b)
    ensures b.usec < MILLION ==> (Later(a, b) <==> Micros(a) > Micros(b))
  {
  }

  // ---------------------------------------------------------------- the sorted list

  datatype Transfer = Transfer(id: nat, handle: nat, timeout: TimeVal, timedOut: bool)

  /** `a` may stand before `b`; transfers without timeout come last. */
  predicate Before(a: TimeVal, b: TimeVal) {
    !IsSet(b) || (IsSet(a) && !Later(a, b))
  }

  predicate Sorted(list: seq<Transfer>) {
    forall i, j | 0 <= i < j < |list| :: Before(list[i].timeout, list[j].timeout)
  }

  /** Where a transfer with timeout `t` goes: behind all that expire no later. */
  function Position(list: seq<Transfer>, t: TimeVal): (p: nat)
    ensures p <= |list|
    ensures forall i | 0 <= i < p :: Before(list[i].timeout, t)
    ensures p < |list| ==> !Before(list[p].timeout, t)
  {
    if list == [] || !Before(list[0].timeout, t) then 0 else 1 + Position(list[1..], t)
  }

  function AddSorted(list: seq<Transfer>, x: Transfer): (list': seq<Transfer>) {
    Insert(list, Position(list, x.timeout), x)
  }

  lemma AddSortedCons(y: Transfer, list: seq<Transfer>, x: Transfer)
    ensures AddSorted([y] + list, x)
      == if Before(y.timeout, x.timeout) then [y] + AddSorted(list, x) else [x] + ([y] + list)
  {
    assert ([y] + list)[1..] == list;
  }

  lemma AddKeepsSorted(list: seq<Transfer>, x: Transfer)
    requires Sorted(list)
    ensures Sorted(AddSorted(list, x))
  {
    var p := Position(list, x.timeout);
    var list' := AddSorted(list, x);
    forall i, j | 0 <= i < j < |list'|
      ensures Before(list'[i].timeout, list'[j].timeout)
    {
      if i == p {
        assert list'[j] == list[j - 1];
        if j > p + 1 { assert Before(list[p].timeout, list[j - 1].timeout); }
      }
    }
  }

  lemma RemoveKeepsSorted(list: seq<Transfer>, i: nat)
    requires Sorted(list) && i < |list|
    ensures Sorted(Remove(list, i))
  {
    var list' := Remove(list, i);
    assert forall k | 0 <= k < |list'| :: list'[k] == list[if k < i then k else k + 1];
  }

  /** The transfer is not in flight. */
  predicate Fresh(list: seq<Transfer>, x: Transfer) {
    forall i | 0 <= i < |list| :: list[i].id != x.id
  }

  /** No transfer is in the list twice. */
  predicate Unique(list: seq<Transfer>) {
    forall i, j | 0 <= i < j < |list| :: list[i].id != list[j].id
  }

  lemma InsertKeepsUnique(list: seq<Transfer>, p: nat, x: Transfer)
    requires Unique(list) && Fresh(list, x) && p <= |list|
    ensures Unique(Insert(list, p, x))
  {
    var list' := Insert(list, p, x);
    assert forall k | 0 <= k < |list'| :: list'[k] == if k < p then list[k] else if k == p then x else list[k - 1];
  }

  lemma RemoveKeepsUnique(list: seq<Transfer>, i: nat)
    requires Unique(list) && i < |list|
    ensures Unique(Remove(list, i)) && Fresh(Remove(list, i), list[i])
  {
    var list' := Remove(list, i);
    assert forall k | 0 <= k < |list'| :: list'[k] == list[if k < i then k else k + 1];
  }

  /** A submission that fails leaves the list as it was. */
  lemma AddThenRemove(list: seq<Transfer>, x: Transfer)
    ensures Remove(AddSorted(list, x), Position(list, x.timeout)) == list
  {
    var p := Position(list, x.timeout);
    assert list[..p] + list[p..] == list;
    assert AddSorted(list, x)[..p] == list[..p] && AddSorted(list, x)[p + 1..] == list[p..];
  }

  // ---------------------------------------------------------------- expiry

  predicate Expired(x: Transfer, now: TimeVal) {
    IsSet(x.timeout) && !Later(x.timeout, now)
  }

  function Flag(x: Transfer, now: TimeVal): Transfer {
    if Expired(x, now) then x.(timedOut := true) else x
  }

  /** Every expired transfer of the list is flagged. */
  function Scan(list: seq<Transfer>, now: TimeVal): (list': seq<Transfer>)
    ensures |list'| == |list| && forall i | 0 <= i < |list| :: list'[i] == Flag(list[i], now)
  {
    seq(|list|, i requires 0 <= i < |list| => Flag(list[i], now))
  }

  /** The transfers that a scan flags for the first time, in order. */
  function NewlyExpired(list: seq<Transfer>, now: TimeVal): seq<Transfer> {
    if list == [] then []
    else (if Expired(list[0], now) && !list[0].timedOut then [list[0]] else []) + NewlyExpired(list[1..], now)
  }

  lemma {:induction false} NoneExpired(list: seq<Transfer>, now: TimeVal)
    requires forall i | 0 <= i < |list| :: !Expired(list[i], now)
    ensures NewlyExpired(list, now) == [] && Scan(list, now) == list
  {
    if list != [] { NoneExpired(list[1..], now); }
  }

  lemma ScanKeepsSorted(list: seq<Transfer>, now: TimeVal)
    requires Sorted(list)
    ensures Sorted(Scan(list, now))
  {
  }

  // ---------------------------------------------------------------- the timer

  predicate Live(x: Transfer) {
    IsSet(x.timeout) && !x.timedOut
  }

  /** The timeout of the first transfer that has one and is not flagged. */
  function NextTimer(list: seq<Transfer>): (t: Option<TimeVal>)
    ensures t.Some? <==> exists i :: 0 <= i < |list| && Live(list[i])
    ensures t.Some? ==> exists i :: 0 <= i < |list| && Live(list[i]) && list[i].timeout == t.value
  {
    if list == [] then None
    else if Live(list[0]) then
      assert Live(list[0]) && 0 < |list|;
      Some(list[0].timeout)
    else
      var t := NextTimer(list[1..]);
      assert forall i | 0 <= i < |list[1..]| :: list[1..][i] == list[i + 1];
      assert t.Some? ==> exists i :: 0 <= i < |list[1..]| && Live(list[1..][i]) && list[1..][i].timeout == t.value;
      assert t.Some? ==> exists i :: 1 <= i < |list| && Live(list[i]) && list[i].timeout == t.value;
      t
  }

  /** In a sorted list it is the smallest. */
  lemma {:induction false} NextTimerIsSmallest(list: seq<Transfer>, i: nat)
    requires Sorted(list) && i < |list| && Live(list[i])
    ensures NextTimer(list).Some? && !Later(NextTimer(list).value, list[i].timeout)
  {
    if !Live(list[0]) { NextTimerIsSmallest(list[1..], i - 1); }
  }

  predicate NoneFlagged(list: seq<Transfer>) {
    forall i | 0 <= i < |list| :: !list[i].timedOut
  }

  /** timerfd_settime refuses a full million microseconds. */
  predicate Settable(t: TimeVal) {
    t.usec < MILLION
  }

  predicate AllSettable(list: seq<Transfer>) {
    forall i | 0 <= i < |list| :: Settable(list[i].timeout)
  }

  /** The timer once timerfd_settime has been called, which may fail. */
  function Arm(timer: Option<TimeVal>, t: TimeVal): Option<TimeVal> {
    if Settable(t) then Some(t) else timer
  }

  /** Whether setting the timer to the next timeout goes well. */
  predicate CanArm(list: seq<Transfer>) {
    NextTimer(list).Some? ==> Settable(NextTimer(list).value)
  }

  lemma SettableCanArm(list: seq<Transfer>)
    ensures AllSettable(list) ==> CanArm(list)
  {
  }

  /** The list, and what the timer is set to. */
  datatype State = State(flying: seq<Transfer>, timer: Option<TimeVal>)

  ghost predicate Valid(s: State) {
    && Sorted(s.flying) && Unique(s.flying)
    && (s.timer.Some? ==> Settable(s.timer.value))
    && (NoneFlagged(s.flying) && AllSettable(s.flying) ==> s.timer == NextTimer(s.flying))
  }

  /** libusb_submit_transfer, of a transfer that is not in flight. */
  function Submit(s: State, x: Transfer, accepted: bool): State {
    if !accepted then s
    else if First(s.flying, x) then State(AddSorted(s.flying, x), Arm(s.timer, x.timeout))
    else s.(flying := AddSorted(s.flying, x))
  }

  /** The transfer has a timeout and would be the next to expire. */
  predicate First(list: seq<Transfer>, x: Transfer) {
    IsSet(x.timeout) && Position(list, x.timeout) == 0
  }

  /** usbi_handle_transfer_completion of the transfer at position `i`. */
  function Complete(s: State, i: nat): State
    requires i < |s.flying|
  {
    var list := Remove(s.flying, i);
    State(list, ArmNext(list, None, s.timer))
  }

  /** The timer if there is nothing to arm, and if arming fails. */
  function ArmNext(list: seq<Transfer>, disarmed: Option<TimeVal>, timer: Option<TimeVal>): Option<TimeVal> {
    match NextTimer(list)
    case None => disarmed
    case Some(t) => Arm(timer, t)
  }

  function HandleTimeouts(s: State, now: TimeVal): State {
    s.(flying := Scan(s.flying, now))
  }

  function Trigger(s: State, now: TimeVal): State {
    var list := Scan(s.flying, now);
    State(list, ArmNext(list, None, None))
  }

  /** If the timer was right, it is right after a submission as well, unless the new transfer is the next
      to expire, and cannot be armed or stands behind transfers that are all flagged: only the head of the
      list is armed. */
  lemma TimerAfterSubmitIff(s: State, x: Transfer)
    requires Sorted(s.flying) && s.timer == NextTimer(s.flying) && !x.timedOut
    ensures var s' := Submit(s, x, true); var p := Position(s.flying, x.timeout);
      s'.timer == NextTimer(s'.flying)
      <==> (IsSet(x.timeout) ==> if p == 0 then Settable(x.timeout) else exists i :: 0 <= i < p && Live(s.flying[i]))
  {
    var list, p := s.flying, Position(s.flying, x.timeout);
    TimerAfterAdd(list, x);
    if IsSet(x.timeout) && NextTimer(list) == Some(x.timeout) { NotBehind(list, x.timeout); }
  }

  /** A run to such a state: a transfer times out, and before it completes another one is submitted. */
  lemma TimerForgotten() returns (run: seq<State>, calls: seq<Call>)
    ensures IsRun(run, calls) && |calls| == 3 && calls[2].Submission?
    ensures run[2].timer == NextTimer(run[2].flying) && run[3].timer == None
    ensures NextTimer(run[3].flying) == Some(TimeVal(9, 0))
  {
    var a, b := Transfer(0, 0, TimeVal(1, 0), false), Transfer(1, 0, TimeVal(9, 0), false);
    var a' := a.(timedOut := true);
    calls := [Submission(a, true), TimerFired(TimeVal(2, 0)), Submission(b, true)];
    run := [State([], None), State([a], Some(TimeVal(1, 0))), State([a'], None), State([a', b], None)];
    assert AddSorted([], a) == [a];
    assert Scan([a], TimeVal(2, 0)) == [a'] && [a'][1..] == [];
    assert AddSorted([a'], b) == [a', b] && [a', b][1..] == [b];
  }

  /** Half a second from one and a half: the deadline is out of lowest terms, and the timer cannot be set
      to it. Submission adds the transfer and fails, and the completion of `y` does not call back. */
  lemma TimerRefused(y: Transfer, ms: nat, now: TimeSpec) returns (x: Transfer)
    requires ms == 500 && now == TimeSpec(1, 500_000_000) && y.timeout == TimeVal(1, 0)
    ensures x.timeout == Deadline(NONE, ms, now) && !Settable(x.timeout)
    ensures First([], x) && Submit(State([], None), x, true) == State([x], None)
    ensures Sorted([y, x]) && Complete(State([y, x], Some(y.timeout)), 0) == State([x], Some(y.timeout)) && !CanArm([x])
  {
    x := Transfer(y.id + 1, y.handle, Deadline(NONE, ms, now), false);
    assert AddSorted([], x) == [x] && Remove([y, x], 0) == [x];
  }

  /** What to arm next once a transfer has been added. */
  lemma {:induction false} TimerAfterAdd(list: seq<Transfer>, x: Transfer)
    ensures var p := Position(list, x.timeout);
      NextTimer(AddSorted(list, x))
      == if (exists i :: 0 <= i < p && Live(list[i])) || !Live(x) then NextTimer(list) else Some(x.timeout)
  {
    if list == [] {
      assert AddSorted(list, x) == [x] && [x][1..] == [];
    } else {
      var y, rest := list[0], list[1..];
      assert list == [y] + rest;
      AddSortedCons(y, rest, x);
      if Before(y.timeout, x.timeout) {
        TimerAfterAdd(rest, x);
        assert ([y] + AddSorted(rest, x))[1..] == AddSorted(rest, x);
        LiveShift(list, Position(list, x.timeout));
      } else {
        assert ([x] + list)[1..] == list;
      }
    }
  }

  lemma LiveShift(list: seq<Transfer>, p: nat)
    requires 0 < p <= |list|
    ensures (exists i :: 0 <= i < p && Live(list[i]))
       <==> Live(list[0]) || exists i :: 0 <= i < p - 1 && Live(list[1..][i])
  {
    if i :| 0 < i < p && Live(list[i]) { assert Live(list[1..][i - 1]); }
    if i :| 0 <= i < p - 1 && Live(list[1..][i]) { assert Live(list[i + 1]); }
  }

  /** If what was armed before expires at the same time, it stands before. */
  lemma NotBehind(list: seq<Transfer>, t: TimeVal)
    requires Sorted(list) && IsSet(t) && NextTimer(list) == Some(t)
    ensures exists i :: 0 <= i < Position(list, t) && Live(list[i])
  {
    var i :| 0 <= i < |list| && Live(list[i]) && list[i].timeout == t;
    if i >= Position(list, t) { BehindPosition(list, t, i); }
  }

  lemma BehindPosition(list: seq<Transfer>, t: TimeVal, i: nat)
    requires Sorted(list) && Position(list, t) <= i < |list|
    ensures !Before(list[i].timeout, t)
  {
    var p := Position(list, t);
    if i > p { assert Before(list[p].timeout, list[i].timeout); }
  }

  /** Every call keeps the list sorted and, as long as no transfer in flight is flagged, the timer set
      to the smallest timeout in flight. */
  lemma SubmitValid(s: State, x: Transfer, accepted: bool)
    requires Valid(s) && !x.timedOut && Fresh(s.flying, x)
    ensures Valid(Submit(s, x, accepted))
  {
    if accepted {
      var list, p := s.flying, Position(s.flying, x.timeout);
      AddKeepsSorted(list, x);
      InsertKeepsUnique(list, p, x);
      if NoneFlagged(AddSorted(list, x)) && AllSettable(AddSorted(list, x)) {
        AddSortedMembers(list, x);
        if IsSet(x.timeout) && p > 0 { assert Live(list[0]); }
        TimerAfterSubmitIff(s, x);
      }
    }
  }

  lemma AddSortedMembers(list: seq<Transfer>, x: Transfer)
    requires NoneFlagged(AddSorted(list, x)) && AllSettable(AddSorted(list, x))
    ensures NoneFlagged(list) && AllSettable(list) && Settable(x.timeout)
  {
    var p, list' := Position(list, x.timeout), AddSorted(list, x);
    assert list'[p] == x;
    forall i | 0 <= i < |list| ensures !list[i].timedOut && Settable(list[i].timeout) {
      assert list[i] == list'[if i < p then i else i + 1];
    }
  }

  lemma CompleteValid(s: State, i: nat)
    requires Valid(s) && i < |s.flying|
    ensures var s' := Complete(s, i); Valid(s') && (s'.timer == NextTimer(s'.flying) <==> CanArm(s'.flying))
  {
    RemoveKeepsSorted(s.flying, i);
    RemoveKeepsUnique(s.flying, i);
    SettableCanArm(Remove(s.flying, i));
  }

  lemma ScanUnflagged(list: seq<Transfer>, now: TimeVal)
    ensures NoneFlagged(Scan(list, now)) ==> Scan(list, now) == list
  {
    if NoneFlagged(Scan(list, now)) {
      forall i | 0 <= i < |list| ensures Scan(list, now)[i] == list[i] {
      }
    }
  }

  lemma ExpiryValid(s: State, now: TimeVal)
    requires Valid(s)
    ensures Valid(HandleTimeouts(s, now)) && Valid(Trigger(s, now))
    ensures var s' := Trigger(s, now); s'.timer == NextTimer(s'.flying) <==> CanArm(s'.flying)
  {
    ScanKeepsSorted(s.flying, now);
    ScanUnflagged(s.flying, now);
    SettableCanArm(Scan(s.flying, now));
  }

  datatype Call = Submission(x: Transfer, accepted: bool) | Completion(i: nat) | Expiry(now: TimeVal)
    | TimerFired(now: TimeVal)

  predicate Possible(s: State, c: Call) {
    match c
    case Submission(x, _) => !x.timedOut && Fresh(s.flying, x)
    case Completion(i) => i < |s.flying|
    case Expiry(_) => true
    case TimerFired(_) => true
  }

  function Next(s: State, c: Call): State
    requires Possible(s, c)
  {
    match c
    case Submission(x, accepted) => Submit(s, x, accepted)
    case Completion(i) => Complete(s, i)
    case Expiry(now) => HandleTimeouts(s, now)
    case TimerFired(now) => Trigger(s, now)
  }

  ghost predicate IsRun(run: seq<State>, calls: seq<Call>) {
    && |run| == |calls| + 1 && run[0] == State([], None)
    && forall i | 0 <= i < |calls| :: Possible(run[i], calls[i]) && run[i + 1] == Next(run[i], calls[i])
  }

  /** In every run that submits no transfer that is in flight: while no transfer in flight is flagged, and
      none has a deadline that cannot be set, the timer is set to the smallest timeout in flight, or not at
      all if there is none; and after each completion and each time the timer fired, it is set to the
      smallest timeout that is not flagged, exactly if it can be. No transfer is ever in the list twice. */
  lemma {:induction false} TimerAgrees(run: seq<State>, calls: seq<Call>, k: nat)
    requires IsRun(run, calls) && k <= |calls|
    ensures Valid(run[k])
    ensures k > 0 && (calls[k - 1].Completion? || calls[k - 1].TimerFired?) ==>
      (run[k].timer == NextTimer(run[k].flying) <==> CanArm(run[k].flying))
  {
    if k > 0 {
      TimerAgrees(run, calls, k - 1);
      match calls[k - 1] {
        case Submission(x, accepted) => SubmitValid(run[k - 1], x, accepted);
        case Completion(i) => CompleteValid(run[k - 1], i);
        case Expiry(now) => ExpiryValid(run[k - 1], now);
        case TimerFired(now) => ExpiryValid(run[k - 1], now);
      }
    }
  }

  // ---------------------------------------------------------------- the linked list

  /** The nodes behind the head are those of the transfers of `list`. */
  ghost predicate Carries(ring: seq<Node>, data: map<Node, Transfer>, list: seq<Transfer>) {
    && |ring| == |list| + 1
    && forall k | 1 <= k < |ring| :: ring[k] in data && data[ring[k]] == list[k - 1]
  }

  lemma CarriesInsert(ring: seq<Node>, list: seq<Transfer>, p: nat, entry: Node, data: map<Node, Transfer>)
    requires Carries(ring, data, list) && p < |ring| && entry in data
    ensures Carries(Insert(ring, p + 1, entry), data, Insert(list, p, data[entry]))
  {
  }

  /** add_to_flying_list on the linked list with head `ring[0]`: it does there what AddSorted does, unless
      the entry is in the list already. */
  method AddLinked(entry: Node, head: Node, data: map<Node, Transfer>, ghost ring: seq<Node>, ghost list: seq<Transfer>)
    returns (first: bool)
    requires IsRing(ring) && head == ring[0] && entry != head && Carries(ring, data, list) && entry in data
    modifies entry, ring
    ensures entry !in ring ==>
      var x := data[entry]; var ring' := Insert(ring, Position(list, x.timeout) + 1, entry);
      && IsRing(ring') && ring'[0] == head && Carries(ring', data, AddSorted(list, x))
    ensures entry in ring ==> Lost(ring, old(entry.next))
    ensures first == (IsSet(data[entry].timeout) && Position(list, data[entry].timeout) == 0)
  {
    var t := data[entry].timeout;
    ghost var p := Position(list, t);
    CarriesInsert(ring, list, p, entry, data);
    var empty := IsEmpty(head, ring);
    if empty {
      assert p == 0;
      Add(entry, head, ring, 0);
      return IsSet(t);
    }
    if !IsSet(t) {
      assert p + 1 == |ring|;
      AddTail(entry, head, ring, 0);
      return false;
    }
    ghost var i: nat;
    var cur: Node;
    cur, first, i := FindPlace(t, head, data, ring, list);
    assert p + 1 == if i == 0 then |ring| else i;
    AddTail(entry, cur, ring, i);
  }

  /** The first transfer that expires later, or the head. */
  method FindPlace(t: TimeVal, head: Node, data: map<Node, Transfer>, ghost ring: seq<Node>, ghost list: seq<Transfer>)
    returns (cur: Node, first: bool, ghost i: nat)
    requires IsRing(ring) && head == ring[0] && Carries(ring, data, list) && IsSet(t)
    ensures i < |ring| && cur == ring[i]
    ensures Position(list, t) == if i == 0 then |list| else i - 1
    ensures list != [] ==> first == (Position(list, t) == 0)
  {
    first := true;
    cur := head.next;
    ghost var k := 1;
    while cur != head
      invariant 1 <= k <= |ring| && cur == (if k < |ring| then ring[k] else head)
      invariant Position(list, t) >= k - 1 && first == (k == 1)
      decreases |ring| - k
    {
      assert data[cur] == list[k - 1];
      var u := data[cur].timeout;
      if !IsSet(u) || u.sec > t.sec || (u.sec == t.sec && u.usec > t.usec) {
        assert !Before(u, t);
        return cur, first, k;
      }
      assert Before(u, t);
      first := false;
      cur := cur.next;
      k := k + 1;
    }
    i := 0;
  }

  /** list_del of the transfer at position `i`. */
  method DeleteLinked(entry: Node, data: map<Node, Transfer>, ghost ring: seq<Node>, ghost list: seq<Transfer>,
                      ghost i: nat)
    requires IsRing(ring) && Carries(ring, data, list) && i < |list| && ring[i + 1] == entry
    modifies ring
    ensures IsRing(Remove(ring, i + 1)) && Carries(Remove(ring, i + 1), data, Remove(list, i))
  {
    Delete(entry, ring, i + 1, true, entry);
  }

  /** libusb_submit_transfer on the linked list, of a transfer that is to be `x`; `answer` is the backend's,
      0 if it accepts. The list is as the sequence if and only if the transfer was not in it; if it was, then
      whether accepted or not, the node behind it is lost. */
  method SubmitLinked(entry: Node, x: Transfer, answer: int, head: Node, data: map<Node, Transfer>,
                      ghost ring: seq<Node>, ghost list: seq<Transfer>)
    returns (data': map<Node, Transfer>)
    requires IsRing(ring) && head == ring[0] && entry != head && Carries(ring, data, list)
    modifies entry, ring
    ensures data' == data[entry := x]
    ensures entry !in ring ==>
      var ring' := if answer == 0 then Insert(ring, Position(list, x.timeout) + 1, entry) else ring;
      IsRing(ring') && ring'[0] == head && Carries(ring', data', if answer == 0 then AddSorted(list, x) else list)
    ensures entry in ring ==> Lost(ring, old(entry.next)) && !IsRing(ring)
  {
    data' := data[entry := x];
    ghost var now, at := Renewed(ring, data, list, entry, x);
    ghost var lost := entry.next;
    var first := AddLinked(entry, head, data', ring, now);
    if answer != 0 {
      TakeBack(entry, ring, at, lost);
    }
    if entry in ring { LostIsNoRing(ring, lost, ring); }
  }

  /** The transfers once `entry` carries `x`, and where it is or goes. */
  lemma Renewed(ring: seq<Node>, data: map<Node, Transfer>, list: seq<Transfer>, entry: Node, x: Transfer)
    returns (now: seq<Transfer>, at: nat)
    requires IsRing(ring) && entry != ring[0] && Carries(ring, data, list)
    ensures Carries(ring, data[entry := x], now) && 1 <= at <= |ring|
    ensures if entry in ring then at < |ring| && ring[at] == entry && entry.next in ring
            else now == list && at == Position(list, x.timeout) + 1
  {
    if entry in ring {
      at :| 0 <= at < |ring| && ring[at] == entry;
      Neighbours(ring, at);
      now := list[at - 1 := x];
    } else {
      now, at := list, Position(list, x.timeout) + 1;
    }
  }

  // ---------------------------------------------------------------- the context object

  /** The part of a libusb_context that the list and the timer are. */
  class Context {
    var flying: seq<Transfer>
    var timer: Option<TimeVal>

    constructor ()
      ensures S() == State([], None) && Valid(S())
    {
      flying, timer := [], None;
    }

    ghost function S(): State
      reads this
    {
      State(flying, timer)
    }

    /** add_to_flying_list: true if the transfer has a timeout and is now the next to expire. `at` is
        where its node is. */
    method AddToFlyingList(x: Transfer) returns (first: bool, at: nat)
      modifies this`flying
      ensures at == Position(old(flying), x.timeout) && flying == AddSorted(old(flying), x)
      ensures first == (IsSet(x.timeout) && at == 0)
    {
      if flying == [] {
        flying := [x];
        return IsSet(x.timeout), 0;
      }
      if !IsSet(x.timeout) {
        at := |flying|;
        flying := Insert(flying, |flying|, x);
        return false, at;
      }
      first := true;
      for i := 0 to |flying|
        invariant flying == old(flying) && first == (i == 0)
        invariant Position(flying, x.timeout) >= i
      {
        var cur := flying[i].timeout;
        if !IsSet(cur) || cur.sec > x.timeout.sec || (cur.sec == x.timeout.sec && cur.usec > x.timeout.usec) {
          assert !Before(cur, x.timeout);
          flying := Insert(flying, i, x);
          return first, i;
        }
        assert Before(cur, x.timeout);
        first := false;
      }
      at := |flying|;
      flying := Insert(flying, |flying|, x);
    }

    /** libusb_submit_transfer, of a transfer that is not in flight (SubmitLinked says what happens to one
        that is). `answer` is the backend's, 0 if it accepts the transfer. If then the timer cannot be set,
        the transfer is in flight in spite of the error. */
    method SubmitTransfer(x: Transfer, ms: nat, clock: Option<TimeSpec>, answer: int) returns (r: int)
      requires Fresh(flying, x)
      modifies this
      ensures ms > 0 && clock.None? ==> r == ERROR_OTHER && S() == old(S())
      ensures ms == 0 || clock.Some? ==>
        var y := x.(timeout := if ms == 0 then x.timeout else Deadline(x.timeout, ms, clock.value), timedOut := false);
        && S() == Submit(old(S()), y, answer == 0)
        && r == if answer == 0 && First(old(flying), y) && !Settable(y.timeout) then ERROR_OTHER else answer
    {
      var timeout := CalculateTimeout(x.timeout, ms, clock);
      if timeout.None? {
        return ERROR_OTHER;
      }
      var y := x.(timeout := timeout.value, timedOut := false);
      var first, at := AddToFlyingList(y);
      r := answer;
      if r != 0 {
        AddThenRemove(old(flying), y);
        flying := Remove(flying, at);
      } else if first {
        r := SetTimer(y.timeout);
      }
    }

    /** timerfd_settime */
    method SetTimer(t: TimeVal) returns (r: int)
      modifies this`timer
      ensures timer == Arm(old(timer), t) && r == if Settable(t) then 0 else ERROR_OTHER
    {
      if t.usec * 1000 > 999_999_999 {
        return ERROR_OTHER;
      }
      timer := Some(t);
      return 0;
    }

    /** arm_timerfd_for_next_timeout: 0 if there was nothing to arm, 1 if a timeout was armed. */
    method ArmForNextTimeout() returns (r: int)
      requires Sorted(flying)
      modifies this`timer
      ensures timer == ArmNext(flying, old(timer), old(timer))
      ensures r == if NextTimer(flying).None? then 0 else if CanArm(flying) then 1 else ERROR_OTHER
    {
      assert flying[0..] == flying;
      for i := 0 to |flying|
        invariant NextTimer(flying) == NextTimer(flying[i..]) && timer == old(timer)
      {
        assert flying[i..][1..] == flying[i + 1..];
        if !IsSet(flying[i].timeout) {
          NoTimerBehind(flying, i);
          return 0;
        }
        if !flying[i].timedOut {
          r := SetTimer(flying[i].timeout);
          if r < 0 {
            return ERROR_OTHER;
          }
          return 1;
        }
      }
      return 0;
    }

    /** usbi_handle_transfer_completion for the transfer at position `i`, up to the callback: there is none
        if the timer cannot be set. */
    method CompleteTransfer(i: nat) returns (callsBack: bool)
      requires Sorted(flying) && i < |flying|
      modifies this
      ensures S() == Complete(old(S()), i) && callsBack == CanArm(flying)
    {
      RemoveKeepsSorted(flying, i);
      flying := Remove(flying, i);
      var r := ArmForNextTimeout();
      if r < 0 {
        return false;
      } else if r == 0 {
        timer := None;
      }
      return true;
    }

    /** handle_timeouts_locked: leaves the list early, yet flags and cancels all that have expired. */
    method HandleTimeoutsLocked(now: TimeSpec) returns (cancelled: seq<Transfer>)
      requires Sorted(flying)
      modifies this`flying
      ensures S() == HandleTimeouts(old(S()), ToTimeVal(now))
      ensures cancelled == NewlyExpired(old(flying), ToTimeVal(now))
    {
      ghost var list := flying;
      cancelled := [];
      assert list[0..] == list;
      var systime := ToTimeVal(now);
      for i := 0 to |flying|
        invariant |flying| == |list| && flying[i..] == list[i..]
        invariant forall k | 0 <= k < i :: flying[k] == Flag(list[k], systime)
        invariant cancelled + NewlyExpired(list[i..], systime) == NewlyExpired(list, systime)
      {
        assert list[i..][1..] == list[i + 1..] && list[i..][0] == list[i] == flying[i];
        var cur := flying[i].timeout;
        if !IsSet(cur) {
          RestIsAlive(list, i, systime);
          return;
        }
        if flying[i].timedOut {
          continue;
        }
        if cur.sec > systime.sec || (cur.sec == systime.sec && cur.usec > systime.usec) {
          RestIsAlive(list, i, systime);
          return;
        }
        cancelled := cancelled + [flying[i]];
        flying := flying[i := flying[i].(timedOut := true)];
      }
      assert flying == Scan(list, systime);
    }

    /** handle_timerfd_trigger. */
    method HandleTimerfdTrigger(now: TimeSpec) returns (cancelled: seq<Transfer>)
      requires Sorted(flying)
      modifies this
      ensures S() == Trigger(old(S()), ToTimeVal(now))
      ensures cancelled == NewlyExpired(old(flying), ToTimeVal(now))
    {
      timer := None;
      cancelled := HandleTimeoutsLocked(now);
      ScanKeepsSorted(old(flying), ToTimeVal(now));
      var r := ArmForNextTimeout();
    }

    /** libusb_get_next_timeout, with no timerfd: the time left until the next timeout that has not been
        dealt with, never negative. */
    method GetNextTimeout(now: TimeSpec) returns (left: Option<TimeVal>)
      requires Sorted(flying) && IsClock(now) && forall i | 0 <= i < |flying| :: flying[i].timeout.usec <= MILLION
      ensures left.Some? <==> exists i :: 0 <= i < |flying| && Live(flying[i])
      ensures left.Some? ==>
        && (forall i | 0 <= i < |flying| && Live(flying[i]) :: Micros(left.value) <= Remaining(flying[i], now))
        && (exists i :: 0 <= i < |flying| && Live(flying[i]) && Micros(left.value) == Remaining(flying[i], now))
    {
      var i := 0;
      while i < |flying| && flying[i].timedOut
        invariant i <= |flying| && forall k | 0 <= k < i :: flying[k].timedOut
      {
        i := i + 1;
      }
      if i == |flying| {
        return None;
      }
      var next := flying[i].timeout;
      if !IsSet(next) {
        assert forall k | i <= k < |flying| :: !IsSet(flying[k].timeout) by { NoTimeoutBehind(flying, i); }
        return None;
      }
      assert Live(flying[i]);
      var cur := ToTimeVal(now);
      if Later(next, cur) {
        left := Some(Minus(next, cur));
      } else {
        left := Some(TimeVal(0, 0));
      }
      forall k | 0 <= k < |flying| && Live(flying[k])
        ensures Micros(left.value) <= Remaining(flying[k], now)
      {
        if k > i { LaterRespectsTime(flying[k].timeout, next); LaterRespectsTime(next, flying[k].timeout); }
      }
    }
  }

  function Remaining(x: Transfer, now: TimeSpec): nat {
    var t, n := Micros(x.timeout), Micros(ToTimeVal(now));
    if t <= n then 0 else t - n
  }

  /** timersub */
  function Minus(a: TimeVal, b: TimeVal): (t: TimeVal)
    requires Later(a, b) && a.usec <= MILLION && b.usec < MILLION
    ensures Micros(t) == Micros(a) - Micros(b)
  {
    if a.usec < b.usec then TimeVal(a.sec - b.sec - 1, a.usec + MILLION - b.usec)
    else TimeVal(a.sec - b.sec, a.usec - b.usec)
  }

  lemma NoTimeoutBehind(list: seq<Transfer>, i: nat)
    requires Sorted(list) && i < |list| && !IsSet(list[i].timeout)
    ensures forall k | i <= k < |list| :: !IsSet(list[k].timeout)
  {
    forall k | i < k < |list| ensures !IsSet(list[k].timeout) {
      assert Before(list[i].timeout, list[k].timeout);
    }
  }

  lemma NoTimerBehind(list: seq<Transfer>, i: nat)
    requires Sorted(list) && i < |list| && !IsSet(list[i].timeout)
    ensures NextTimer(list[i..]) == None
  {
    NoTimeoutBehind(list, i);
    assert forall k | 0 <= k < |list[i..]| :: list[i..][k] == list[i + k];
  }

  lemma RestIsAlive(list: seq<Transfer>, i: nat, now: TimeVal)
    requires Sorted(list) && i < |list| && !Expired(list[i], now)
    ensures NewlyExpired(list[i..], now) == [] && forall k | i <= k < |list| :: Flag(list[k], now) == list[k]
  {
    forall k | i <= k < |list| ensures !Expired(list[k], now) {
      if k > i { assert Before(list[i].timeout, list[k].timeout); }
    }
    assert forall k | 0 <= k < |list[i..]| :: list[i..][k] == list[i + k];
    NoneExpired(list[i..], now);
  }
}
