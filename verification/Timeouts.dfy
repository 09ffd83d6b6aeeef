/** Which transfers are cancelled because they have timed out, and when (io.c: handle_timeouts_locked,
handle_timerfd_trigger), over any run of the calls of FlyingList.
*/
module Timeouts {
  import opened IntrusiveList
  import opened FlyingList

  // ---------------------------------------------------------------- one scan

  /** How often the transfer `id` is in a list. */
  function Times(list: seq<Transfer>, id: nat): nat {
    if list == [] then 0 else (if list[0].id == id then 1 else 0) + Times(list[1..], id)
  }

  lemma {:induction false} NotThere(list: seq<Transfer>, id: nat)
    requires forall i | 0 <= i < |list| :: list[i].id != id
    ensures Times(list, id) == 0
  {
    if list != [] { NotThere(list[1..], id); }
  }

  lemma {:induction false} TimesAppend(a: seq<Transfer>, b: seq<Transfer>, id: nat)
    ensures Times(a + b, id) == Times(a, id) + Times(b, id)
  {
    if a == [] {
      assert a + b == b;
    } else {
      assert (a + b)[1..] == a[1..] + b;
      TimesAppend(a[1..], b, id);
    }
  }

  /** The deadline has come: by real time, whatever the form in which it is stored. */
  predicate Due(deadline: TimeVal, now: TimeVal) {
    IsSet(deadline) && Micros(deadline) <= Micros(now)
  }

  lemma ExpiredIffDue(x: Transfer, now: TimeVal)
    requires x.timeout.usec <= MILLION && now.usec < MILLION
    ensures Expired(x, now) <==> Due(x.timeout, now)
  {
    LaterRespectsTime(x.timeout, now);
  }

  /** A scan cancels a transfer once if it is due and not flagged, and otherwise not at all. */
  lemma {:induction false} ScanCancels(list: seq<Transfer>, now: TimeVal, i: nat)
    requires Unique(list) && i < |list| && list[i].timeout.usec <= MILLION && now.usec < MILLION
    ensures Times(NewlyExpired(list, now), list[i].id)
      == if !list[i].timedOut && Due(list[i].timeout, now) then 1 else 0
  {
    var rest := list[1..];
    var first := if Expired(list[0], now) && !list[0].timedOut then [list[0]] else [];
    TimesAppend(first, NewlyExpired(rest, now), list[i].id);
    assert [list[0]][1..] == [];
    if i == 0 {
      ExpiredIffDue(list[0], now);
      OnlyFrom(rest, now);
      NotThere(NewlyExpired(rest, now), list[0].id);
    } else {
      assert rest[i - 1] == list[i];
      ScanCancels(rest, now, i - 1);
    }
  }

  /** It cancels transfers of the list only. */
  lemma {:induction false} OnlyFrom(list: seq<Transfer>, now: TimeVal)
    ensures forall x | x in NewlyExpired(list, now) :: x in list && !x.timedOut
  {
    if list != [] { OnlyFrom(list[1..], now); }
  }

  /** It cancels them in the order of their deadlines. */
  lemma {:induction false} CancelsInOrder(list: seq<Transfer>, now: TimeVal)
    requires Sorted(list)
    ensures Sorted(NewlyExpired(list, now))
  {
    if list != [] {
      var rest := NewlyExpired(list[1..], now);
      CancelsInOrder(list[1..], now);
      OnlyFrom(list[1..], now);
      forall i | 0 <= i < |rest| ensures Before(list[0].timeout, rest[i].timeout) {
        assert rest[i] in list[1..];
        var k :| 0 <= k < |list[1..]| && list[1..][k] == rest[i];
        assert Before(list[0].timeout, list[k + 1].timeout);
      }
    }
  }

  // ---------------------------------------------------------------- runs

  /** The transfers that a call cancels because of their timeouts. */
  function CancelledBy(s: State, c: Call): seq<Transfer> {
    match c
    case Expiry(now) => NewlyExpired(s.flying, now)
    case TimerFired(now) => NewlyExpired(s.flying, now)
    case _ => []
  }

  predicate IsScan(c: Call) {
    c.Expiry? || c.TimerFired?
  }

  predicate InFlight(s: State, id: nat) {
    exists i :: 0 <= i < |s.flying| && s.flying[i].id == id
  }

  /** The transfer is in flight, with this deadline, and flagged or not. */
  predicate Flies(s: State, x: Transfer, flagged: bool) {
    exists i :: 0 <= i < |s.flying| && s.flying[i].id == x.id && s.flying[i].timeout == x.timeout
                && s.flying[i].timedOut == flagged
  }

  /** How often the transfer is cancelled by the calls from number `i` up to number `k`. */
  function Cancels(run: seq<State>, calls: seq<Call>, id: nat, i: nat, k: nat): nat
    requires i <= k <= |calls| == |run| - 1
  {
    if i == k then 0 else Cancels(run, calls, id, i, k - 1) + Times(CancelledBy(run[k - 1], calls[k - 1]), id)
  }

  /** A call from number `i` up to number `k` is a scan at or after the deadline. */
  predicate WasDue(calls: seq<Call>, deadline: TimeVal, i: nat, k: nat)
    requires i <= k <= |calls|
  {
    exists j :: i <= j < k && IsScan(calls[j]) && Due(deadline, calls[j].now)
  }

  lemma SubmitFlies(s: State, x: Transfer)
    requires !x.timedOut
    ensures Flies(Submit(s, x, true), x, false)
  {
    var p := Position(s.flying, x.timeout);
    assert Submit(s, x, true).flying[p] == x;
  }

  /** Another transfer's submission, or the completion of another transfer. */
  lemma OthersKeep(s: State, c: Call, x: Transfer, flagged: bool)
    requires Possible(s, c) && !IsScan(c) && Flies(s, x, flagged) && Unique(s.flying) && InFlight(Next(s, c), x.id)
    ensures Flies(Next(s, c), x, flagged)
  {
    var i :| 0 <= i < |s.flying| && s.flying[i].id == x.id && s.flying[i].timeout == x.timeout
             && s.flying[i].timedOut == flagged;
    if c.Completion? && c.i == i {
      RemoveKeepsUnique(s.flying, i);
    } else {
      var j := WhereNow(s, c, i);
    }
  }

  lemma WhereNow(s: State, c: Call, i: nat) returns (j: nat)
    requires Possible(s, c) && !IsScan(c) && i < |s.flying| && (c.Completion? ==> c.i != i)
    ensures j < |Next(s, c).flying| && Next(s, c).flying[j] == s.flying[i]
  {
    match c {
      case Submission(y, accepted) =>
        var p := Position(s.flying, y.timeout);
        j := if !accepted || i < p then i else i + 1;
        if accepted { assert Next(s, c).flying == AddSorted(s.flying, y); }
      case Completion(k) =>
        j := if i < k then i else i - 1;
        assert Next(s, c).flying == Remove(s.flying, k);
    }
  }

  /** A scan flags the transfer if it is due, and cancels it if it was not flagged. */
  lemma ScanKeeps(s: State, c: Call, x: Transfer, flagged: bool)
    requires IsScan(c) && Flies(s, x, flagged) && Unique(s.flying) && x.timeout.usec <= MILLION && c.now.usec < MILLION
    ensures Possible(s, c) && Flies(Next(s, c), x, flagged || Due(x.timeout, c.now))
    ensures Times(CancelledBy(s, c), x.id) == if !flagged && Due(x.timeout, c.now) then 1 else 0
  {
    var i :| 0 <= i < |s.flying| && s.flying[i].id == x.id && s.flying[i].timeout == x.timeout
             && s.flying[i].timedOut == flagged;
    ExpiredIffDue(s.flying[i], c.now);
    ScanCancels(s.flying, c.now, i);
    assert Next(s, c).flying[i] == Flag(s.flying[i], c.now);
  }

  /** Call `i` submits `x`, which is in flight until after call `k - 1`; the clocks of the scans are in lowest
      terms. */
  ghost predicate Watched(run: seq<State>, calls: seq<Call>, x: Transfer, i: nat, k: nat) {
    && IsRun(run, calls) && i < k <= |calls| && calls[i] == Submission(x, true) && x.timeout.usec <= MILLION
    && (forall j | i < j <= k :: InFlight(run[j], x.id))
    && (forall j | i < j < k && IsScan(calls[j]) :: calls[j].now.usec < MILLION)
  }

  /** What has become of the transfer before call number `k`. */
  ghost predicate Accounted(run: seq<State>, calls: seq<Call>, x: Transfer, i: nat, k: nat)
    requires i <= k <= |calls| == |run| - 1
  {
    var due := WasDue(calls, x.timeout, i, k);
    Flies(run[k], x, due) && Cancels(run, calls, x.id, i, k) == if due then 1 else 0
  }

  /** From its submission on, for as long as it is in flight: a transfer is cancelled once if a scan has come at
      or after its deadline, and never before. It is flagged if and only if that has happened. */
  lemma {:induction false} CancelledOnceDue(run: seq<State>, calls: seq<Call>, x: Transfer, i: nat, k: nat)
    requires Watched(run, calls, x, i, k)
    ensures Accounted(run, calls, x, i + 1, k)
    decreases k
  {
    if k == i + 1 {
      FirstAccounted(run, calls, x, i, k);
    } else {
      WatchedBefore(run, calls, x, i, k);
      CancelledOnceDue(run, calls, x, i, k - 1);
      StepAccounted(run, calls, x, i, k);
    }
  }

  lemma WatchedBefore(run: seq<State>, calls: seq<Call>, x: Transfer, i: nat, k: nat)
    requires Watched(run, calls, x, i, k) && k > i + 1
    ensures Watched(run, calls, x, i, k - 1)
  {
  }

  lemma FirstAccounted(run: seq<State>, calls: seq<Call>, x: Transfer, i: nat, k: nat)
    requires Watched(run, calls, x, i, k) && k == i + 1
    ensures Accounted(run, calls, x, k, k)
  {
    RunStep(run, calls, i, k);
    SubmitFlies(run[i], x);
  }

  lemma StepAccounted(run: seq<State>, calls: seq<Call>, x: Transfer, i: nat, k: nat)
    requires Watched(run, calls, x, i, k) && k > i + 1 && Accounted(run, calls, x, i + 1, k - 1)
    ensures Accounted(run, calls, x, i + 1, k)
  {
    OneMoreCall(calls, x.timeout, i + 1, k);
    RunStep(run, calls, k - 1, k);
    assert Unique(run[k - 1].flying) by { TimerAgrees(run, calls, k - 1); }
    assert InFlight(run[k], x.id);
    CallKeeps(run[k - 1], calls[k - 1], x, WasDue(calls, x.timeout, i + 1, k - 1));
  }

  /** In numbers: at most once, and once if and only if a scan came at or after the deadline. */
  lemma CancelCount(run: seq<State>, calls: seq<Call>, x: Transfer, i: nat, k: nat)
    requires Watched(run, calls, x, i, k)
    ensures Cancels(run, calls, x.id, i + 1, k) <= 1
    ensures Cancels(run, calls, x.id, i + 1, k) == 1 <==>
      exists j :: i < j < k && IsScan(calls[j]) && Due(x.timeout, calls[j].now)
  {
    CancelledOnceDue(run, calls, x, i, k);
  }

  lemma RunStep(run: seq<State>, calls: seq<Call>, j: nat, k: nat)
    requires IsRun(run, calls) && k == j + 1 <= |calls|
    ensures Possible(run[j], calls[j]) && run[k] == Next(run[j], calls[j])
  {
  }

  lemma OneMoreCall(calls: seq<Call>, deadline: TimeVal, i: nat, k: nat)
    requires i < k <= |calls|
    ensures WasDue(calls, deadline, i, k)
      <==> WasDue(calls, deadline, i, k - 1) || (IsScan(calls[k - 1]) && Due(deadline, calls[k - 1].now))
  {
  }

  lemma CallKeeps(s: State, c: Call, x: Transfer, flagged: bool)
    requires Possible(s, c) && Flies(s, x, flagged) && Unique(s.flying) && InFlight(Next(s, c), x.id)
    requires x.timeout.usec <= MILLION && (IsScan(c) ==> c.now.usec < MILLION)
    ensures var due := IsScan(c) && Due(x.timeout, c.now);
      Flies(Next(s, c), x, flagged || due) && Times(CancelledBy(s, c), x.id) == if !flagged && due then 1 else 0
  {
    if IsScan(c) { ScanKeeps(s, c, x, flagged); } else { OthersKeep(s, c, x, flagged); }
  }
}
