/** Starting and stopping a stream of isochronous transfers (usb_libusb10.c: iso_callback,
fnusb_start_iso, fnusb_stop_iso), as a step system over all interleavings of the thread that starts and
stops the stream with the one that handles events. A callback tests `dead` in one step and acts in
another. Only one thread handles events (EventProtocol), so the increment of `dead_xfers` is one step.
*/
module IsoShutdown {
  /** Where a transfer is: with the kernel, in a callback that is about to count or to resubmit it, counted
      dead, or dropped because a submission failed. */
  datatype Xfer = Unsubmitted | InFlight | Counting | Resubmitting | Dead | Lost

  datatype Phase = Starting(next: nat) | Running | Cancelling(next: nat) | Waiting | Freed

  datatype Stream = Stream(phase: Phase, dead: bool, deadXfers: nat, xfers: seq<Xfer>)

  datatype Step =
    | Submit(ok: bool)
    | Started
    | Callback(i: nat, completed: bool)
    | CountDead(i: nat)
    | Resubmit(i: nat, ok: bool)
    | Stop
    | CancelNext
    | Leave

  predicate Enabled(s: Stream, step: Step) {
    match step
    case Submit(_) => s.phase.Starting? && s.phase.next < |s.xfers|
    case Started => s.phase.Starting? && s.phase.next >= |s.xfers|
    case Callback(i, _) => i < |s.xfers| && s.xfers[i] == InFlight
    case CountDead(i) => i < |s.xfers| && s.xfers[i] == Counting
    case Resubmit(i, _) => i < |s.xfers| && s.xfers[i] == Resubmitting
    case Stop => s.phase == Running
    case CancelNext => s.phase.Cancelling?
    case Leave => s.phase == Waiting && s.deadXfers >= |s.xfers|
  }

  /** Cancelling a transfer changes nothing here: the kernel returns it, as it might anyway. */
  function Next(s: Stream, step: Step): Stream
    requires Enabled(s, step)
  {
    match step
    case Submit(ok) =>
      s.(phase := Starting(s.phase.next + 1), xfers := s.xfers[s.phase.next := if ok then InFlight else Lost])
    case Started => s.(phase := Running)
    case Callback(i, completed) => s.(xfers := s.xfers[i := if !s.dead && completed then Resubmitting else Counting])
    case CountDead(i) => s.(xfers := s.xfers[i := Dead], deadXfers := s.deadXfers + 1)
    case Resubmit(i, ok) => s.(xfers := s.xfers[i := if ok then InFlight else Lost])
    case Stop => s.(dead := true, phase := Cancelling(0))
    case CancelNext =>
      if s.phase.next >= |s.xfers| then s.(phase := Waiting) else s.(phase := Cancelling(s.phase.next + 1))
    case Leave => s.(phase := Freed)
  }

  function Initial(n: nat): Stream {
    Stream(Starting(0), false, 0, seq(n, i => Unsubmitted))
  }

  predicate CanRun(s: Stream, steps: seq<Step>)
    decreases |steps|
  {
    steps != [] ==> Enabled(s, steps[0]) && CanRun(Next(s, steps[0]), steps[1..])
  }

  function After(s: Stream, steps: seq<Step>): Stream
    requires CanRun(s, steps)
    decreases |steps|
  {
    if steps == [] then s else After(Next(s, steps[0]), steps[1..])
  }

  // ---------------------------------------------------------------- tallies

  function Tally(xfers: seq<Xfer>, x: Xfer): (n: nat)
    ensures n <= |xfers|
  {
    if xfers == [] then 0 else (if xfers[0] == x then 1 else 0) + Tally(xfers[1..], x)
  }

  lemma {:induction false} TallyUpdate(xfers: seq<Xfer>, i: nat, now: Xfer, x: Xfer)
    requires i < |xfers|
    ensures Tally(xfers[i := now], x)
      == Tally(xfers, x) - (if xfers[i] == x then 1 else 0) + (if now == x then 1 else 0)
  {
    var updated := xfers[i := now];
    if i == 0 {
      assert updated[1..] == xfers[1..];
    } else {
      assert updated[1..] == xfers[1..][i - 1 := now];
      TallyUpdate(xfers[1..], i - 1, now, x);
    }
  }

  lemma {:induction false} TallyTotal(xfers: seq<Xfer>)
    ensures Tally(xfers, Unsubmitted) + Tally(xfers, InFlight) + Tally(xfers, Counting) + Tally(xfers, Resubmitting)
         + Tally(xfers, Dead) + Tally(xfers, Lost) == |xfers|
  {
    if xfers != [] { TallyTotal(xfers[1..]); }
  }

  lemma {:induction false} TallyZero(xfers: seq<Xfer>, x: Xfer, i: nat)
    requires i < |xfers| && xfers[i] == x
    ensures Tally(xfers, x) > 0
  {
    if i > 0 { TallyZero(xfers[1..], x, i - 1); }
  }

  lemma {:induction false} TallyFull(xfers: seq<Xfer>, x: Xfer, i: nat)
    requires i < |xfers| && Tally(xfers, x) == |xfers|
    ensures xfers[i] == x
  {
    if i > 0 { TallyFull(xfers[1..], x, i - 1); }
  }

  lemma {:induction false} TallyNone(n: nat, x: Xfer)
    requires x != Unsubmitted
    ensures Tally(seq(n, i => Unsubmitted), x) == 0
  {
    if n > 0 {
      assert seq(n, i => Unsubmitted)[1..] == seq(n - 1, i => Unsubmitted);
      TallyNone(n - 1, x);
    }
  }

  // ---------------------------------------------------------------- conservation

  ghost predicate Inv(s: Stream) {
    && s.deadXfers == Tally(s.xfers, Dead)
    && (s.dead <==> s.phase.Cancelling? || s.phase.Waiting? || s.phase.Freed?)
    && (s.phase.Starting? ==> s.phase.next <= |s.xfers|)
    && (forall i | 0 <= i < |s.xfers| :: s.xfers[i] == Unsubmitted <==> s.phase.Starting? && i >= s.phase.next)
    && (s.phase == Freed ==> s.deadXfers == |s.xfers|)
  }

  lemma InitialInv(n: nat)
    ensures Inv(Initial(n))
  {
    TallyNone(n, Dead);
  }

  /** Every step keeps the counter equal to the number of dead transfers, and a transfer that has been
      counted is never in flight, nor counted, again. */
  lemma StepKeepsInv(s: Stream, step: Step)
    requires Inv(s) && Enabled(s, step)
    ensures var s' := Next(s, step);
      && Inv(s') && |s'.xfers| == |s.xfers|
      && (forall i | 0 <= i < |s.xfers| && s.xfers[i] == Dead :: s'.xfers[i] == Dead)
      && (forall i | 0 <= i < |s.xfers| && s.xfers[i] == Lost :: s'.xfers[i] == Lost)
  {
    match step {
      case Submit(ok) => DeadAfter(s.xfers, s.phase.next, if ok then InFlight else Lost);
      case Started =>
      case Callback(i, completed) => DeadAfter(s.xfers, i, if !s.dead && completed then Resubmitting else Counting);
      case CountDead(i) => DeadAfter(s.xfers, i, Dead);
      case Resubmit(i, ok) => DeadAfter(s.xfers, i, if ok then InFlight else Lost);
      case Stop =>
      case CancelNext =>
      case Leave =>
    }
  }

  lemma DeadAfter(xfers: seq<Xfer>, i: nat, now: Xfer)
    requires i < |xfers| && xfers[i] != Dead && xfers[i] != Lost && now != Unsubmitted
    ensures var xfers' := xfers[i := now];
      && Tally(xfers', Dead) == Tally(xfers, Dead) + (if now == Dead then 1 else 0)
      && (forall k | 0 <= k < |xfers| && xfers[k] == Dead :: xfers'[k] == Dead)
      && (forall k | 0 <= k < |xfers| && xfers[k] == Lost :: xfers'[k] == Lost)
      && (forall k | 0 <= k < |xfers| && k != i :: xfers'[k] == xfers[k])
  {
    TallyUpdate(xfers, i, now, Dead);
  }

  lemma {:induction false} RunKeepsInv(s: Stream, steps: seq<Step>)
    requires Inv(s) && CanRun(s, steps)
    ensures var s' := After(s, steps);
      && Inv(s') && |s'.xfers| == |s.xfers|
      && (forall i | 0 <= i < |s.xfers| && s.xfers[i] == Dead :: s'.xfers[i] == Dead)
      && (forall i | 0 <= i < |s.xfers| && s.xfers[i] == Lost :: s'.xfers[i] == Lost)
    decreases |steps|
  {
    if steps != [] {
      StepKeepsInv(s, steps[0]);
      RunKeepsInv(Next(s, steps[0]), steps[1..]);
    }
  }

  /** A submission or resubmission that libusb refuses. */
  predicate Fails(step: Step) {
    (step.Submit? || step.Resubmit?) && !step.ok
  }

  function Failures(steps: seq<Step>): nat {
    if steps == [] then 0 else (if Fails(steps[0]) then 1 else 0) + Failures(steps[1..])
  }

  lemma StepLoses(s: Stream, step: Step)
    requires Enabled(s, step)
    requires step.Submit? ==> s.xfers[s.phase.next] == Unsubmitted
    ensures Tally(Next(s, step).xfers, Lost) == Tally(s.xfers, Lost) + (if Fails(step) then 1 else 0)
  {
    match step {
      case Submit(ok) => TallyUpdate(s.xfers, s.phase.next, if ok then InFlight else Lost, Lost);
      case Started =>
      case Callback(i, completed) => TallyUpdate(s.xfers, i, Next(s, step).xfers[i], Lost);
      case CountDead(i) => TallyUpdate(s.xfers, i, Dead, Lost);
      case Resubmit(i, ok) => TallyUpdate(s.xfers, i, if ok then InFlight else Lost, Lost);
      case Stop =>
      case CancelNext =>
      case Leave =>
    }
  }

  lemma {:induction false} RunLoses(s: Stream, steps: seq<Step>)
    requires Inv(s) && CanRun(s, steps)
    ensures Tally(After(s, steps).xfers, Lost) == Tally(s.xfers, Lost) + Failures(steps)
    decreases |steps|
  {
    if steps != [] {
      StepKeepsInv(s, steps[0]);
      StepLoses(s, steps[0]);
      RunLoses(Next(s, steps[0]), steps[1..]);
    }
  }

  /** What a run from the start leads to. */
  lemma Reached(n: nat, steps: seq<Step>) returns (s: Stream)
    requires CanRun(Initial(n), steps)
    ensures s == After(Initial(n), steps) && Inv(s) && |s.xfers| == n && Tally(s.xfers, Lost) == Failures(steps)
  {
    s := After(Initial(n), steps);
    InitialInv(n);
    RunKeepsInv(Initial(n), steps);
    TallyNone(n, Lost);
    RunLoses(Initial(n), steps);
  }

  /** The transfers not yet submitted, those in flight or in a callback, those counted dead and the
      submissions that failed make up all there are. */
  lemma Conservation(n: nat, steps: seq<Step>)
    requires CanRun(Initial(n), steps)
    ensures var s := After(Initial(n), steps);
      Tally(s.xfers, Unsubmitted) + Tally(s.xfers, InFlight) + Tally(s.xfers, Counting) + Tally(s.xfers, Resubmitting)
      + s.deadXfers + Failures(steps) == n
  {
    var s := Reached(n, steps);
    TallyTotal(s.xfers);
  }

  /** When fnusb_stop_iso frees the transfers, all have been counted: none is in flight or in a callback
      that has still to act. */
  lemma FreedIsQuiet(n: nat, steps: seq<Step>, i: nat)
    requires CanRun(Initial(n), steps) && After(Initial(n), steps).phase == Freed && i < n
    ensures |After(Initial(n), steps).xfers| == n && After(Initial(n), steps).xfers[i] == Dead
  {
    InitialInv(n);
    RunKeepsInv(Initial(n), steps);
    TallyFull(After(Initial(n), steps).xfers, Dead, i);
  }

  // ---------------------------------------------------------------- a stream that is alive

  /** What a callback does with a transfer that comes back: count it dead if the stream is to stop or the
      transfer failed, and else put it in flight again, if libusb takes it. */
  lemma CallbackDoes(s: Stream, i: nat, completed: bool, ok: bool)
    requires i < |s.xfers| && s.xfers[i] == InFlight
    ensures var called := Next(s, Callback(i, completed));
      if s.dead || !completed then
        && Enabled(called, CountDead(i))
        && Next(called, CountDead(i)) == s.(xfers := s.xfers[i := Dead], deadXfers := s.deadXfers + 1)
      else
        && Enabled(called, Resubmit(i, ok))
        && Next(called, Resubmit(i, ok)) == s.(xfers := s.xfers[i := if ok then InFlight else Lost])
  {
    var called := Next(s, Callback(i, completed));
    assert called.xfers[i := Dead] == s.xfers[i := Dead] && called.xfers[i := InFlight] == s.xfers[i := InFlight]
      && called.xfers[i := Lost] == s.xfers[i := Lost];
  }

  /** Nothing stops the stream, no submission fails, and every transfer completes. */
  predicate Undisturbed(steps: seq<Step>) {
    forall k | 0 <= k < |steps| :: !steps[k].Stop? && !Fails(steps[k]) && (steps[k].Callback? ==> steps[k].completed)
  }

  /** Then none is ever counted dead or lost: each one, once submitted, is in flight or about to be again. */
  lemma {:induction false} StreamKeepsFlying(s: Stream, steps: seq<Step>)
    requires Inv(s) && !s.dead && s.deadXfers == 0 && CanRun(s, steps) && Undisturbed(steps)
    requires forall i | 0 <= i < |s.xfers| ::
      s.xfers[i] == Unsubmitted || s.xfers[i] == InFlight || s.xfers[i] == Resubmitting
    ensures var s' := After(s, steps);
      && !s'.dead && s'.deadXfers == 0 && |s'.xfers| == |s.xfers|
      && forall i | 0 <= i < |s'.xfers| ::
           s'.xfers[i] == Unsubmitted || s'.xfers[i] == InFlight || s'.xfers[i] == Resubmitting
    decreases |steps|
  {
    if steps != [] {
      assert !steps[0].Stop? && !Fails(steps[0]) && (steps[0].Callback? ==> steps[0].completed);
      StepKeepsInv(s, steps[0]);
      assert Undisturbed(steps[1..]) by {
        assert forall k | 0 <= k < |steps[1..]| :: steps[1..][k] == steps[k + 1];
      }
      StreamKeepsFlying(Next(s, steps[0]), steps[1..]);
    }
  }

  /** From the start: and when the stream runs, all have been submitted. */
  lemma AliveStreamIsFull(n: nat, steps: seq<Step>)
    requires CanRun(Initial(n), steps) && Undisturbed(steps)
    ensures var s := After(Initial(n), steps);
      && s.deadXfers == 0 && |s.xfers| == n
      && (s.phase == Running ==> forall i | 0 <= i < n :: s.xfers[i] == InFlight || s.xfers[i] == Resubmitting)
  {
    var s := Reached(n, steps);
    InitialInv(n);
    StreamKeepsFlying(Initial(n), steps);
  }

  // ---------------------------------------------------------------- does the stop come to an end?

  function Weight(xfers: seq<Xfer>): nat {
    if xfers == [] then 0
    else (match xfers[0]
          case Unsubmitted => 0
          case InFlight => 2
          case Counting => 1
          case Resubmitting => 3
          case Dead => 0
          case Lost => 0) + Weight(xfers[1..])
  }

  lemma {:induction false} WeightUpdate(xfers: seq<Xfer>, i: nat, now: Xfer)
    requires i < |xfers|
    ensures Weight(xfers[i := now]) == Weight(xfers) - Weight([xfers[i]]) + Weight([now])
  {
    var updated := xfers[i := now];
    assert [xfers[i]][1..] == [] && [now][1..] == [];
    if i == 0 {
      assert updated[1..] == xfers[1..];
    } else {
      assert updated[1..] == xfers[1..][i - 1 := now];
      WeightUpdate(xfers[1..], i - 1, now);
    }
  }

  /** The next step of the transfer `i`, when no submission fails. */
  function Advance(s: Stream, i: nat): Step
    requires i < |s.xfers|
  {
    match s.xfers[i]
    case InFlight => Callback(i, true)
    case Counting => CountDead(i)
    case _ => Resubmit(i, true)
  }

  lemma AdvanceKeeps(s: Stream, i: nat)
    requires Inv(s) && s.phase == Waiting && Tally(s.xfers, Lost) == 0
    requires i < |s.xfers| && s.xfers[i] != Dead
    ensures Enabled(s, Advance(s, i))
    ensures var s' := Next(s, Advance(s, i));
      Inv(s') && s'.phase == Waiting && Tally(s'.xfers, Lost) == 0 && Weight(s'.xfers) < Weight(s.xfers)
  {
    assert s.xfers[i] != Lost by { if s.xfers[i] == Lost { TallyZero(s.xfers, Lost, i); } }
    StepKeepsInv(s, Advance(s, i));
    var x := Next(s, Advance(s, i)).xfers[i];
    TallyUpdate(s.xfers, i, x, Lost);
    WeightUpdate(s.xfers, i, x);
  }

  /** A way to the end. */
  lemma {:induction false} Finish(s: Stream) returns (steps: seq<Step>)
    requires Inv(s) && s.phase == Waiting && Tally(s.xfers, Lost) == 0
    ensures CanRun(s, steps) && After(s, steps).phase == Freed
    decreases Weight(s.xfers)
  {
    if i :| 0 <= i < |s.xfers| && s.xfers[i] != Dead {
      AdvanceKeeps(s, i);
      var rest := Finish(Next(s, Advance(s, i)));
      steps := [Advance(s, i)] + rest;
      assert steps[1..] == rest;
    } else {
      AllDead(s.xfers);
      steps := [Leave];
      assert steps[1..] == [];
      assert After(Next(s, Leave), []) == Next(s, Leave);
    }
  }

  lemma {:induction false} AllDead(xfers: seq<Xfer>)
    requires forall i | 0 <= i < |xfers| :: xfers[i] == Dead
    ensures Tally(xfers, Dead) == |xfers|
  {
    if xfers != [] { AllDead(xfers[1..]); }
  }

  /** The wait of fnusb_stop_iso can come to an end exactly when no submission has failed so far: a
      transfer that was not submitted, or not resubmitted, is never counted. */
  lemma StopCanEndIff(n: nat, steps: seq<Step>)
    requires CanRun(Initial(n), steps) && After(Initial(n), steps).phase == Waiting
    ensures var s := After(Initial(n), steps);
      (exists more :: CanRun(s, more) && After(s, more).phase == Freed) <==> Failures(steps) == 0
  {
    var s := Reached(n, steps);
    if Failures(steps) == 0 {
      var more := Finish(s);
    } else {
      forall more | CanRun(s, more) ensures After(s, more).phase != Freed {
        LostKeepsWaiting(s, more);
      }
    }
  }

  /** How many steps can still follow once `dead` is set. */
  function Rank(s: Stream): nat
    requires Inv(s) && s.dead
  {
    Weight(s.xfers) + match s.phase
                      case Cancelling(next) => if next < |s.xfers| then |s.xfers| - next + 2 else 2
                      case Waiting => 1
                      case _ => 0
  }

  lemma RankFalls(s: Stream, step: Step)
    requires Inv(s) && s.dead && Enabled(s, step)
    ensures var s' := Next(s, step); Inv(s') && s'.dead && Rank(s') < Rank(s)
  {
    StepKeepsInv(s, step);
    if step.Callback? || step.CountDead? || step.Resubmit? {
      WeightUpdate(s.xfers, step.i, Next(s, step).xfers[step.i]);
    }
  }

  /** Whatever happens once the stream is to stop, it is over after so many steps. */
  lemma {:induction false} StoppingIsBounded(s: Stream, steps: seq<Step>)
    requires Inv(s) && s.dead && CanRun(s, steps)
    ensures Inv(After(s, steps)) && After(s, steps).dead && |steps| + Rank(After(s, steps)) <= Rank(s)
    decreases |steps|
  {
    if steps != [] {
      RankFalls(s, steps[0]);
      StoppingIsBounded(Next(s, steps[0]), steps[1..]);
    }
  }

  ghost predicate Halted(s: Stream) {
    forall step :: !Enabled(s, step)
  }

  /** And when nothing can happen any more, the transfers have been freed exactly if no submission ever
      failed; otherwise fnusb_stop_iso is still waiting. */
  lemma HaltedIsFreedIff(n: nat, steps: seq<Step>)
    requires CanRun(Initial(n), steps) && After(Initial(n), steps).dead && Halted(After(Initial(n), steps))
    ensures After(Initial(n), steps).phase == if Failures(steps) == 0 then Freed else Waiting
  {
    var s := Reached(n, steps);
    assert !Enabled(s, CancelNext) && !Enabled(s, Leave);
    forall i | 0 <= i < n ensures s.xfers[i] == Dead || s.xfers[i] == Lost {
      assert !Enabled(s, Callback(i, true)) && !Enabled(s, CountDead(i)) && !Enabled(s, Resubmit(i, true));
    }
    if Failures(steps) == 0 {
      forall i | 0 <= i < n ensures s.xfers[i] == Dead {
        if s.xfers[i] == Lost { TallyZero(s.xfers, Lost, i); }
      }
      AllDead(s.xfers);
    } else {
      var i := SomeLost(s.xfers);
      if s.phase == Freed { TallyFull(s.xfers, Dead, i); }
    }
  }

  /** One transfer completes before the stream is stopped, and cannot be resubmitted: the wait is for ever. */
  lemma FailedResubmission() returns (steps: seq<Step>)
    ensures CanRun(Initial(1), steps) && Failures(steps) == 1
    ensures After(Initial(1), steps).phase == Waiting && Halted(After(Initial(1), steps))
  {
    steps := StopAfterLoss();
    var flying := Stream(Running, false, 0, [InFlight]);
    assert Next(Next(flying, Callback(0, true)), Resubmit(0, false)) == Stream(Running, false, 0, [Lost]);
    steps := Prepend(Next(flying, Callback(0, true)), Resubmit(0, false), steps);
    steps := Prepend(flying, Callback(0, true), steps);
    assert Next(Next(Initial(1), Submit(true)), Started) == flying;
    steps := Prepend(Next(Initial(1), Submit(true)), Started, steps);
    steps := Prepend(Initial(1), Submit(true), steps);
  }

  lemma StopAfterLoss() returns (steps: seq<Step>)
    ensures var s := Stream(Running, false, 0, [Lost]);
      CanRun(s, steps) && After(s, steps) == Stream(Waiting, true, 0, [Lost]) && Failures(steps) == 0
  {
    var s := Stream(Running, false, 0, [Lost]);
    steps := Prepend(Stream(Cancelling(1), true, 0, [Lost]), CancelNext, []);
    steps := Prepend(Stream(Cancelling(0), true, 0, [Lost]), CancelNext, steps);
    assert Next(s, Stop) == Stream(Cancelling(0), true, 0, [Lost]);
    steps := Prepend(s, Stop, steps);
  }

  lemma Prepend(s: Stream, step: Step, rest: seq<Step>) returns (steps: seq<Step>)
    requires Enabled(s, step) && CanRun(Next(s, step), rest)
    ensures CanRun(s, steps) && After(s, steps) == After(Next(s, step), rest)
    ensures Failures(steps) == Failures(rest) + (if Fails(step) then 1 else 0)
  {
    steps := [step] + rest;
    assert steps[1..] == rest;
  }

  lemma LostKeepsWaiting(s: Stream, steps: seq<Step>)
    requires Inv(s) && Tally(s.xfers, Lost) > 0 && CanRun(s, steps)
    ensures After(s, steps).phase != Freed
  {
    RunKeepsInv(s, steps);
    var i := SomeLost(s.xfers);
    if After(s, steps).phase == Freed { TallyFull(After(s, steps).xfers, Dead, i); }
  }

  lemma {:induction false} SomeLost(xfers: seq<Xfer>) returns (i: nat)
    requires Tally(xfers, Lost) > 0
    ensures i < |xfers| && xfers[i] == Lost
  {
    if xfers[0] == Lost {
      i := 0;
    } else {
      i := SomeLost(xfers[1..]);
      i := i + 1;
    }
  }

  // ---------------------------------------------------------------- the stream's object

  /** What the kernel returns while events are handled: a transfer, and whether it completed. */
  datatype Return = Return(i: nat, completed: bool, resubmitted: bool)

  /** fnusb_isoc_stream. Where each transfer is, is the kernel's business. */
  class IsoStream {
    var dead: bool
    var deadXfers: nat
    var numXfers: nat
    var xfers: seq<Xfer>
    ghost var phase: Phase

    ghost function State(): Stream
      reads this
    {
      Stream(phase, dead, deadXfers, xfers)
    }

    ghost predicate Valid()
      reads this
    {
      Inv(State()) && numXfers == |xfers|
    }

    /** fnusb_start_iso, where `accepted` says which submissions succeed. */
    constructor (accepted: seq<bool>)
      ensures Valid() && phase == Running && !dead && numXfers == |accepted|
      ensures forall i | 0 <= i < |accepted| :: xfers[i] == if accepted[i] then InFlight else Lost
    {
      dead, deadXfers, numXfers, phase := false, 0, |accepted|, Starting(0);
      xfers := seq(|accepted|, i => Unsubmitted);
      new;
      InitialInv(|accepted|);
      for i := 0 to numXfers
        invariant Valid() && numXfers == |accepted| && phase == Starting(i) && !dead
        invariant forall j | 0 <= j < i :: xfers[j] == if accepted[j] then InFlight else Lost
      {
        StepKeepsInv(State(), Submit(accepted[i]));
        xfers := xfers[i := if accepted[i] then InFlight else Lost];
        phase := Starting(i + 1);
      }
      StepKeepsInv(State(), Started);
      phase := Running;
    }

    /** iso_callback, undisturbed. */
    method IsoCallback(r: Return)
      requires Valid() && r.i < |xfers| && xfers[r.i] == InFlight
      modifies this`deadXfers, this`xfers
      ensures Valid()
      ensures State() == Next(Next(old(State()), Callback(r.i, r.completed)),
                              if dead || !r.completed then CountDead(r.i) else Resubmit(r.i, r.resubmitted))
    {
      StepKeepsInv(State(), Callback(r.i, r.completed));
      ghost var called := Next(State(), Callback(r.i, r.completed));
      StepKeepsInv(called, if dead || !r.completed then CountDead(r.i) else Resubmit(r.i, r.resubmitted));
      ghost var outcome := if dead || !r.completed then Dead else if r.resubmitted then InFlight else Lost;
      assert called.xfers[r.i := outcome] == xfers[r.i := outcome];
      if dead {
        deadXfers := deadXfers + 1;
        xfers := xfers[r.i := Dead];
        return;
      }
      if r.completed {
        xfers := xfers[r.i := if r.resubmitted then InFlight else Lost];
      } else {
        deadXfers := deadXfers + 1;
        xfers := xfers[r.i := Dead];
      }
    }

    /** fnusb_stop_iso, for as long as the kernel returns transfers: it ends exactly when all are dead. */
    method StopIso(returned: seq<Return>) returns (ended: bool)
      requires Valid() && phase == Running
      modifies this
      ensures Valid() && dead && |xfers| == old(|xfers|)
      ensures ended == (phase == Freed) == (forall i | 0 <= i < |xfers| :: xfers[i] == Dead)
    {
      StepKeepsInv(State(), Stop);
      dead := true;
      phase := Cancelling(0);
      for i := 0 to numXfers
        invariant Valid() && dead && phase == Cancelling(i) && |xfers| == old(|xfers|)
      {
        StepKeepsInv(State(), CancelNext);
        phase := Cancelling(i + 1);
      }
      StepKeepsInv(State(), CancelNext);
      phase := Waiting;
      var k := 0;
      while deadXfers < numXfers && k < |returned|
        invariant Valid() && dead && phase == Waiting && |xfers| == old(|xfers|)
      {
        if returned[k].i < |xfers| && xfers[returned[k].i] == InFlight {
          IsoCallback(returned[k]);
        }
        k := k + 1;
      }
      DeadIffCounted(xfers);
      ended := deadXfers >= numXfers;
      if ended {
        StepKeepsInv(State(), Leave);
        phase := Freed;
      }
    }
  }

  lemma {:induction false} DeadIffCounted(xfers: seq<Xfer>)
    ensures Tally(xfers, Dead) == |xfers| <==> forall i | 0 <= i < |xfers| :: xfers[i] == Dead
  {
    if Tally(xfers, Dead) == |xfers| {
      forall i | 0 <= i < |xfers| ensures xfers[i] == Dead { TallyFull(xfers, Dead, i); }
    }
    if forall i | 0 <= i < |xfers| :: xfers[i] == Dead { AllDead(xfers); }
  }
}
