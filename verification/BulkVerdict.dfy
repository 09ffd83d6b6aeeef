/** Which report a bulk transfer ends with (linux_usbfs.c: submit_bulk_transfer, cancel_bulk_transfer,
handle_bulk_completion), said of the kernel's answers and the events alone, without the engine's state.
*/
module BulkVerdict {
  import opened Bytes
  import opened BulkEngine

  // ---------------------------------------------------------------- what has happened

  /** How many URBs the kernel has given back in the first `j` events. */
  function Back(events: seq<Event>, j: nat): nat
    requires j <= |events|
  {
    if j == 0 then 0 else Back(events, j - 1) + (if events[j - 1].Reaped? then 1 else 0)
  }

  /** A cancellation, a bus error, and a short URB that is not the last one end NORMAL mode. */
  predicate EndsNormal(length: nat, events: seq<Event>, i: nat)
    requires i < |events|
  {
    match events[i]
    case UserCancel => true
    case Reaped(status, actual) =>
      || status == BusError
      || ((status == Success || status == ShortRead)
          && Back(events, i) + 1 < NumUrbs(length) && actual < UrbLength(length, Back(events, i)))
  }

  /** Event `j` comes in NORMAL mode: all URBs were submitted, and nothing has ended it. */
  predicate InNormal(length: nat, replies: seq<Reply>, events: seq<Event>, j: nat)
    requires j <= |events|
  {
    FirstRefusal(replies) == |replies| && forall i | 0 <= i < j :: !EndsNormal(length, events, i)
  }

  predicate BusErrorAt(length: nat, replies: seq<Reply>, events: seq<Event>, i: nat)
    requires i < |events|
  {
    InNormal(length, replies, events, i) && events[i].Reaped? && events[i].status == BusError
  }

  /** A URB reaped in NORMAL mode was no success. */
  predicate TroubleAt(length: nat, replies: seq<Reply>, events: seq<Event>, i: nat)
    requires i < |events|
  {
    && InNormal(length, replies, events, i) && events[i].Reaped?
    && events[i].status != Success && events[i].status != ShortRead
  }

  /** The user cancels a transfer in flight in which no bus error has come before. */
  predicate CancelsAt(length: nat, replies: seq<Reply>, events: seq<Event>, j: nat)
    requires j < |events|
  {
    && events[j].UserCancel? && Back(events, j) < FirstRefusal(replies)
    && forall i | 0 <= i < j :: !BusErrorAt(length, replies, events, i)
  }

  predicate CancelledBy(length: nat, replies: seq<Reply>, events: seq<Event>, j: nat)
    requires j <= |events|
  {
    exists i :: 0 <= i < j && CancelsAt(length, replies, events, i)
  }

  predicate BusErrorBy(length: nat, replies: seq<Reply>, events: seq<Event>, j: nat)
    requires j <= |events|
  {
    exists i :: 0 <= i < j && BusErrorAt(length, replies, events, i)
  }

  predicate FirstTrouble(length: nat, replies: seq<Reply>, events: seq<Event>, i: nat)
    requires i < |events|
  {
    TroubleAt(length, replies, events, i) && forall k | 0 <= k < i :: !TroubleAt(length, replies, events, k)
  }

  predicate NoTrouble(length: nat, replies: seq<Reply>, events: seq<Event>, j: nat)
    requires j <= |events|
  {
    forall i | 0 <= i < j :: !TroubleAt(length, replies, events, i)
  }

  function StatusOf(status: UrbStatus): TransferStatus {
    match status
    case Stalled => StatusStall
    case Overflowed => StatusOverflow
    case _ => StatusError
  }

  // ---------------------------------------------------------------- runs, cut in two

  lemma {:induction false} RunSplits(e: Engine, a: seq<Event>, b: seq<Event>)
    requires e.Valid() && IsRun(e, a + b)
    ensures IsRun(e, a) && IsRun(Final(e, a), b)
    ensures Final(e, a + b) == Final(Final(e, a), b) && Reports(e, a + b) == Reports(e, a) + Reports(Final(e, a), b)
    decreases |a|
  {
    if a == [] {
      assert a + b == b;
    } else {
      assert (a + b)[1..] == a[1..] + b;
      RunSplits(After(e, a[0]), a[1..], b);
    }
  }

  /** The engine after `j` events. */
  ghost function At(e: Engine, events: seq<Event>, j: nat): (e': Engine)
    requires e.Valid() && IsRun(e, events) && j <= |events|
    ensures e'.Valid() && |e'.mem| == |e.mem|
  {
    assert events == events[..j] + events[j..];
    RunSplits(e, events[..j], events[j..]);
    Final(e, events[..j])
  }

  lemma AtStart(e: Engine, events: seq<Event>)
    requires e.Valid() && IsRun(e, events)
    ensures At(e, events, 0) == e
  {
    assert events[..0] == [];
  }

  lemma AtNext(e: Engine, events: seq<Event>, j: nat)
    requires e.Valid() && IsRun(e, events) && j < |events|
    ensures Possible(At(e, events, j), events[j]) && At(e, events, j + 1) == After(At(e, events, j), events[j])
  {
    assert events == events[..j] + events[j..];
    RunSplits(e, events[..j], events[j..]);
    assert events[..j + 1] == events[..j] + [events[j]] && events == events[..j + 1] + events[j + 1..];
    RunSplits(e, events[..j + 1], events[j + 1..]);
    RunSplits(e, events[..j], [events[j]]);
    var s := At(e, events, j);
    assert [events[j]][1..] == [] && Final(After(s, events[j]), []) == After(s, events[j]);
  }

  // ---------------------------------------------------------------- one step

  /** The mode that an event leaves a transfer in flight in. */
  lemma StepAction(e: Engine, event: Event)
    requires e.Valid() && e.live && Possible(e, event) && After(e, event).live
    ensures After(e, event).action ==
      match event
      case UserCancel => if e.action == LowLevelError then LowLevelError else Cancelled
      case Reaped(status, actual) =>
        if e.action != Normal then e.action
        else if status == BusError then LowLevelError
        else if (status == Success || status == ShortRead) && e.reaped + 1 < e.N()
                && actual < UrbLength(|e.mem|, e.reaped) then CompletedEarly
        else Normal
    ensures After(e, event).status ==
      if event.Reaped? && e.action == Normal && event.status != Success && event.status != ShortRead
         && e.status == StatusCompleted
      then (match event.status case Stalled => StatusStall case Overflowed => StatusOverflow case _ => StatusError)
      else e.status
  {
    if event.Reaped? { UrbsTile(|e.mem|, e.reaped); }
  }

  /** The report that a step ends a transfer with. */
  lemma StepReport(e: Engine, event: Event)
    requires e.Valid() && e.live && Possible(e, event) && !After(e, event).live
    ensures event.Reaped?
    ensures Step(e, event).1 ==
      if e.action == Cancelled then Cancellation
      else if e.action == Normal && event.status != Success && event.status != ShortRead && e.status == StatusCompleted
      then Completion(match event.status
                      case Stalled => StatusStall case Overflowed => StatusOverflow case _ => StatusError)
      else if (e.action == SubmitFailed || e.action == LowLevelError) && e.status == StatusCompleted
      then Completion(StatusError)
      else Completion(e.status)
  {
    if event.Reaped? { UrbsTile(|e.mem|, e.reaped); }
  }

  // ---------------------------------------------------------------- the engine, told by the events

  /** What the engine is while the transfer is in flight. */
  ghost predicate Agrees(e: Engine, length: nat, replies: seq<Reply>, events: seq<Event>, j: nat)
    requires j <= |events|
  {
    var k := FirstRefusal(replies);
    && |e.mem| == length && |replies| == NumUrbs(length) && e.reaped == Back(events, j) && e.submitted == k
    && (e.action == Normal <==> InNormal(length, replies, events, j))
    && (e.action == Cancelled <==> CancelledBy(length, replies, events, j))
    && (e.action == LowLevelError <==>
          BusErrorBy(length, replies, events, j) && !CancelledBy(length, replies, events, j))
    && (e.action == SubmitFailed <==>
          k < |replies| && replies[k] != Short && !CancelledBy(length, replies, events, j))
    && (NoTrouble(length, replies, events, j) ==> e.status == StatusCompleted)
    && (forall i | 0 <= i < j && FirstTrouble(length, replies, events, i) :: e.status == StatusOf(events[i].status))
  }

  lemma StartAgrees(mem: seq<byte>, replies: seq<Reply>, events: seq<Event>)
    requires |replies| == NumUrbs(|mem|) && Submission(mem, replies).live
    ensures Agrees(Submission(mem, replies), |mem|, replies, events, 0)
  {
  }

  /** What one more event changes. */
  lemma OneMore(length: nat, replies: seq<Reply>, events: seq<Event>, j: nat)
    requires j < |events|
    ensures InNormal(length, replies, events, j + 1)
      <==> InNormal(length, replies, events, j) && !EndsNormal(length, events, j)
    ensures CancelledBy(length, replies, events, j + 1)
      <==> CancelledBy(length, replies, events, j) || CancelsAt(length, replies, events, j)
    ensures BusErrorBy(length, replies, events, j + 1)
      <==> BusErrorBy(length, replies, events, j) || BusErrorAt(length, replies, events, j)
    ensures NoTrouble(length, replies, events, j + 1)
      <==> NoTrouble(length, replies, events, j) && !TroubleAt(length, replies, events, j)
  {
  }

  /** The status after one more event. */
  lemma StatusAgrees(e: Engine, length: nat, replies: seq<Reply>, events: seq<Event>, j: nat)
    requires e.Valid() && e.live && j < |events| && Possible(e, events[j]) && After(e, events[j]).live
    requires Agrees(e, length, replies, events, j)
    ensures NoTrouble(length, replies, events, j + 1) ==> After(e, events[j]).status == StatusCompleted
    ensures forall i | 0 <= i < j + 1 && FirstTrouble(length, replies, events, i) ::
      After(e, events[j]).status == StatusOf(events[i].status)
  {
    StepAction(e, events[j]);
    OneMore(length, replies, events, j);
    forall i | 0 <= i < j + 1 && FirstTrouble(length, replies, events, i)
      ensures After(e, events[j]).status == StatusOf(events[i].status)
    {
      if i == j { assert NoTrouble(length, replies, events, j); }
    }
  }

  /** The mode after one more event. */
  lemma ActionAgrees(e: Engine, length: nat, replies: seq<Reply>, events: seq<Event>, j: nat)
    requires e.Valid() && e.live && j < |events| && Possible(e, events[j]) && After(e, events[j]).live
    requires Agrees(e, length, replies, events, j)
    ensures var a := After(e, events[j]).action; var k := FirstRefusal(replies);
      && (a == Normal <==> InNormal(length, replies, events, j + 1))
      && (a == Cancelled <==> CancelledBy(length, replies, events, j + 1))
      && (a == LowLevelError <==>
            BusErrorBy(length, replies, events, j + 1) && !CancelledBy(length, replies, events, j + 1))
      && (a == SubmitFailed <==>
            k < |replies| && replies[k] != Short && !CancelledBy(length, replies, events, j + 1))
  {
    StepAction(e, events[j]);
    OneMore(length, replies, events, j);
    if events[j].UserCancel? {
      assert CancelsAt(length, replies, events, j) <==> !BusErrorBy(length, replies, events, j);
    } else {
      assert EndsNormal(length, events, j) && e.action == Normal ==> After(e, events[j]).action != Normal;
    }
  }

  lemma NextAgrees(e: Engine, length: nat, replies: seq<Reply>, events: seq<Event>, j: nat)
    requires e.Valid() && e.live && j < |events| && Possible(e, events[j]) && After(e, events[j]).live
    requires Agrees(e, length, replies, events, j)
    ensures Agrees(After(e, events[j]), length, replies, events, j + 1)
  {
    ActionAgrees(e, length, replies, events, j);
    StatusAgrees(e, length, replies, events, j);
    if events[j].Reaped? { ReapData(e, events[j].status, events[j].actual); }
  }

  lemma {:induction false} RunAgrees(mem: seq<byte>, replies: seq<Reply>, events: seq<Event>, j: nat)
    requires |replies| == NumUrbs(|mem|) && Submission(mem, replies).Valid() && IsRun(Submission(mem, replies), events)
    requires j <= |events| && At(Submission(mem, replies), events, j).live
    ensures Agrees(At(Submission(mem, replies), events, j), |mem|, replies, events, j)
  {
    var start := Submission(mem, replies);
    if j == 0 {
      StartAgrees(mem, replies, events);
      AtStart(start, events);
    } else {
      AtNext(start, events, j - 1);
      StepReports(At(start, events, j - 1), events[j - 1]);
      RunAgrees(mem, replies, events, j - 1);
      NextAgrees(At(start, events, j - 1), |mem|, replies, events, j - 1);
    }
  }

  // ---------------------------------------------------------------- the report

  /** The step at which a transfer ends. */
  lemma {:induction false} LastStep(e: Engine, events: seq<Event>, j: nat) returns (m: nat)
    requires e.Valid() && IsRun(e, events) && e.live && j <= |events| && !At(e, events, j).live
    ensures m < j && At(e, events, m).live && !At(e, events, m + 1).live
  {
    AtStart(e, events);
    if At(e, events, j - 1).live {
      m := j - 1;
    } else {
      m := LastStep(e, events, j - 1);
    }
  }

  lemma ReportOf(e: Engine, events: seq<Event>, m: nat)
    requires e.Valid() && IsRun(e, events) && m < |events|
    requires e.live && At(e, events, m).live && !At(e, events, m + 1).live
    ensures Possible(At(e, events, m), events[m]) && Reports(e, events) == [Step(At(e, events, m), events[m]).1]
    ensures events[m].Reaped?
    ensures !After(At(e, events, m), events[m]).live
  {
    var s, rest := At(e, events, m), events[m..];
    assert events == events[..m] + rest && rest[0] == events[m];
    RunSplits(e, events[..m], rest);
    ReportedExactlyOnce(e, events[..m]);
    AtNext(e, events, m);
    StepReports(s, events[m]);
    IdleEngineIsQuiet(After(s, events[m]), rest[1..]);
  }

  /** Nothing is given back once a transfer is over. */
  lemma {:induction false} OverStays(e: Engine, events: seq<Event>, m: nat, i: nat)
    requires e.Valid() && IsRun(e, events) && m <= i < |events| && !At(e, events, m).live
    ensures !At(e, events, i).live && events[i].UserCancel? && Back(events, i) == Back(events, m)
    decreases i
  {
    if i > m {
      OverStays(e, events, m, i - 1);
      AtNext(e, events, i - 1);
    }
    AtNext(e, events, i);
  }

  /** The report, where `m` is the last reap. */
  ghost predicate Fits(r: Report, length: nat, replies: seq<Reply>, events: seq<Event>, m: nat)
    requires m <= |events|
  {
    var k := FirstRefusal(replies);
    && (r == Cancellation <==> CancelledBy(length, replies, events, m))
    && (forall i | 0 <= i < m && FirstTrouble(length, replies, events, i) && r != Cancellation ::
          r == Completion(StatusOf(events[i].status)))
    && (NoTrouble(length, replies, events, m) && r != Cancellation ==>
          r == Completion(if k < |replies| && replies[k] != Short then StatusError else StatusCompleted))
  }

  lemma LastReapFits(e: Engine, length: nat, replies: seq<Reply>, events: seq<Event>, m: nat)
    requires e.Valid() && e.live && m < |events| && Possible(e, events[m]) && !After(e, events[m]).live
    requires Agrees(e, length, replies, events, m)
    ensures Fits(Step(e, events[m]).1, length, replies, events, m + 1)
  {
    StepReport(e, events[m]);
    OneMore(length, replies, events, m);
    assert BusErrorBy(length, replies, events, m) ==> !NoTrouble(length, replies, events, m);
    var r := Step(e, events[m]).1;
    forall i | 0 <= i < m + 1 && FirstTrouble(length, replies, events, i) && r != Cancellation
      ensures r == Completion(StatusOf(events[i].status))
    {
      if i == m { assert NoTrouble(length, replies, events, m); }
    }
  }

  /** What the user is told, in terms of the kernel's answers to the submission and of the events alone.
      Cancelled, if and only if a cancellation met the transfer in flight and no bus error had come in NORMAL
      mode before. Else the first failure that was reaped in NORMAL mode: a stall, an overflow, or an error.
      Else error if submission was refused in the middle, unless because the device was done, or completed. */
  lemma WhatIsReported(mem: seq<byte>, replies: seq<Reply>, events: seq<Event>)
    requires |replies| == NumUrbs(|mem|) && Submission(mem, replies).Valid() && IsRun(Submission(mem, replies), events)
    requires Reports(Submission(mem, replies), events) != []
    ensures var r := Reports(Submission(mem, replies), events)[0]; var k := FirstRefusal(replies);
      && (r == Cancellation <==> exists j :: 0 <= j < |events| && CancelsAt(|mem|, replies, events, j))
      && (forall i | 0 <= i < |events| && FirstTrouble(|mem|, replies, events, i) && r != Cancellation ::
            && (events[i].status == Stalled ==> r == Completion(StatusStall))
            && (events[i].status == Overflowed ==> r == Completion(StatusOverflow))
            && (events[i].status == BusError || events[i].status == Unrecognised ==> r == Completion(StatusError)))
      && ((forall i | 0 <= i < |events| :: !TroubleAt(|mem|, replies, events, i)) && r != Cancellation ==>
            r == Completion(if k < |replies| && replies[k] != Short then StatusError else StatusCompleted))
  {
    var m := ReportFits(mem, replies, events);
    assert CancelledBy(|mem|, replies, events, m + 1) <==>
      exists j :: 0 <= j < |events| && CancelsAt(|mem|, replies, events, j);
    assert NoTrouble(|mem|, replies, events, m + 1) <==>
      forall i | 0 <= i < |events| :: !TroubleAt(|mem|, replies, events, i);
  }

  lemma ReportFits(mem: seq<byte>, replies: seq<Reply>, events: seq<Event>) returns (m: nat)
    requires |replies| == NumUrbs(|mem|) && Submission(mem, replies).Valid() && IsRun(Submission(mem, replies), events)
    requires Reports(Submission(mem, replies), events) != []
    ensures m < |events|
    ensures Fits(Reports(Submission(mem, replies), events)[0], |mem|, replies, events, m + 1)
    ensures forall i | m < i < |events| :: !TroubleAt(|mem|, replies, events, i)
    ensures forall i | m < i < |events| :: !CancelsAt(|mem|, replies, events, i)
  {
    var start := Submission(mem, replies);
    ReportedExactlyOnce(start, events);
    assert events[..|events|] == events;
    m := LastStep(start, events, |events|);
    ReportOf(start, events, m);
    RunAgrees(mem, replies, events, m);
    LastReapFits(At(start, events, m), |mem|, replies, events, m);
    NothingLater(mem, replies, events, m);
  }

  /** Nothing that comes after the report makes a difference. */
  lemma NothingLater(mem: seq<byte>, replies: seq<Reply>, events: seq<Event>, m: nat)
    requires |replies| == NumUrbs(|mem|) && Submission(mem, replies).Valid() && IsRun(Submission(mem, replies), events)
    requires m < |events| && events[m].Reaped? && !At(Submission(mem, replies), events, m + 1).live
    requires At(Submission(mem, replies), events, m).live
    ensures forall i | m < i < |events| :: !TroubleAt(|mem|, replies, events, i)
    ensures forall i | m <= i < |events| :: !CancelsAt(|mem|, replies, events, i)
  {
    var start := Submission(mem, replies);
    RunAgrees(mem, replies, events, m);
    AtNext(start, events, m);
    ReapData(At(start, events, m), events[m].status, events[m].actual);
    forall i | m < i < |events|
      ensures !TroubleAt(|mem|, replies, events, i) && !CancelsAt(|mem|, replies, events, i)
    {
      OverStays(start, events, m + 1, i);
    }
  }
}
