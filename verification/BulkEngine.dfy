/** The bulk and interrupt transfer engine of the Linux usbfs backend (linux_usbfs.c).

A transfer is cut into URBs of at most 16384 bytes, all of them are handed to the kernel, and the
kernel gives them back in submission order. The engine puts received data together, closes the
holes that short URBs leave, and reports the end of the transfer.

Whatever the kernel stores for URB i is already in the URB's part of the buffer when the URB is
reaped, so the initial contents `mem` of the buffer stand for everything the device sends.
*/
module BulkEngine {
  import opened Bytes

  const MAX_BULK_BUFFER_LENGTH: nat := 16384

  datatype ReapAction = Normal | SubmitFailed | Cancelled | CompletedEarly | LowLevelError

  datatype TransferStatus = StatusCompleted | StatusError | StatusStall | StatusOverflow

  /** What the kernel says about a URB: 0, -EREMOTEIO, -EPIPE, -EOVERFLOW, one of -ETIME, -EPROTO
      and -EILSEQ, or anything else (a discarded URB comes back with -ENOENT). */
  datatype UrbStatus = Success | ShortRead | Stalled | Overflowed | BusError | Unrecognised

  datatype Report = Pending | Completion(status: TransferStatus) | Cancellation

  // ---------------------------------------------------------------- cutting a transfer into URBs

  function NumUrbs(length: nat): (n: nat)
    ensures n >= 1
    ensures length > 0 ==> (n - 1) * MAX_BULK_BUFFER_LENGTH < length <= n * MAX_BULK_BUFFER_LENGTH
  {
    if length == 0 then 1
    else length / MAX_BULK_BUFFER_LENGTH + (if length % MAX_BULK_BUFFER_LENGTH > 0 then 1 else 0)
  }

  function UrbOffset(i: nat): nat {
    i * MAX_BULK_BUFFER_LENGTH
  }

  function UrbLength(length: nat, i: nat): nat {
    if i == NumUrbs(length) - 1 && length % MAX_BULK_BUFFER_LENGTH > 0 then length % MAX_BULK_BUFFER_LENGTH
    else if length == 0 then 0
    else MAX_BULK_BUFFER_LENGTH
  }

  /** The URBs tile the buffer: each begins where the previous one ends, and the last one ends with it. */
  lemma UrbsTile(length: nat, i: nat)
    requires i < NumUrbs(length)
    ensures UrbOffset(i) + UrbLength(length, i) == if i == NumUrbs(length) - 1 then length else UrbOffset(i + 1)
    ensures i < NumUrbs(length) - 1 ==> UrbLength(length, i) == MAX_BULK_BUFFER_LENGTH
    ensures UrbOffset(i) + UrbLength(length, i) <= length
  {
    var n := NumUrbs(length);
    var q, r := length / MAX_BULK_BUFFER_LENGTH, length % MAX_BULK_BUFFER_LENGTH;
    assert length == q * MAX_BULK_BUFFER_LENGTH + r;
  }

  // ---------------------------------------------------------------- the engine on values

  datatype Engine = Engine(
    mem: seq<byte>,          // the transfer's buffer
    transferred: nat,        // bytes reported to the user
    retired: nat,            // URBs finished with: reaped, or never submitted
    action: ReapAction,
    status: TransferStatus,
    live: bool,              // the URB array is allocated
    submitted: nat,          // URBs that the kernel has accepted
    reaped: nat)             // URBs that the kernel has given back
  {
    function N(): nat { NumUrbs(|mem|) }

    /** Where the bytes of the URBs that the kernel still owns begin. */
    function Frontier(): nat {
      if reaped < N() then UrbOffset(reaped) else |mem|
    }

    ghost predicate Valid() {
      && transferred <= Frontier() <= |mem|
      && reaped <= submitted <= N()
      && (live <==> reaped < submitted)
      && (live ==> retired == reaped + (N() - submitted))
      && (live && action == Normal ==> submitted == N())
    }
  }

  /** The kernel's answer to submitting one URB; `Short` is errno EREMOTEIO. */
  datatype Reply = Accepted | NoDevice | Short | Refused

  datatype SubmitResult = Submitted | ErrorNoDevice | ErrorIo | ErrorBusy

  function FirstRefusal(replies: seq<Reply>): (k: nat)
    ensures k <= |replies|
    ensures forall i | 0 <= i < k :: replies[i] == Accepted
    ensures k < |replies| ==> replies[k] != Accepted
  {
    if replies == [] || replies[0] != Accepted then 0 else 1 + FirstRefusal(replies[1..])
  }

  /** The engine after submission, when the kernel answers the URBs with `replies`. */
  function Submission(mem: seq<byte>, replies: seq<Reply>): Engine
    requires |replies| == NumUrbs(|mem|)
  {
    var n, k := |replies|, FirstRefusal(replies);
    Engine(mem, 0,
           if 0 < k < n then n - k else 0,
           if k == 0 || k == n then Normal else if replies[k] == Short then CompletedEarly else SubmitFailed,
           StatusCompleted, k > 0, k, 0)
  }

  function Finish(e: Engine): (Engine, Report) {
    (e.(live := false), if e.action == Cancelled then Cancellation else Completion(e.status))
  }

  function FirstStatus(e: Engine, status: TransferStatus): Engine {
    if e.status == StatusCompleted then e.(status := status) else e
  }

  /** Discard the URBs that are left, and finish if there are none. */
  function CancelRemaining(e: Engine): (Engine, Report) {
    if e.retired == e.N() then Finish(e) else (e, Pending)
  }

  /** A transfer that has been given up is reported when its last URB is back. */
  function SettleAbnormal(e: Engine): (Engine, Report) {
    if e.retired == e.N() then Finish(if e.action != CompletedEarly then FirstStatus(e, StatusError) else e)
    else (e, Pending)
  }

  /** Whether a URB's data is added to the transfer. */
  predicate Counted(action: ReapAction, status: UrbStatus, actual: nat) {
    action != Normal || status == Success || status == ShortRead || (status == Overflowed && actual > 0)
  }

  /** What the kernel may say about the URB it gives back next. */
  predicate CanReap(e: Engine, status: UrbStatus, actual: nat) {
    && e.live && e.reaped < e.submitted
    && actual <= UrbLength(|e.mem|, e.reaped)
    && (status == Overflowed ==> e.reaped == e.N() - 1)
  }

  /** The data of a URB of an abandoned transfer is kept, behind what there is already. */
  function KeepSurplus(e: Engine, actual: nat): Engine
    requires e.transferred + actual <= |e.mem| && UrbOffset(e.reaped) + actual <= |e.mem|
  {
    e.(retired := e.retired + 1, reaped := e.reaped + 1, transferred := e.transferred + actual,
       mem := Move(e.mem, e.transferred, UrbOffset(e.reaped), actual))
  }

  /** The URB is counted as retired, and its data added if there is any to add. */
  function Count(e: Engine, status: UrbStatus, actual: nat): Engine {
    e.(retired := e.retired + 1, reaped := e.reaped + 1,
       transferred := if Counted(e.action, status, actual) then e.transferred + actual else e.transferred)
  }

  /** What the status of the URB that has just been counted means for the transfer. */
  function SettleNormal(e: Engine, status: UrbStatus, short: bool): (Engine, Report) {
    match status
    case Stalled => CancelRemaining(FirstStatus(e, StatusStall))
    case Overflowed => Finish(FirstStatus(e, StatusOverflow))
    case BusError => CancelRemaining(FirstStatus(e.(action := LowLevelError), StatusError))
    case Unrecognised => CancelRemaining(FirstStatus(e, StatusError))
    case Success | ShortRead =>
      if e.reaped == e.N() then Finish(e)
      else if short then CancelRemaining(e.(action := CompletedEarly))
      else (e, Pending)
  }

  /** One call of handle_bulk_completion. */
  function Reap(e: Engine, status: UrbStatus, actual: nat): (Engine, Report)
    requires e.Valid() && CanReap(e, status, actual)
  {
    UrbsTile(|e.mem|, e.reaped);
    if e.action != Normal then SettleAbnormal(KeepSurplus(e, actual))
    else SettleNormal(Count(e, status, actual), status, actual < UrbLength(|e.mem|, e.reaped))
  }

  /** One call of cancel_bulk_transfer; it finds nothing to cancel when no URB is allocated. */
  function Cancel(e: Engine): Engine {
    if e.live && e.action != LowLevelError then e.(action := Cancelled) else e
  }

  // ---------------------------------------------------------------- every step keeps the engine valid

  lemma SubmissionValid(mem: seq<byte>, replies: seq<Reply>)
    requires |replies| == NumUrbs(|mem|)
    ensures Submission(mem, replies).Valid()
    ensures !Submission(mem, replies).live <==> replies[0] != Accepted
  {
  }

  /** The memory and the data count after a reap do not depend on the URB's error. */
  lemma ReapData(e: Engine, status: UrbStatus, actual: nat)
    requires e.Valid() && CanReap(e, status, actual)
    ensures UrbOffset(e.reaped) + actual <= |e.mem| && e.transferred <= UrbOffset(e.reaped)
    ensures var e' := Reap(e, status, actual).0;
      && e'.mem == (if e.action == Normal then e.mem else Move(e.mem, e.transferred, UrbOffset(e.reaped), actual))
      && e'.transferred == e.transferred + (if Counted(e.action, status, actual) then actual else 0)
      && e'.reaped == e.reaped + 1 && e'.submitted == e.submitted
  {
    UrbsTile(|e.mem|, e.reaped);
    if e.action == Normal { NormalReapData(e, status, actual); }
  }

  lemma NormalReapData(e: Engine, status: UrbStatus, actual: nat)
    requires e.Valid() && CanReap(e, status, actual) && e.action == Normal
    ensures var e' := Reap(e, status, actual).0;
      && e'.mem == e.mem && e'.reaped == e.reaped + 1 && e'.submitted == e.submitted
      && e'.transferred == e.transferred + (if Counted(e.action, status, actual) then actual else 0)
  {
  }

  /** In NORMAL mode the data of good and short URBs counts, and of the one that overflows; once the transfer
      has been given up, that of any. */
  lemma ReapCounts(e: Engine, status: UrbStatus, actual: nat)
    requires e.Valid() && CanReap(e, status, actual)
    ensures Reap(e, status, actual).0.transferred - e.transferred
      == if e.action != Normal || status == Success || status == ShortRead || status == Overflowed then actual else 0
  {
    ReapData(e, status, actual);
  }

  /** Reporting happens at precisely the reap that retires the last URB. */
  lemma ReapRetires(e: Engine, status: UrbStatus, actual: nat)
    requires e.Valid() && CanReap(e, status, actual)
    ensures var (e', r) := Reap(e, status, actual);
      && e'.retired == e.retired + 1
      && (r.Pending? <==> e'.retired < e.N()) && (r.Pending? <==> e'.live)
      && (e'.live && e'.action == Normal ==> e.action == Normal)
  {
    UrbsTile(|e.mem|, e.reaped);
  }

  /** Data stays within the regions of reaped URBs, the moved data comes from at or after its
      target, and no byte of a URB that the kernel still owns is touched. */
  lemma ReapFrame(e: Engine, status: UrbStatus, actual: nat)
    requires e.Valid() && CanReap(e, status, actual)
    ensures var e' := Reap(e, status, actual).0;
      && |e'.mem| == |e.mem|
      && e.transferred <= UrbOffset(e.reaped)
      && e.transferred <= e'.transferred <= e'.Frontier() <= |e.mem|
      && e'.mem[e'.Frontier()..] == e.mem[e'.Frontier()..]
      && e'.mem[..e.transferred] == e.mem[..e.transferred]
  {
    ReapData(e, status, actual);
    UrbsTile(|e.mem|, e.reaped);
    var e' := Reap(e, status, actual).0;
    assert e.transferred + actual <= e'.Frontier();
    assert e'.mem[e.transferred + actual..] == e.mem[e.transferred + actual..];
    SliceSuffix(e.mem, e'.mem, e.transferred + actual, e'.Frontier());
  }

  lemma SliceSuffix(a: seq<byte>, b: seq<byte>, i: nat, j: nat)
    requires |a| == |b| && i <= j <= |a| && a[i..] == b[i..]
    ensures a[j..] == b[j..]
  {
    assert a[j..] == a[i..][j - i..];
    assert b[j..] == b[i..][j - i..];
  }

  lemma ReapValid(e: Engine, status: UrbStatus, actual: nat)
    requires e.Valid() && CanReap(e, status, actual)
    ensures Reap(e, status, actual).0.Valid()
  {
    ReapData(e, status, actual);
    ReapRetires(e, status, actual);
    ReapFrame(e, status, actual);
  }

  // ---------------------------------------------------------------- whole runs

  datatype Event = Reaped(status: UrbStatus, actual: nat) | UserCancel

  /** The kernel gives back only what it has, and it may say about each URB what it likes. */
  predicate Possible(e: Engine, event: Event) {
    event.Reaped? ==> CanReap(e, event.status, event.actual)
  }

  function Step(e: Engine, event: Event): (Engine, Report)
    requires e.Valid() && Possible(e, event)
  {
    match event
    case UserCancel => (Cancel(e), Pending)
    case Reaped(status, actual) => Reap(e, status, actual)
  }

  function After(e: Engine, event: Event): (e': Engine)
    requires e.Valid() && Possible(e, event)
    ensures e'.Valid() && |e'.mem| == |e.mem|
  {
    if event.Reaped? then
      ReapValid(e, event.status, event.actual);
      ReapFrame(e, event.status, event.actual);
      Step(e, event).0
    else Step(e, event).0
  }

  ghost predicate IsRun(e: Engine, events: seq<Event>)
    requires e.Valid()
    decreases |events|
  {
    events == [] || (Possible(e, events[0]) && IsRun(After(e, events[0]), events[1..]))
  }

  /** The engine at the end of a run. */
  ghost function Final(e: Engine, events: seq<Event>): (e': Engine)
    requires e.Valid() && IsRun(e, events)
    ensures e'.Valid() && |e'.mem| == |e.mem|
    decreases |events|
  {
    if events == [] then e else Final(After(e, events[0]), events[1..])
  }

  /** What the engine reports in the course of a run. */
  ghost function Reports(e: Engine, events: seq<Event>): seq<Report>
    requires e.Valid() && IsRun(e, events)
    decreases |events|
  {
    if events == [] then []
    else
      (if Step(e, events[0]).1.Pending? then [] else [Step(e, events[0]).1])
      + Reports(After(e, events[0]), events[1..])
  }

  lemma StepReports(e: Engine, event: Event)
    requires e.Valid() && Possible(e, event)
    ensures var e' := After(e, event);
      && e'.submitted == e.submitted && e.reaped <= e'.reaped
      && (e'.live ==> e.live)
      && (Step(e, event).1.Pending? <==> e'.live == e.live)
  {
    if event.Reaped? {
      ReapRetires(e, event.status, event.actual);
      ReapData(e, event.status, event.actual);
    }
  }

  /** A transfer in flight is reported exactly once: not while the kernel owns any of its URBs, and
      always when the kernel has given back the last one (Valid says that the engine is live exactly
      until then). A transfer that is not in flight is not reported. */
  lemma {:induction false} ReportedExactlyOnce(e: Engine, events: seq<Event>)
    requires e.Valid() && IsRun(e, events)
    ensures var e' := Final(e, events);
      && e'.submitted == e.submitted && e.reaped <= e'.reaped
      && (e'.live ==> e.live)
      && |Reports(e, events)| == if e.live && !e'.live then 1 else 0
    decreases |events|
  {
    if events != [] {
      StepReports(e, events[0]);
      ReportedExactlyOnce(After(e, events[0]), events[1..]);
    }
  }

  /** A transfer whose first URB is refused is never reported; every other one is reported exactly
      once, at the moment the kernel has given back every URB that it had accepted. */
  lemma SubmissionReported(mem: seq<byte>, replies: seq<Reply>, events: seq<Event>)
    requires |replies| == NumUrbs(|mem|)
    requires Submission(mem, replies).Valid() && IsRun(Submission(mem, replies), events)
    ensures var start := Submission(mem, replies); var reaped := Final(start, events).reaped;
      |Reports(start, events)| == if 0 < reaped == FirstRefusal(replies) then 1 else 0
    ensures Final(Submission(mem, replies), events).reaped <= FirstRefusal(replies)
  {
    ReportedExactlyOnce(Submission(mem, replies), events);
  }

  // ---------------------------------------------------------------- received data

  /** The data that an event adds to the transfer, as it came from the device. */
  function Payload(mem: seq<byte>, e: Engine, event: Event): seq<byte>
    requires e.Valid() && |mem| == |e.mem| && Possible(e, event)
  {
    match event
    case UserCancel => []
    case Reaped(status, actual) =>
      UrbsTile(|mem|, e.reaped);
      if Counted(e.action, status, actual) then mem[UrbOffset(e.reaped)..][..actual] else []
  }

  /** The data of the counted URBs in the order of the URBs. */
  ghost function Payloads(mem: seq<byte>, e: Engine, events: seq<Event>): seq<byte>
    requires e.Valid() && |mem| == |e.mem| && IsRun(e, events)
    decreases |events|
  {
    if events == [] then [] else Payload(mem, e, events[0]) + Payloads(mem, After(e, events[0]), events[1..])
  }

  /** A stalled or unrecognised URB leaves the engine in NORMAL mode and its part of the buffer unused. */
  predicate LeavesHole(e: Engine, event: Event) {
    e.action == Normal && event.Reaped? && (event.status == Stalled || event.status == Unrecognised)
  }

  /** Data is added behind a hole in NORMAL mode, where nothing is moved. */
  predicate AddsBehindHole(e: Engine, hole: bool, event: Event) {
    hole && e.action == Normal && event.Reaped? && Counted(Normal, event.status, event.actual) && event.actual > 0
  }

  /** No URB brings data after a URB that stalled or failed for an unrecognised reason, unless the
      engine has left NORMAL mode in between. */
  ghost predicate Clean(e: Engine, hole: bool, events: seq<Event>)
    requires e.Valid() && IsRun(e, events)
    decreases |events|
  {
    events == [] ||
    (!AddsBehindHole(e, hole, events[0]) && Clean(After(e, events[0]), hole || LeavesHole(e, events[0]), events[1..]))
  }

  /** In NORMAL mode data is in place exactly as long as no URB has left a hole. */
  ghost predicate Placed(e: Engine, hole: bool) {
    e.live && e.action == Normal ==>
      if hole then e.transferred < UrbOffset(e.reaped) else e.transferred == UrbOffset(e.reaped)
  }

  lemma StepPlaces(e: Engine, hole: bool, event: Event)
    requires e.Valid() && Possible(e, event) && Placed(e, hole) && !AddsBehindHole(e, hole, event)
    ensures Placed(After(e, event), hole || LeavesHole(e, event))
  {
    if event.Reaped? {
      UrbsTile(|e.mem|, e.reaped);
      ReapData(e, event.status, event.actual);
    }
  }

  /** The kernel's part of the buffer still holds what the device sent. */
  ghost predicate Untouched(mem: seq<byte>, e: Engine) {
    |mem| == |e.mem| && e.Frontier() <= |mem| && e.mem[e.Frontier()..] == mem[e.Frontier()..]
  }

  lemma StepLeavesUntouched(mem: seq<byte>, e: Engine, event: Event)
    requires e.Valid() && Possible(e, event) && Untouched(mem, e)
    ensures Untouched(mem, After(e, event))
  {
    if event.Reaped? {
      UrbsTile(|e.mem|, e.reaped);
      ReapData(e, event.status, event.actual);
      ReapFrame(e, event.status, event.actual);
      SliceSuffix(e.mem, mem, e.Frontier(), After(e, event).Frontier());
    }
  }

  /** What a step adds to the data is the payload. */
  lemma StepAdds(mem: seq<byte>, e: Engine, hole: bool, event: Event)
    requires e.Valid() && Possible(e, event) && Placed(e, hole) && !AddsBehindHole(e, hole, event)
    requires Untouched(mem, e)
    ensures var e' := After(e, event);
      e'.mem[..e'.transferred] == e.mem[..e.transferred] + Payload(mem, e, event)
  {
    if event.Reaped? {
      UrbsTile(|e.mem|, e.reaped);
      ReapData(e, event.status, event.actual);
      ReapFrame(e, event.status, event.actual);
      SlicePrefix(e.mem, mem, UrbOffset(e.reaped), event.actual);
    }
  }

  lemma SlicePrefix(a: seq<byte>, b: seq<byte>, i: nat, n: nat)
    requires |a| == |b| && i + n <= |a| && a[i..] == b[i..]
    ensures a[i..i + n] == b[i..][..n]
  {
    assert a[i..i + n] == a[i..][..n];
  }

  /** In a clean run the first `transferred` bytes of the buffer are the payloads of the counted
      URBs in order, with no byte lost and no hole; URBs not yet reaped are untouched. */
  lemma {:induction false} DataIntact(mem: seq<byte>, e: Engine, hole: bool, events: seq<Event>)
    requires e.Valid() && IsRun(e, events) && Clean(e, hole, events) && Placed(e, hole) && Untouched(mem, e)
    ensures var e' := Final(e, events);
      && e'.mem[..e'.transferred] == e.mem[..e.transferred] + Payloads(mem, e, events)
      && Untouched(mem, e')
    decreases |events|
  {
    if events != [] {
      var e1 := StepIntact(mem, e, hole, events[0]);
      DataIntact(mem, e1, hole || LeavesHole(e, events[0]), events[1..]);
      Associative(e.mem[..e.transferred], Payload(mem, e, events[0]), Payloads(mem, e1, events[1..]));
    }
  }

  lemma StepIntact(mem: seq<byte>, e: Engine, hole: bool, event: Event) returns (e1: Engine)
    requires e.Valid() && Possible(e, event) && Placed(e, hole) && !AddsBehindHole(e, hole, event)
    requires Untouched(mem, e)
    ensures e1 == After(e, event) && Placed(e1, hole || LeavesHole(e, event)) && Untouched(mem, e1)
    ensures e1.mem[..e1.transferred] == e.mem[..e.transferred] + Payload(mem, e, event)
  {
    e1 := After(e, event);
    StepPlaces(e, hole, event);
    StepAdds(mem, e, hole, event);
    StepLeavesUntouched(mem, e, event);
  }

  lemma Associative(a: seq<byte>, b: seq<byte>, c: seq<byte>)
    ensures (a + b) + c == a + (b + c)
  {
  }

  // ---------------------------------------------------------------- exactly when data stays intact

  lemma StepGrows(mem: seq<byte>, e: Engine, event: Event)
    requires e.Valid() && |mem| == |e.mem| && Possible(e, event)
    ensures var e1 := After(e, event);
      && e1.transferred == e.transferred + |Payload(mem, e, event)|
      && e1.mem[..e.transferred] == e.mem[..e.transferred]
      && (e.action == Normal ==> e1.mem == e.mem)
      && (e1.live && e1.action == Normal ==> e.live && e.action == Normal)
  {
    if event.Reaped? {
      UrbsTile(|e.mem|, e.reaped);
      ReapData(e, event.status, event.actual);
      ReapRetires(e, event.status, event.actual);
      ReapFrame(e, event.status, event.actual);
    }
  }

  /** Data once received is never changed again, and none of it is lost. */
  lemma {:induction false} DataGrows(mem: seq<byte>, e: Engine, events: seq<Event>)
    requires e.Valid() && |mem| == |e.mem| && IsRun(e, events)
    ensures Final(e, events).transferred == e.transferred + |Payloads(mem, e, events)|
    ensures Final(e, events).mem[..e.transferred] == e.mem[..e.transferred]
    decreases |events|
  {
    if events != [] {
      var e1 := After(e, events[0]);
      StepGrows(mem, e, events[0]);
      DataGrows(mem, e1, events[1..]);
      PrefixTransitive(e.mem, e1.mem, Final(e1, events[1..]).mem, e.transferred, e1.transferred);
    }
  }

  lemma PrefixTransitive(a: seq<byte>, b: seq<byte>, c: seq<byte>, i: nat, j: nat)
    requires i <= j && j <= |a| && |a| == |b| == |c| && a[..i] == b[..i] && b[..j] == c[..j]
    ensures a[..i] == c[..i]
  {
    assert b[..i] == b[..j][..i];
    assert c[..i] == c[..j][..i];
  }

  lemma {:induction false} OnlyNormalModeIsUnclean(e: Engine, hole: bool, events: seq<Event>)
    requires e.Valid() && IsRun(e, events) && !(e.live && e.action == Normal)
    ensures Clean(e, hole, events)
    decreases |events|
  {
    if events != [] {
      StepGrows(e.mem, e, events[0]);
      OnlyNormalModeIsUnclean(After(e, events[0]), hole || LeavesHole(e, events[0]), events[1..]);
    }
  }

  /** The URB whose data is the first to be added behind a hole. */
  ghost function Culprit(e: Engine, hole: bool, events: seq<Event>): nat
    requires e.Valid() && IsRun(e, events) && !Clean(e, hole, events)
    decreases |events|
  {
    if AddsBehindHole(e, hole, events[0]) then e.reaped
    else Culprit(After(e, events[0]), hole || LeavesHole(e, events[0]), events[1..])
  }

  /** A buffer in which only the first byte of one URB differs from zero. */
  ghost predicate Marks(mem: seq<byte>, urb: nat) {
    forall k | 0 <= k < |mem| :: mem[k] == if k == UrbOffset(urb) then 1 else 0
  }

  /** If a run is not clean, the marked byte of the culprit is missing from its place. */
  lemma {:induction false} MarkMissing(mem: seq<byte>, e: Engine, hole: bool, events: seq<Event>) returns (k: nat)
    requires e.Valid() && IsRun(e, events) && Placed(e, hole) && e.mem == mem && !Clean(e, hole, events)
    requires Marks(mem, Culprit(e, hole, events))
    ensures k < |Payloads(mem, e, events)| && Payloads(mem, e, events)[k] == 1
    ensures e.transferred + k < |Final(e, events).mem| && Final(e, events).mem[e.transferred + k] == 0
    decreases |events|
  {
    if AddsBehindHole(e, hole, events[0]) {
      k := 0;
      MarkMissingNow(mem, e, hole, events);
    } else {
      var e1, hole1 := StepToCulprit(mem, e, hole, events);
      var k1 := MarkMissing(mem, e1, hole1, events[1..]);
      k := e1.transferred - e.transferred + k1;
      BehindPayload(Payloads(mem, e, events), Payload(mem, e, events[0]), Payloads(mem, e1, events[1..]), k1);
      assert e.transferred + k == e1.transferred + k1;
    }
  }

  lemma BehindPayload(all: seq<byte>, first: seq<byte>, rest: seq<byte>, k: nat)
    requires all == first + rest && k < |rest|
    ensures |first| + k < |all| && all[|first| + k] == rest[k]
  {
  }

  lemma StepToCulprit(mem: seq<byte>, e: Engine, hole: bool, events: seq<Event>) returns (e1: Engine, hole1: bool)
    requires e.Valid() && IsRun(e, events) && Placed(e, hole) && e.mem == mem && !Clean(e, hole, events)
    requires !AddsBehindHole(e, hole, events[0])
    ensures e1.Valid() && IsRun(e1, events[1..]) && Placed(e1, hole1) && e1.mem == mem && !Clean(e1, hole1, events[1..])
    ensures Culprit(e, hole, events) == Culprit(e1, hole1, events[1..])
    ensures e.transferred <= e1.transferred && Final(e, events) == Final(e1, events[1..])
    ensures Payloads(mem, e, events) == Payload(mem, e, events[0]) + Payloads(mem, e1, events[1..])
    ensures |Payload(mem, e, events[0])| == e1.transferred - e.transferred
  {
    e1, hole1 := After(e, events[0]), hole || LeavesHole(e, events[0]);
    if !(e.live && e.action == Normal) { OnlyNormalModeIsUnclean(e, hole, events); }
    StepGrows(mem, e, events[0]);
    StepPlaces(e, hole, events[0]);
  }

  lemma MarkMissingNow(mem: seq<byte>, e: Engine, hole: bool, events: seq<Event>)
    requires e.Valid() && IsRun(e, events) && Placed(e, hole) && e.mem == mem
    requires events != [] && AddsBehindHole(e, hole, events[0]) && Marks(mem, e.reaped)
    ensures |Payloads(mem, e, events)| > 0 && Payloads(mem, e, events)[0] == 1
    ensures e.transferred < |mem| && Final(e, events).mem[e.transferred] == 0
  {
    var e1, rest := After(e, events[0]), events[1..];
    UrbsTile(|mem|, e.reaped);
    StepGrows(mem, e, events[0]);
    DataGrows(mem, e1, rest);
    assert Payload(mem, e, events[0])[0] == 1;
    assert Final(e1, rest).mem[..e1.transferred][e.transferred] == e1.mem[..e1.transferred][e.transferred];
  }

  /** What the engine decides does not depend on the bytes in the buffer. */
  lemma StepIgnoresBytes(e: Engine, event: Event, mem: seq<byte>) returns (mem': seq<byte>)
    requires e.Valid() && |mem| == |e.mem| && Possible(e, event)
    ensures e.(mem := mem).Valid() && Possible(e.(mem := mem), event)
    ensures |mem'| == |mem| && After(e.(mem := mem), event) == After(e, event).(mem := mem')
  {
    var f := e.(mem := mem);
    if event.Reaped? {
      if e.action == Normal {
        NormalReapIgnoresBytes(e, event.status, event.actual, mem);
      } else {
        AbnormalReapIgnoresBytes(e, event.status, event.actual, mem);
      }
    }
    mem' := After(f, event).mem;
  }

  lemma NormalReapIgnoresBytes(e: Engine, status: UrbStatus, actual: nat, mem: seq<byte>)
    requires e.Valid() && |mem| == |e.mem| && CanReap(e, status, actual) && e.action == Normal
    ensures Reap(e.(mem := mem), status, actual).0 == Reap(e, status, actual).0.(mem := mem)
  {
    match status
    case Success =>
    case _ =>
  }

  lemma AbnormalReapIgnoresBytes(e: Engine, status: UrbStatus, actual: nat, mem: seq<byte>)
    requires e.Valid() && |mem| == |e.mem| && CanReap(e, status, actual) && e.action != Normal
    ensures var e' := Reap(e.(mem := mem), status, actual).0;
      e' == Reap(e, status, actual).0.(mem := e'.mem)
  {
  }

  lemma {:induction false} RunIgnoresBytes(e: Engine, hole: bool, events: seq<Event>, mem: seq<byte>)
    requires e.Valid() && |mem| == |e.mem| && IsRun(e, events)
    ensures var f := e.(mem := mem);
      && f.Valid() && IsRun(f, events) && (Clean(f, hole, events) <==> Clean(e, hole, events))
      && (!Clean(e, hole, events) ==> Culprit(f, hole, events) == Culprit(e, hole, events))
    decreases |events|
  {
    if events != [] {
      var mem' := StepIgnoresBytes(e, events[0], mem);
      RunIgnoresBytes(After(e, events[0]), hole || LeavesHole(e, events[0]), events[1..], mem');
    }
  }

  /** The data that a transfer reports is what the device sent. */
  ghost predicate Intact(mem: seq<byte>, replies: seq<Reply>, events: seq<Event>)
    requires |replies| == NumUrbs(|mem|)
  {
    var start := Submission(mem, replies);
    start.Valid() && IsRun(start, events) &&
    Final(start, events).mem[..Final(start, events).transferred] == Payloads(mem, start, events)
  }

  /** The data that the transfer reports is what the device sent, whatever the device sends. */
  ghost predicate AlwaysIntact(length: nat, replies: seq<Reply>, events: seq<Event>)
    requires |replies| == NumUrbs(length)
  {
    forall sent: seq<byte> | |sent| == length :: Intact(sent, replies, events)
  }

  /** For a given course of events, the reported data is always intact exactly when the run is clean. */
  lemma IntactIffClean(mem: seq<byte>, replies: seq<Reply>, events: seq<Event>)
    requires |replies| == NumUrbs(|mem|)
    requires Submission(mem, replies).Valid() && IsRun(Submission(mem, replies), events)
    ensures Clean(Submission(mem, replies), false, events) <==> AlwaysIntact(|mem|, replies, events)
  {
    var clean := Clean(Submission(mem, replies), false, events);
    if clean {
      CleanIsAlwaysIntact(mem, replies, events);
    } else {
      var sent := UncleanIsNotIntact(mem, replies, events);
      NotAlways(|mem|, replies, events, sent);
    }
  }

  lemma NotAlways(length: nat, replies: seq<Reply>, events: seq<Event>, sent: seq<byte>)
    requires |replies| == NumUrbs(length) && |sent| == length && !Intact(sent, replies, events)
    ensures !AlwaysIntact(length, replies, events)
  {
  }

  lemma CleanIsAlwaysIntact(mem: seq<byte>, replies: seq<Reply>, events: seq<Event>)
    requires |replies| == NumUrbs(|mem|)
    requires Submission(mem, replies).Valid() && IsRun(Submission(mem, replies), events)
    requires Clean(Submission(mem, replies), false, events)
    ensures AlwaysIntact(|mem|, replies, events)
  {
    forall sent: seq<byte> | |sent| == |mem| ensures Intact(sent, replies, events) {
      CleanIsIntact(mem, replies, events, sent);
    }
  }

  lemma CleanIsIntact(mem: seq<byte>, replies: seq<Reply>, events: seq<Event>, sent: seq<byte>)
    requires |replies| == NumUrbs(|mem|) && |sent| == |mem|
    requires Submission(mem, replies).Valid() && IsRun(Submission(mem, replies), events)
    requires Clean(Submission(mem, replies), false, events)
    ensures Intact(sent, replies, events)
  {
    var start, s := Submission(mem, replies), Submission(sent, replies);
    assert s == start.(mem := sent);
    RunIgnoresBytes(start, false, events, sent);
    DataIntact(sent, s, false, events);
  }

  lemma DiffersAt(mem: seq<byte>, n: nat, data: seq<byte>, k: nat)
    requires k < n <= |mem| && n == |data| && mem[k] != data[k]
    ensures mem[..n] != data
  {
    assert mem[..n][k] != data[k];
  }

  lemma UncleanIsNotIntact(mem: seq<byte>, replies: seq<Reply>, events: seq<Event>) returns (sent: seq<byte>)
    requires |replies| == NumUrbs(|mem|)
    requires Submission(mem, replies).Valid() && IsRun(Submission(mem, replies), events)
    requires !Clean(Submission(mem, replies), false, events)
    ensures |sent| == |mem|
    ensures !Intact(sent, replies, events)
  {
    var start := Submission(mem, replies);
    var urb := Culprit(start, false, events);
    sent := seq(|mem|, k => if k == UrbOffset(urb) then 1 else 0);
    var s := Submission(sent, replies);
    assert s == start.(mem := sent);
    RunIgnoresBytes(start, false, events, sent);
    var k := MarkMissing(sent, s, false, events);
    DataGrows(sent, s, events);
    DiffersAt(Final(s, events).mem, Final(s, events).transferred, Payloads(sent, s, events), k);
  }

  /** The shortest run that is not clean: the first of three URBs stalls, and the second succeeds. */
  lemma StalledThenSuccess() returns (mem: seq<byte>, replies: seq<Reply>, events: seq<Event>)
    ensures |mem| == 3 * MAX_BULK_BUFFER_LENGTH && |replies| == NumUrbs(|mem|)
    ensures Submission(mem, replies).Valid() && IsRun(Submission(mem, replies), events)
    ensures !Clean(Submission(mem, replies), false, events)
  {
    mem := seq(3 * MAX_BULK_BUFFER_LENGTH, _ => 0);
    replies := [Accepted, Accepted, Accepted];
    events := [Reaped(Stalled, 0), Reaped(Success, 1)];
    SubmissionValid(mem, replies);
    var start := Submission(mem, replies);
    assert FirstRefusal(replies) == 3 by {
      assert replies[1..][1..] == [Accepted];
    }
    var e1 := After(start, events[0]);
    assert events[1..] == [events[1]] && events[1..][1..] == [];
    assert e1.action == Normal && e1.live && e1.reaped == 1 && CanReap(e1, Success, 1);
    assert IsRun(e1, events[1..]);
  }

  // ---------------------------------------------------------------- the reported status

  /** The event is no cancellation of a transfer in flight and no error in NORMAL mode. */
  predicate IsSmooth(e: Engine, event: Event) {
    match event
    case UserCancel => !e.live
    case Reaped(status, _) => e.action == Normal ==> status == Success || status == ShortRead
  }

  ghost predicate Smooth(e: Engine, events: seq<Event>)
    requires e.Valid() && IsRun(e, events)
    decreases |events|
  {
    events == [] || (IsSmooth(e, events[0]) && Smooth(After(e, events[0]), events[1..]))
  }

  predicate NoTroubleYet(e: Engine) {
    e.status == StatusCompleted && (e.action == Normal || e.action == CompletedEarly)
  }

  lemma StepStatus(e: Engine, event: Event)
    requires e.Valid() && e.live && Possible(e, event)
    ensures var (e1, r) := Step(e, event);
      if r.Pending? then NoTroubleYet(e1) <==> NoTroubleYet(e) && IsSmooth(e, event)
      else r == Completion(StatusCompleted) <==> NoTroubleYet(e) && IsSmooth(e, event)
  {
  }

  lemma {:induction false} IdleEngineIsQuiet(e: Engine, events: seq<Event>)
    requires e.Valid() && !e.live && IsRun(e, events)
    ensures Reports(e, events) == [] && Smooth(e, events)
    decreases |events|
  {
    if events != [] {
      IdleEngineIsQuiet(After(e, events[0]), events[1..]);
    }
  }

  /** The user is told COMPLETED exactly when no cancellation and no error in NORMAL mode has come in
      between, and submission either went through or stopped because the device had already sent
      everything. */
  lemma {:induction false} CompletedIffSmooth(e: Engine, events: seq<Event>)
    requires e.Valid() && e.live && IsRun(e, events) && Reports(e, events) != []
    ensures Reports(e, events)[0] == Completion(StatusCompleted) <==> NoTroubleYet(e) && Smooth(e, events)
    decreases |events|
  {
    var e1 := After(e, events[0]);
    StepStatus(e, events[0]);
    StepReports(e, events[0]);
    if e1.live {
      CompletedIffSmooth(e1, events[1..]);
    } else {
      IdleEngineIsQuiet(e1, events[1..]);
    }
  }

  // ---------------------------------------------------------------- the backend's object

  /** struct usbfs_urb, as far as the engine fills it in. */
  datatype Urb = Urb(offset: nat, length: nat, shortNotOk: bool, continuation: bool)

  function UrbAt(length: nat, i: nat, isOut: bool, continuations: bool): Urb {
    Urb(UrbOffset(i), UrbLength(length, i), continuations && !isOut, continuations && i > 0)
  }

  function Range(lo: nat, hi: nat): (r: seq<nat>)
    requires lo <= hi
    ensures |r| == hi - lo && forall k | 0 <= k < |r| :: r[k] == lo + k
  {
    seq(hi - lo, k requires 0 <= k => lo + k)
  }

  lemma {:induction false} FirstRefusalAt(replies: seq<Reply>, i: nat)
    requires i <= |replies| && (i < |replies| ==> replies[i] != Accepted)
    requires forall k | 0 <= k < i :: replies[k] == Accepted
    ensures FirstRefusal(replies) == i
  {
    if i > 0 {
      FirstRefusalAt(replies[1..], i - 1);
    }
  }

  /** After which events the rest of the URBs is discarded: after a short URB or an error in NORMAL
      mode, but the kernel itself takes care of URBs that carry the continuation flag. */
  function DiscardsAfter(e: Engine, e': Engine, status: UrbStatus, actual: nat, continuations: bool): seq<nat> {
    if e.action == Normal && e'.live && e'.reaped <= e.N() && !continuations &&
       (status == Stalled || status == BusError || status == Unrecognised || e'.action == CompletedEarly)
    then Range(e'.reaped, e.N()) else []
  }

  /** A short read is an error to the kernel for IN transfers only, and a URB continues the one before; both
      only if the kernel knows these flags. */
  lemma UrbFlags(length: nat, i: nat, isOut: bool, continuations: bool)
    requires i < NumUrbs(length)
    ensures var urb := UrbAt(length, i, isOut, continuations);
      && urb.offset == i * 16384 && urb.length == (if length - i * 16384 < 16384 then length - i * 16384 else 16384)
      && (urb.shortNotOk <==> continuations && !isOut) && (urb.continuation <==> continuations && i > 0)
  {
    UrbsTile(length, i);
  }

  /** The URBs behind the one that was reaped are discarded, unless the kernel does it or the transfer is
      over, exactly if that URB was the first to fail or was short with others behind it. */
  lemma DiscardsRest(e: Engine, status: UrbStatus, actual: nat, continuations: bool)
    requires e.Valid() && CanReap(e, status, actual)
    ensures var discards := DiscardsAfter(e, Reap(e, status, actual).0, status, actual, continuations);
      forall k :: k in discards <==>
        && e.action == Normal && !continuations && e.reaped < k < NumUrbs(|e.mem|)
        && (status == Stalled || status == BusError || status == Unrecognised
            || ((status == Success || status == ShortRead) && actual < UrbLength(|e.mem|, e.reaped)))
  {
    RangeMembers(e.reaped + 1, e.N());
    if e.action == Normal { AfterNormal(e, status, actual); }
  }

  lemma RangeMembers(lo: nat, hi: nat)
    ensures lo <= hi ==> forall k :: k in Range(lo, hi) <==> lo <= k < hi
  {
    if lo <= hi {
      forall k | lo <= k < hi ensures k in Range(lo, hi) { assert Range(lo, hi)[k - lo] == k; }
    }
  }

  lemma AfterNormal(e: Engine, status: UrbStatus, actual: nat)
    requires e.Valid() && CanReap(e, status, actual) && e.action == Normal
    ensures var e' := Reap(e, status, actual).0;
      && e'.reaped == e.reaped + 1 && e'.N() == e.N() && (e'.live <==> e.reaped + 1 < e.N())
      && (e'.action == CompletedEarly <==>
            && (status == Success || status == ShortRead) && e.reaped + 1 < e.N()
            && actual < UrbLength(|e.mem|, e.reaped))
  {
    NormalReapData(e, status, actual);
    ReapRetires(e, status, actual);
  }

  /** A bulk or interrupt transfer with the backend's private data. Methods also return the URBs
      that they ask the kernel to discard. */
  class BulkTransfer {
    const buffer: array<byte>
    const isOut: bool
    const continuations: bool   // supports_flag_bulk_continuation
    var urbs: seq<Urb>
    var hasUrbs: bool           // tpriv->urbs != NULL
    var numUrbs: nat
    var numRetired: nat
    var reapAction: ReapAction
    var reapStatus: TransferStatus
    var transferred: nat
    ghost var submitted: nat
    ghost var reaped: nat

    ghost function State(): Engine
      reads this, buffer
    {
      Engine(buffer[..], transferred, numRetired, reapAction, reapStatus, hasUrbs, submitted, reaped)
    }

    ghost predicate Valid()
      reads this, buffer
    {
      && State().Valid()
      && (hasUrbs ==>
            && numUrbs == NumUrbs(buffer.Length) && submitted <= |urbs|
            && forall i | 0 <= i < submitted :: urbs[i] == UrbAt(buffer.Length, i, isOut, continuations))
    }

    constructor (buffer: array<byte>, isOut: bool, continuations: bool)
      ensures Valid() && !hasUrbs && this.buffer == buffer
    {
      this.buffer, this.isOut, this.continuations := buffer, isOut, continuations;
      urbs, hasUrbs, numUrbs, numRetired, transferred := [], false, 0, 0, 0;
      reapAction, reapStatus := Normal, StatusCompleted;
      submitted, reaped := 0, 0;
    }

    /** libusb_submit_transfer clears `transferred` and calls submit_bulk_transfer; the kernel
        answers URB i with replies[i]. */
    method Submit(replies: seq<Reply>) returns (r: SubmitResult, discards: seq<nat>)
      requires Valid() && |replies| == NumUrbs(buffer.Length)
      modifies this
      ensures Valid()
      ensures old(hasUrbs) ==> r == ErrorBusy && State() == old(State()).(transferred := 0) && discards == []
      ensures !old(hasUrbs) ==> State() == Submission(buffer[..], replies)
      ensures !old(hasUrbs) ==>
        r == (if replies[0] == Accepted then Submitted else if replies[0] == NoDevice then ErrorNoDevice else ErrorIo)
      ensures !old(hasUrbs) ==>
        discards == if reapAction == SubmitFailed then Range(0, FirstRefusal(replies)) else []
      ensures !old(hasUrbs) ==> submitted <= |urbs|
      ensures !old(hasUrbs) ==>
        forall i | 0 <= i < submitted :: urbs[i] == UrbAt(buffer.Length, i, isOut, continuations)
    {
      transferred := 0;
      if hasUrbs {
        return ErrorBusy, [];
      }
      var lastUrbPartial := CountUrbs();
      hasUrbs, numRetired, reapAction, reapStatus, urbs := true, 0, Normal, StatusCompleted, [];
      submitted, reaped := 0, 0;
      r, discards := SubmitUrbs(replies, lastUrbPartial);
      assert State().Valid() by { SubmissionValid(buffer[..], replies); }
    }

    method CountUrbs() returns (lastUrbPartial: bool)
      modifies this`numUrbs
      ensures numUrbs == NumUrbs(buffer.Length)
      ensures lastUrbPartial == (buffer.Length % MAX_BULK_BUFFER_LENGTH > 0)
    {
      numUrbs := buffer.Length / MAX_BULK_BUFFER_LENGTH;
      lastUrbPartial := false;
      if buffer.Length == 0 {
        numUrbs := 1;
      } else if buffer.Length % MAX_BULK_BUFFER_LENGTH > 0 {
        lastUrbPartial := true;
        numUrbs := numUrbs + 1;
      }
    }

    /** The loop of submit_bulk_transfer. */
    method SubmitUrbs(replies: seq<Reply>, lastUrbPartial: bool) returns (r: SubmitResult, discards: seq<nat>)
      requires |replies| == NumUrbs(buffer.Length) == numUrbs && urbs == []
      requires lastUrbPartial == (buffer.Length % MAX_BULK_BUFFER_LENGTH > 0)
      requires State() == Engine(buffer[..], 0, 0, Normal, StatusCompleted, true, 0, 0)
      modifies this
      ensures State() == Submission(buffer[..], replies) && numUrbs == old(numUrbs) && submitted <= |urbs|
      ensures forall k | 0 <= k < submitted :: urbs[k] == UrbAt(buffer.Length, k, isOut, continuations)
      ensures r == if replies[0] == Accepted then Submitted
                   else if replies[0] == NoDevice then ErrorNoDevice else ErrorIo
      ensures discards == if reapAction == SubmitFailed then Range(0, FirstRefusal(replies)) else []
    {
      var i := 0;
      while i < numUrbs
        invariant i == |urbs| <= numUrbs == |replies|
        invariant State() == Engine(buffer[..], 0, 0, Normal, StatusCompleted, true, i, 0)
        invariant forall k | 0 <= k < i ::
          replies[k] == Accepted && urbs[k] == UrbAt(buffer.Length, k, isOut, continuations)
      {
        var urb := FillUrb(i, lastUrbPartial);
        urbs := urbs + [urb];
        if replies[i] != Accepted {
          r, discards := StopSubmitting(replies, i);
          return;
        }
        i, submitted := i + 1, submitted + 1;
      }
      FirstRefusalAt(replies, numUrbs);
      return Submitted, [];
    }

    /** The fields of URB `i`. */
    method FillUrb(i: nat, lastUrbPartial: bool) returns (urb: Urb)
      requires numUrbs == NumUrbs(buffer.Length) && lastUrbPartial == (buffer.Length % MAX_BULK_BUFFER_LENGTH > 0)
      ensures urb == UrbAt(buffer.Length, i, isOut, continuations)
    {
      var length := MAX_BULK_BUFFER_LENGTH;
      if i == numUrbs - 1 && lastUrbPartial {
        length := buffer.Length % MAX_BULK_BUFFER_LENGTH;
      } else if buffer.Length == 0 {
        length := 0;
      }
      urb := Urb(i * MAX_BULK_BUFFER_LENGTH, length, continuations && !isOut, i > 0 && continuations);
    }

    /** What submit_bulk_transfer does when the kernel does not take URB `i`. */
    method StopSubmitting(replies: seq<Reply>, i: nat) returns (r: SubmitResult, discards: seq<nat>)
      requires i < |replies| == NumUrbs(buffer.Length) == numUrbs && replies[i] != Accepted
      requires forall k | 0 <= k < i :: replies[k] == Accepted
      requires State() == Engine(buffer[..], 0, 0, Normal, StatusCompleted, true, i, 0)
      modifies this
      ensures State() == Submission(buffer[..], replies) && urbs == old(urbs) && numUrbs == old(numUrbs)
      ensures r == if i > 0 then Submitted else if replies[0] == NoDevice then ErrorNoDevice else ErrorIo
      ensures discards == if reapAction == SubmitFailed then Range(0, i) else []
      ensures FirstRefusal(replies) == i
    {
      FirstRefusalAt(replies, i);
      if i == 0 {
        hasUrbs := false;
        return if replies[0] == NoDevice then ErrorNoDevice else ErrorIo, [];
      }
      reapAction := if replies[i] == Short then CompletedEarly else SubmitFailed;
      numRetired := numRetired + (numUrbs - i);
      if reapAction == CompletedEarly {
        return Submitted, [];
      }
      return Submitted, Range(0, i);
    }

    /** cancel_bulk_transfer. */
    method CancelTransfer() returns (found: bool, discards: seq<nat>)
      requires Valid()
      modifies this
      ensures Valid() && State() == Cancel(old(State()))
      ensures found == old(hasUrbs) && discards == if found then Range(0, NumUrbs(buffer.Length)) else []
    {
      if !hasUrbs {
        return false, [];
      }
      if reapAction != LowLevelError {
        reapAction := Cancelled;
      }
      return true, Range(0, numUrbs);
    }

    /** The label `completed` at the end of handle_bulk_completion. */
    method Complete() returns (report: Report)
      requires hasUrbs
      modifies this`hasUrbs
      ensures !hasUrbs && (State(), report) == Finish(old(State()))
    {
      hasUrbs := false;
      return if reapAction == Cancelled then Cancellation else Completion(reapStatus);
    }

    /** Keep surplus data, closing any hole in front of it. */
    method AddSurplus(i: nat, actual: nat)
      requires hasUrbs && i < submitted <= |urbs| && urbs[i].offset == UrbOffset(i)
      requires transferred + actual <= buffer.Length && UrbOffset(i) + actual <= buffer.Length
      modifies this`transferred, buffer
      ensures buffer[..] == Move(old(buffer[..]), old(transferred), UrbOffset(i), actual)
      ensures transferred == old(transferred) + actual
    {
      ghost var mem := buffer[..];
      if actual > 0 {
        if urbs[i].offset != transferred {
          Memmove(buffer, transferred, urbs[i].offset, actual);
        }
        transferred := transferred + actual;
      }
      assert Move(mem, old(transferred), UrbOffset(i), actual) == buffer[..];
    }

    /** handle_bulk_completion for URB `i`, the first that the kernel has not given back before. */
    method HandleCompletion(i: nat, status: UrbStatus, actual: nat) returns (report: Report, discards: seq<nat>)
      requires Valid() && CanReap(State(), status, actual) && i == reaped
      modifies this, buffer
      ensures Valid()
      ensures (State(), report) == Reap(old(State()), status, actual)
      ensures discards == DiscardsAfter(old(State()), State(), status, actual, continuations)
    {
      ReapValid(State(), status, actual);
      ReapFrame(State(), status, actual);
      if reapAction != Normal {
        report := HandleAbnormal(i, status, actual);
        discards := [];
      } else {
        report, discards := HandleNormal(i, status, actual);
      }
    }

    method HandleAbnormal(i: nat, status: UrbStatus, actual: nat) returns (report: Report)
      requires Valid() && CanReap(State(), status, actual) && i == reaped && reapAction != Normal
      modifies this`numRetired, this`reaped, this`transferred, this`reapStatus, this`hasUrbs, buffer
      ensures (State(), report) == Reap(old(State()), status, actual)
    {
      ReapData(State(), status, actual);
      RetireAbnormal(i, actual);
      report := CompleteAbnormal();
    }

    method RetireAbnormal(i: nat, actual: nat)
      requires hasUrbs && i == reaped < submitted <= |urbs| && urbs[i].offset == UrbOffset(i)
      requires transferred + actual <= buffer.Length && UrbOffset(i) + actual <= buffer.Length
      modifies this`numRetired, this`reaped, this`transferred, buffer
      ensures State() == KeepSurplus(old(State()), actual)
    {
      numRetired, reaped := numRetired + 1, reaped + 1;
      AddSurplus(i, actual);
    }

    /** What handle_bulk_completion does for an abandoned transfer once the data is in place. */
    method CompleteAbnormal() returns (report: Report)
      requires hasUrbs && numUrbs == NumUrbs(buffer.Length)
      modifies this`reapStatus, this`hasUrbs
      ensures (State(), report) == SettleAbnormal(old(State()))
    {
      if numRetired == numUrbs {
        if reapAction != CompletedEarly && reapStatus == StatusCompleted {
          reapStatus := StatusError;
        }
        report := Complete();
      } else {
        report := Pending;
      }
    }

    method HandleNormal(i: nat, status: UrbStatus, actual: nat) returns (report: Report, discards: seq<nat>)
      requires Valid() && CanReap(State(), status, actual) && i == reaped && reapAction == Normal
      modifies this`numRetired, this`reaped, this`transferred, this`reapAction, this`reapStatus, this`hasUrbs
      ensures (State(), report) == Reap(old(State()), status, actual)
      ensures discards == DiscardsAfter(old(State()), State(), status, actual, continuations)
    {
      numRetired, reaped := numRetired + 1, reaped + 1;
      if status == Success || status == ShortRead || (status == Overflowed && actual > 0) {
        transferred := transferred + actual;
      }
      assert State() == Count(old(State()), status, actual);
      var cancelRemaining;
      report, cancelRemaining := Settle(i, status, actual < urbs[i].length);
      discards := [];
      if cancelRemaining {
        if numRetired == numUrbs {
          report := Complete();
        } else {
          discards := DiscardRemaining(i);
        }
      }
    }

    /** The switch over the status, up to the label cancel_remaining. */
    method Settle(i: nat, status: UrbStatus, short: bool) returns (report: Report, cancelRemaining: bool)
      requires hasUrbs && reaped == i + 1 && numUrbs == NumUrbs(buffer.Length)
      modifies this`reapAction, this`reapStatus, this`hasUrbs
      ensures SettleNormal(old(State()), status, short)
        == if cancelRemaining then CancelRemaining(State()) else (State(), report)
      ensures cancelRemaining ==> hasUrbs && report == Pending
      ensures cancelRemaining <==>
        || status == Stalled || status == BusError || status == Unrecognised
        || (status != Overflowed && i + 1 != numUrbs && short)
    {
      match status {
      case Success | ShortRead =>
        if i == numUrbs - 1 {
          report := Complete();
          return report, false;
        } else if short {
          reapAction := CompletedEarly;
        } else {
          return Pending, false;
        }
      case Stalled =>
        SetFirstStatus(StatusStall);
      case Overflowed =>
        SetFirstStatus(StatusOverflow);
        report := Complete();
        return report, false;
      case BusError =>
        reapAction := LowLevelError;
        SetFirstStatus(StatusError);
      case Unrecognised =>
        SetFirstStatus(StatusError);
      }
      return Pending, true;
    }

    method SetFirstStatus(status: TransferStatus)
      modifies this`reapStatus
      ensures State() == FirstStatus(old(State()), status)
    {
      if reapStatus == StatusCompleted {
        reapStatus := status;
      }
    }

    /** Ask the kernel to discard the URBs after `i` that it does not cancel by itself. */
    method DiscardRemaining(i: nat) returns (discards: seq<nat>)
      requires i < numUrbs <= |urbs|
      requires forall k | 0 <= k < numUrbs :: urbs[k].continuation == (continuations && k > 0)
      ensures discards == if continuations then [] else Range(i + 1, numUrbs)
    {
      discards := [];
      var k := i + 1;
      while k < numUrbs
        invariant i + 1 <= k <= numUrbs
        invariant discards == if continuations then [] else Range(i + 1, k)
      {
        if !urbs[k].continuation {
          discards := discards + [k];
        }
        k := k + 1;
      }
    }
  }
}
