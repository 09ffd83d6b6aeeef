/** Isochronous transfers on Linux: splitting into URBs and returning the results
(os/linux_usbfs.c: submit_iso_transfer, handle_iso_completion, cancel_iso_transfer; libusb.h:
libusb_get_iso_packet_buffer). The kernel is the environment: how many URBs it accepts, and what it
returns for each, are parameters. URBs of one transfer are reaped in submission order.
*/
module IsoEngine {
  const MAX_ISO_BUFFER_LENGTH: nat := 32768
  const TWO_TO_THE_32: nat := 0x1_0000_0000
  const INT_MAX: nat := 0x7FFF_FFFF

  type uint32 = x: nat | x < 0x1_0000_0000

  function Min(a: nat, b: nat): nat {
    if a < b then a else b
  }

  // ---------------------------------------------------------------- packet lengths

  function Sum(s: seq<nat>): nat {
    if s == [] then 0 else Sum(s[..|s| - 1]) + s[|s| - 1]
  }

  lemma {:induction false} SumAppend(a: seq<nat>, b: seq<nat>)
    ensures Sum(a + b) == Sum(a) + Sum(b)
  {
    if b == [] {
      assert a + b == a;
    } else {
      assert (a + b)[..|a + b| - 1] == a + b[..|b| - 1];
      SumAppend(a, b[..|b| - 1]);
    }
  }

  lemma SumFirst(s: seq<nat>)
    requires s != []
    ensures Sum(s) == s[0] + Sum(s[1..])
  {
    assert s == [s[0]] + s[1..];
    SumAppend([s[0]], s[1..]);
    assert [s[0]][..0] == [];
  }

  predicate AllFit(lens: seq<nat>) {
    forall k | 0 <= k < |lens| :: lens[k] <= MAX_ISO_BUFFER_LENGTH
  }

  /** How many of the first packets fit together into `space` bytes. */
  function Fit(lens: seq<nat>, space: nat): (n: nat)
    ensures n <= |lens|
  {
    if lens != [] && lens[0] <= space then 1 + Fit(lens[1..], space - lens[0]) else 0
  }

  /** `n` packets fit, and not one more. */
  lemma {:induction false} FitIsMost(lens: seq<nat>, space: nat, n: nat)
    requires n <= |lens|
    ensures n <= Fit(lens, space) <==> Sum(lens[..n]) <= space
  {
    if n > 0 {
      assert lens[..n][1..] == lens[1..][..n - 1];
      SumFirst(lens[..n]);
      if lens[0] <= space {
        FitIsMost(lens[1..], space - lens[0], n - 1);
      }
    }
  }

  /** The packets of each URB: every URB takes as many as fit. */
  function Split(lens: seq<nat>): (parts: seq<seq<nat>>)
    requires AllFit(lens)
    ensures |parts| >= 1
    decreases |lens|
  {
    var n := Fit(lens, MAX_ISO_BUFFER_LENGTH);
    if n == |lens| then [lens] else [lens[..n]] + Split(lens[n..])
  }

  function Flatten(parts: seq<seq<nat>>): seq<nat> {
    if parts == [] then [] else parts[0] + Flatten(parts[1..])
  }

  /** A division of the packets, in order, among URBs that the kernel takes. */
  predicate IsDivision(parts: seq<seq<nat>>, lens: seq<nat>) {
    Flatten(parts) == lens && forall k | 0 <= k < |parts| :: Sum(parts[k]) <= MAX_ISO_BUFFER_LENGTH
  }

  lemma {:induction false} SplitDivides(lens: seq<nat>)
    requires AllFit(lens)
    ensures IsDivision(Split(lens), lens)
    ensures lens != [] ==> forall k | 0 <= k < |Split(lens)| :: Split(lens)[k] != []
    decreases |lens|
  {
    var n := Fit(lens, MAX_ISO_BUFFER_LENGTH);
    FitIsMost(lens, MAX_ISO_BUFFER_LENGTH, n);
    if n == |lens| {
      assert lens[..n] == lens && [lens][1..] == [];
    } else {
      SplitDivides(lens[n..]);
      assert Split(lens)[1..] == Split(lens[n..]);
      assert lens == lens[..n] + lens[n..];
    }
  }

  /** No division of at least one packet uses fewer URBs. */
  lemma SplitIsMinimal(parts: seq<seq<nat>>, lens: seq<nat>)
    requires AllFit(lens) && lens != [] && IsDivision(parts, lens)
    ensures |Split(lens)| <= |parts|
  {
    GreedyStaysAhead(parts, lens, 0);
    assert lens[0..] == lens;
  }

  lemma {:induction false} GreedyStaysAhead(parts: seq<seq<nat>>, lens: seq<nat>, skip: nat)
    requires AllFit(lens) && IsDivision(parts, lens) && skip < |lens|
    ensures |Split(lens[skip..])| <= |parts|
  {
    var part, rest := parts[0], Flatten(parts[1..]);
    assert AllFit(rest) by { assert forall k | 0 <= k < |rest| :: rest[k] == lens[|part| + k]; }
    if |part| <= skip {
      assert lens[skip..] == rest[skip - |part|..];
      GreedyStaysAhead(parts[1..], rest, skip - |part|);
    } else {
      var todo := lens[skip..];
      var n := Fit(todo, MAX_ISO_BUFFER_LENGTH);
      TakesThePart(part, rest, skip);
      if n < |todo| {
        assert todo[n..] == rest[skip + n - |part|..];
        GreedyStaysAhead(parts[1..], rest, skip + n - |part|);
      }
    }
  }

  /** Of a part that has been begun, a greedy URB takes at least what is left. */
  lemma TakesThePart(part: seq<nat>, rest: seq<nat>, skip: nat)
    requires skip < |part| && Sum(part) <= MAX_ISO_BUFFER_LENGTH
    ensures Fit((part + rest)[skip..], MAX_ISO_BUFFER_LENGTH) >= |part| - skip
  {
    var todo := (part + rest)[skip..];
    SumSuffix(part, skip);
    assert todo[..|part| - skip] == part[skip..];
    FitIsMost(todo, MAX_ISO_BUFFER_LENGTH, |part| - skip);
  }

  lemma SumSuffix(s: seq<nat>, i: nat)
    requires i <= |s|
    ensures Sum(s[i..]) <= Sum(s)
  {
    assert s == s[..i] + s[i..];
    SumAppend(s[..i], s[i..]);
  }

  // ---------------------------------------------------------------- the counting pass

  /** How many URBs the counting pass adds to the current one, into which `used` bytes have gone. The
      free space is compared as an unsigned number, so an overfull URB seems to have 4 GB left. */
  function Count(lens: seq<uint32>, used: uint32): nat {
    if lens == [] then 0
    else if lens[0] > (MAX_ISO_BUFFER_LENGTH - used) % TWO_TO_THE_32 then 1 + Count(lens[1..], lens[0])
    else Count(lens[1..], (used + lens[0]) % TWO_TO_THE_32)
  }

  method CountUrbs(lens: seq<uint32>) returns (numUrbs: nat)
    ensures numUrbs == 1 + Count(lens, 0)
  {
    numUrbs := 1;
    var thisUrbLen: uint32 := 0;
    for i := 0 to |lens|
      invariant numUrbs + Count(lens[i..], thisUrbLen) == 1 + Count(lens, 0)
    {
      assert lens[i..][1..] == lens[i + 1..];
      var spaceRemaining := (MAX_ISO_BUFFER_LENGTH - thisUrbLen) % TWO_TO_THE_32;
      if lens[i] > spaceRemaining {
        numUrbs := numUrbs + 1;
        thisUrbLen := lens[i];
      } else {
        thisUrbLen := (thisUrbLen + lens[i]) % TWO_TO_THE_32;
      }
    }
  }

  /** How many URBs the packets that do not fit into `space` any more need. */
  function Further(lens: seq<nat>, space: nat): nat
    requires AllFit(lens)
  {
    var n := Fit(lens, space);
    if n == |lens| then 0 else |Split(lens[n..])|
  }

  lemma FurtherOne(lens: seq<nat>, space: nat)
    requires AllFit(lens) && lens != [] && lens[0] <= space
    ensures Further(lens, space) == Further(lens[1..], space - lens[0])
  {
    var n := Fit(lens[1..], space - lens[0]);
    assert lens[1..][n..] == lens[n + 1..];
  }

  lemma FurtherSplit(lens: seq<nat>, space: nat)
    requires AllFit(lens) && lens != [] && lens[0] > space
    ensures Further(lens, space) == 1 + Further(lens, MAX_ISO_BUFFER_LENGTH)
  {
    assert Fit(lens, space) == 0 && lens[0..] == lens;
  }

  /** As long as no URB is overfull, the unsigned comparison is the right one. */
  lemma CountOne(lens: seq<uint32>, used: uint32)
    requires lens != [] && lens[0] <= MAX_ISO_BUFFER_LENGTH && used <= MAX_ISO_BUFFER_LENGTH
    ensures Count(lens, used)
      == if lens[0] <= MAX_ISO_BUFFER_LENGTH - used then Count(lens[1..], used + lens[0])
        else 1 + Count(lens[1..], lens[0])
  {
    assert (MAX_ISO_BUFFER_LENGTH - used) % TWO_TO_THE_32 == MAX_ISO_BUFFER_LENGTH - used;
  }

  lemma {:induction false} CountIsSplit(lens: seq<uint32>, used: uint32, room: nat)
    requires AllFit(lens) && used + room == MAX_ISO_BUFFER_LENGTH
    ensures Count(lens, used) == Further(lens, room)
  {
    if lens != [] {
      var first, rest := lens[0], lens[1..];
      CountOne(lens, used);
      if first <= room {
        CountIsSplit(rest, used + first, room - first);
        FurtherOne(lens, room);
      } else {
        CountIsSplit(rest, first, MAX_ISO_BUFFER_LENGTH - first);
        FurtherOne(lens, MAX_ISO_BUFFER_LENGTH);
        FurtherSplit(lens, room);
      }
    }
  }

  // ---------------------------------------------------------------- the filling pass

  /** A URB: where its data is in the transfer's buffer, and the lengths of its packets. */
  datatype Urb = Urb(buffer: nat, lengths: seq<nat>)

  /** `n` URBs filled one after the other, the first with data at `base`. */
  function Filled(lens: seq<nat>, base: nat, n: nat): (urbs: seq<Urb>)
    ensures |urbs| == n
    decreases n
  {
    if n == 0 then []
    else
      var c := Fit(lens, MAX_ISO_BUFFER_LENGTH);
      [Urb(base, lens[..c])] + Filled(lens[c..], base + Sum(lens[..c]), n - 1)
  }

  function Lengths(urbs: seq<Urb>): (parts: seq<seq<nat>>)
    ensures |parts| == |urbs|
  {
    seq(|urbs|, k requires 0 <= k < |urbs| => urbs[k].lengths)
  }

  /** The index of the first packet of URB `k`. */
  function First(urbs: seq<Urb>, k: nat): nat
    requires k <= |urbs|
  {
    if k == 0 then 0 else First(urbs, k - 1) + |urbs[k - 1].lengths|
  }

  lemma {:induction false} FirstShift(urbs: seq<Urb>, k: nat)
    requires 1 <= k <= |urbs|
    ensures First(urbs, k) == |urbs[0].lengths| + First(urbs[1..], k - 1)
  {
    if k > 1 { FirstShift(urbs, k - 1); }
  }

  lemma {:induction false} FirstMonotone(urbs: seq<Urb>, i: nat, j: nat)
    requires i <= j <= |urbs|
    ensures First(urbs, i) <= First(urbs, j)
  {
    if i < j { FirstMonotone(urbs, i, j - 1); }
  }

  /** When every packet fits into a URB, both passes agree, and the URBs hold the packets in order. */
  lemma PassesAgree(lens: seq<uint32>, base: nat)
    requires AllFit(lens)
    ensures 1 + Count(lens, 0) == |Split(lens)|
    ensures Lengths(Filled(lens, base, |Split(lens)|)) == Split(lens)
  {
    CountIsSplit(lens, 0, MAX_ISO_BUFFER_LENGTH);
    assert |Split(lens)| == 1 + Further(lens, MAX_ISO_BUFFER_LENGTH);
    FilledIsSplit(lens, base);
  }

  lemma {:induction false} FilledIsSplit(lens: seq<nat>, base: nat)
    requires AllFit(lens)
    ensures Lengths(Filled(lens, base, |Split(lens)|)) == Split(lens)
    decreases |lens|
  {
    var c := Fit(lens, MAX_ISO_BUFFER_LENGTH);
    if c == |lens| {
      assert lens[..c] == lens;
    } else {
      FilledIsSplit(lens[c..], base + Sum(lens[..c]));
      LengthsCons(Urb(base, lens[..c]), Filled(lens[c..], base + Sum(lens[..c]), |Split(lens)| - 1));
    }
  }

  lemma LengthsCons(u: Urb, rest: seq<Urb>)
    ensures Lengths([u] + rest) == [u.lengths] + Lengths(rest)
  {
  }

  /** Packet `j` of URB `k` is the transfer's next packet, and its data is where the lengths of all
      packets before it put it. */
  predicate Addressed(lens: seq<nat>, base: nat, urbs: seq<Urb>, k: nat, j: nat)
    requires k < |urbs| && j < |urbs[k].lengths|
  {
    var p := First(urbs, k) + j;
    && p < |lens| && urbs[k].lengths[j] == lens[p]
    && urbs[k].buffer + Sum(urbs[k].lengths[..j]) == base + Sum(lens[..p])
  }

  /** So libusb_get_iso_packet_buffer finds the data of every packet that has a URB. */
  lemma {:induction false} PacketAddresses(lens: seq<nat>, base: nat, n: nat, k: nat, j: nat)
    requires k < n && j < |Filled(lens, base, n)[k].lengths|
    ensures Addressed(lens, base, Filled(lens, base, n), k, j)
    decreases k
  {
    var c := Fit(lens, MAX_ISO_BUFFER_LENGTH);
    if k == 0 {
      FirstAddressed(lens, base, c, Filled(lens, base, n), j);
    } else {
      PacketAddresses(lens[c..], base + Sum(lens[..c]), n - 1, k - 1, j);
      AddressedCons(lens, base, c, Filled(lens[c..], base + Sum(lens[..c]), n - 1), k, j);
    }
  }

  lemma FirstAddressed(lens: seq<nat>, base: nat, c: nat, urbs: seq<Urb>, j: nat)
    requires c <= |lens| && urbs != [] && urbs[0] == Urb(base, lens[..c]) && j < c
    ensures Addressed(lens, base, urbs, 0, j)
  {
    assert lens[..c][..j] == lens[..j];
  }

  lemma AddressedCons(lens: seq<nat>, base: nat, c: nat, rest: seq<Urb>, k: nat, j: nat)
    requires c <= |lens| && 1 <= k <= |rest| && j < |rest[k - 1].lengths|
    requires Addressed(lens[c..], base + Sum(lens[..c]), rest, k - 1, j)
    ensures Addressed(lens, base, [Urb(base, lens[..c])] + rest, k, j)
  {
    var urbs := [Urb(base, lens[..c])] + rest;
    assert urbs[1..] == rest;
    FirstShift(urbs, k);
    SumUpTo(lens, c, First(rest, k - 1) + j);
  }

  lemma SumUpTo(lens: seq<nat>, c: nat, q: nat)
    requires c + q <= |lens|
    ensures Sum(lens[..c + q]) == Sum(lens[..c]) + Sum(lens[c..][..q])
  {
    assert lens[..c + q] == lens[..c] + lens[c..][..q];
    SumAppend(lens[..c], lens[c..][..q]);
  }

  lemma {:induction false} FirstOfAll(urbs: seq<Urb>)
    ensures First(urbs, |urbs|) == |Flatten(Lengths(urbs))|
  {
    if urbs != [] {
      FirstShift(urbs, |urbs|);
      FirstOfAll(urbs[1..]);
      assert Lengths(urbs)[1..] == Lengths(urbs[1..]);
    }
  }

  /** A packet that is too long stays behind, with all that follow it, however many URBs there are. */
  lemma {:induction false} LongPacketBlocks(lens: seq<nat>, base: nat, n: nat, k: nat)
    requires k < |lens| && lens[k] > MAX_ISO_BUFFER_LENGTH
    ensures First(Filled(lens, base, n), n) <= k
    decreases n
  {
    if n > 0 {
      var c := Fit(lens, MAX_ISO_BUFFER_LENGTH);
      if k < c {
        assert lens[..k + 1][..k] == lens[..k];
        FitIsMost(lens, MAX_ISO_BUFFER_LENGTH, k + 1);
        assert false;
      }
      LongPacketBlocks(lens[c..], base + Sum(lens[..c]), n - 1, k - c);
      FirstShift(Filled(lens, base, n), n);
    }
  }

  /** No URB holds a packet that there is not. */
  lemma {:induction false} FilledHoldsPackets(lens: seq<nat>, base: nat, n: nat)
    ensures First(Filled(lens, base, n), n) <= |lens|
    decreases n
  {
    if n > 0 {
      var c := Fit(lens, MAX_ISO_BUFFER_LENGTH);
      FilledHoldsPackets(lens[c..], base + Sum(lens[..c]), n - 1);
      FirstShift(Filled(lens, base, n), n);
    }
  }

  /** The URBs of a transfer. */
  function Urbs(lens: seq<uint32>): (urbs: seq<Urb>)
    ensures |urbs| == 1 + Count(lens, 0)
  {
    Filled(lens, 0, 1 + Count(lens, 0))
  }

  /** Every packet is in some URB exactly when none is longer than a URB may be. */
  lemma AllPlacedIff(lens: seq<uint32>)
    ensures First(Urbs(lens), |Urbs(lens)|) == |lens| <==> AllFit(lens)
  {
    if AllFit(lens) {
      PassesAgree(lens, 0);
      SplitDivides(lens);
      FirstOfAll(Urbs(lens));
    } else {
      var k :| 0 <= k < |lens| && lens[k] > MAX_ISO_BUFFER_LENGTH;
      LongPacketBlocks(lens, 0, |Urbs(lens)|, k);
    }
  }

  /** A packet of 32769 bytes and one of 8: neither is in one of the two URBs. */
  lemma LongPacketStays()
    ensures |Urbs([32769, 8])| == 2 && First(Urbs([32769, 8]), 2) == 0
  {
    var lens: seq<uint32> := [32769, 8];
    assert lens[1..] == [8] && [8][1..] == [];
    assert Count([8], 32769) == 0 && Count(lens, 0) == 1;
    LongPacketBlocks(lens, 0, 2, 0);
  }

  /** Then no URB is empty, unless the transfer is. */
  lemma NoUrbIsEmpty(lens: seq<uint32>, k: nat)
    requires AllFit(lens) && lens != [] && k < |Urbs(lens)|
    ensures Urbs(lens)[k].lengths != []
  {
    PassesAgree(lens, 0);
    SplitDivides(lens);
    assert Lengths(Urbs(lens))[k] == Urbs(lens)[k].lengths;
  }

  datatype Option<T> = None | Some(value: T)

  /** libusb_get_iso_packet_buffer: the offset of a packet's data, or NULL. */
  method GetIsoPacketBuffer(lens: seq<uint32>, packet: uint32) returns (offset: Option<nat>)
    requires |lens| <= INT_MAX
    ensures offset == if packet < |lens| then Some(Sum(lens[..packet])) else None
  {
    if packet > INT_MAX {
      return None;
    }
    if packet >= |lens| {
      return None;
    }
    var sum: nat := 0;
    for i := 0 to packet
      invariant sum == Sum(lens[..i])
    {
      assert lens[..i + 1][..i] == lens[..i];
      sum := sum + lens[i];
    }
    return Some(sum);
  }

  // ---------------------------------------------------------------- completion

  datatype Action = Normal | SubmitFailed | Cancelled
  datatype PacketResult = PacketResult(status: int, actualLength: nat)

  datatype Iso = Iso(urbs: seq<Urb>, active: bool, action: Action, numRetired: nat, packetOffset: nat,
                     results: seq<PacketResult>)

  /** What the kernel returns for one URB. */
  datatype Reaped = Reaped(status: int, results: seq<PacketResult>)
  datatype Report = Quiet | Completed | Failed | Cancellation
  datatype Event = Reap(r: Reaped) | Cancel

  /** What the user has been told by a submission. */
  datatype SubmitResult = Submitted | ErrorNoDevice | ErrorIo | ErrorBusy

  function Put(all: seq<PacketResult>, at: nat, part: seq<PacketResult>): seq<PacketResult>
    requires at + |part| <= |all|
  {
    all[..at] + part + all[at + |part|..]
  }

  /** submit_iso_transfer, where the kernel accepts `accepted` URBs before it refuses one, because the
      device is gone or for another reason. */
  function StartSubmission(s: Iso, lens: seq<uint32>, accepted: nat, gone: bool): (Iso, SubmitResult) {
    var n := 1 + Count(lens, 0);
    var begun := s.(urbs := Urbs(lens), active := true, action := Normal, numRetired := 0, packetOffset := 0);
    if s.active then (s, ErrorBusy)
    else if accepted == 0 then (begun.(active := false), if gone then ErrorNoDevice else ErrorIo)
    else if accepted < n then (begun.(action := SubmitFailed, numRetired := n - accepted), Submitted)
    else (begun, Submitted)
  }

  /** handle_iso_completion for URB number `k`. */
  function Retire(s: Iso, k: nat, r: Reaped): (Iso, Report)
    requires r.status == 0 ==> s.packetOffset + |r.results| <= |s.results|
  {
    var s1 := if r.status == 0
              then s.(results := Put(s.results, s.packetOffset, r.results),
                      packetOffset := s.packetOffset + |r.results|)
              else s;
    var s2 := s1.(numRetired := s.numRetired + 1);
    var report :=
      if s.action == Cancelled then Cancellation else if s.action == SubmitFailed then Failed else Completed;
    var last := if s.action != Normal then s2.numRetired == |s.urbs| else k + 1 == |s.urbs|;
    if last then (s2.(active := false), report) else (s2, Quiet)
  }

  /** cancel_iso_transfer. */
  function CancelIso(s: Iso): Iso {
    if s.active then s.(action := Cancelled) else s
  }

  /** `k` of the `submitted` URBs have been reaped. */
  ghost predicate Flying(s: Iso, k: nat, submitted: nat) {
    && k <= submitted <= |s.urbs|
    && s.numRetired == |s.urbs| - submitted + k
    && (s.action == Normal ==> submitted == |s.urbs|)
    && s.active == (k < submitted)
    && First(s.urbs, |s.urbs|) <= |s.results|
    && s.packetOffset <= First(s.urbs, k)
  }

  predicate FromKernel(s: Iso, k: nat, r: Reaped) {
    k < |s.urbs| && |r.results| == |s.urbs[k].lengths|
  }

  lemma SubmitFlies(s: Iso, lens: seq<uint32>, accepted: nat, gone: bool)
    requires !s.active && |s.results| == |lens| && accepted > 0
    ensures var (s', r) := StartSubmission(s, lens, accepted, gone);
      && r == Submitted && Flying(s', 0, Min(accepted, |Urbs(lens)|))
      && s'.urbs == Urbs(lens) && s'.packetOffset == 0 && s'.results == s.results
      && s'.action == if accepted < |Urbs(lens)| then SubmitFailed else Normal
  {
    FilledHoldsPackets(lens, 0, |Urbs(lens)|);
  }

  /** What the caller is told: busy, for a transfer in flight; an error, if the first URB is refused; and else
      success, even if a later one is. */
  lemma SubmissionAnswer(s: Iso, lens: seq<uint32>, accepted: nat, gone: bool)
    ensures var (s', r) := StartSubmission(s, lens, accepted, gone);
      && (r == ErrorBusy <==> s.active) && (s.active ==> s' == s)
      && (r == ErrorNoDevice <==> !s.active && accepted == 0 && gone)
      && (r == ErrorIo <==> !s.active && accepted == 0 && !gone)
      && (r == Submitted ==> s'.active) && (r == ErrorNoDevice || r == ErrorIo ==> !s'.active)
  {
  }

  lemma RetireFits(s: Iso, k: nat, submitted: nat, r: Reaped)
    requires Flying(s, k, submitted) && FromKernel(s, k, r)
    ensures s.packetOffset + |r.results| <= First(s.urbs, k + 1) <= |s.results|
  {
    FirstMonotone(s.urbs, k + 1, |s.urbs|);
  }

  /** The transfer is reported at precisely the reap of its last submitted URB. */
  lemma RetireReports(s: Iso, k: nat, submitted: nat, r: Reaped)
    requires Flying(s, k, submitted) && k < submitted && FromKernel(s, k, r)
    ensures s.packetOffset + |r.results| <= |s.results|
    ensures var (s', report) := Retire(s, k, r);
      Flying(s', k + 1, submitted) && s'.urbs == s.urbs && (report != Quiet <==> k + 1 == submitted)
  {
    RetireFits(s, k, submitted, r);
  }

  // ---------------------------------------------------------------- whole runs

  function Reaps(events: seq<Event>): nat {
    if events == [] then 0 else (if events[0].Reap? then 1 else 0) + Reaps(events[1..])
  }

  /** The kernel reaps URBs `k`, `k + 1`, ... */
  predicate Possible(urbs: seq<Urb>, k: nat, events: seq<Event>)
    decreases |events|
  {
    events != [] ==>
      if events[0].Reap?
      then k < |urbs| && |events[0].r.results| == |urbs[k].lengths| && Possible(urbs, k + 1, events[1..])
      else Possible(urbs, k, events[1..])
  }

  /** The final state and the number of reports. */
  function Run(s: Iso, k: nat, submitted: nat, events: seq<Event>): (Iso, seq<Report>)
    requires Flying(s, k, submitted) && k + Reaps(events) <= submitted && Possible(s.urbs, k, events)
    decreases |events|
  {
    if events == [] then (s, [])
    else if events[0].Cancel? then Run(CancelIso(s), k, submitted, events[1..])
    else
      RetireReports(s, k, submitted, events[0].r);
      var (s1, report) := Retire(s, k, events[0].r);
      var (s2, reports) := Run(s1, k + 1, submitted, events[1..]);
      (s2, if report == Quiet then reports else [report] + reports)
  }

  predicate HasCancel(events: seq<Event>) {
    events != [] && (events[0].Cancel? || HasCancel(events[1..]))
  }

  function Verdict(action: Action, cancelled: bool): Report {
    if cancelled || action == Cancelled then Cancellation else if action == SubmitFailed then Failed else Completed
  }

  /** However results and cancellations interleave, there is no report before the last submitted URB
      has been reaped, and exactly one then. It says cancelled if the user ever cancelled before, else
      failed if the kernel refused a URB, else completed. */
  lemma {:induction false} ReportedOnce(s: Iso, k: nat, submitted: nat, events: seq<Event>)
    requires Flying(s, k, submitted) && k + Reaps(events) <= submitted && Possible(s.urbs, k, events)
    requires k < submitted
    ensures var (s', reports) := Run(s, k, submitted, events);
      && Flying(s', k + Reaps(events), submitted)
      && |reports| == (if k + Reaps(events) == submitted then 1 else 0)
      && (reports != [] && events[|events| - 1].Reap? ==> reports[0] == Verdict(s.action, HasCancel(events)))
    decreases |events|
  {
    if events != [] {
      var rest := events[1..];
      if events[0].Cancel? {
        ReportedOnce(CancelIso(s), k, submitted, rest);
      } else {
        var s1 := RunReap(s, k, submitted, events);
        if k + 1 < submitted {
          ReportedOnce(s1, k + 1, submitted, rest);
        } else {
          NothingAfterwards(s1, k + 1, submitted, rest);
        }
      }
    }
  }

  lemma {:induction false} HasCancelIff(events: seq<Event>)
    ensures HasCancel(events) <==> exists i :: 0 <= i < |events| && events[i].Cancel?
  {
    if events != [] {
      HasCancelIff(events[1..]);
      if i :| 0 <= i < |events| && events[i].Cancel? {
        if i > 0 { assert events[1..][i - 1] == events[i]; }
      }
      if i :| 0 <= i < |events[1..]| && events[1..][i].Cancel? { assert events[i + 1].Cancel?; }
    }
  }

  /** Which report it is, from the submission on: cancelled if and only if there was a cancellation, else
      failed if and only if the kernel refused a URB, else completed. */
  lemma ReportSays(s: Iso, lens: seq<uint32>, accepted: nat, events: seq<Event>)
    requires !s.active && |s.results| == |lens| && accepted > 0 && Possible(Urbs(lens), 0, events)
    requires Reaps(events) == Min(accepted, |Urbs(lens)|) && events[|events| - 1].Reap?
    ensures var s0 := StartSubmission(s, lens, accepted, false).0; var submitted := Min(accepted, |Urbs(lens)|);
      && Flying(s0, 0, submitted) && s0.urbs == Urbs(lens)
      && Run(s0, 0, submitted, events).1
         == [if exists i :: 0 <= i < |events| && events[i].Cancel? then Cancellation
             else if accepted < |Urbs(lens)| then Failed else Completed]
  {
    SubmitFlies(s, lens, accepted, false);
    ReportedOnce(StartSubmission(s, lens, accepted, false).0, 0, Min(accepted, |Urbs(lens)|), events);
    HasCancelIff(events);
  }

  /** A run that begins with a reap. */
  lemma RunReap(s: Iso, k: nat, submitted: nat, events: seq<Event>) returns (s1: Iso)
    requires Flying(s, k, submitted) && k + Reaps(events) <= submitted && Possible(s.urbs, k, events)
    requires events != [] && events[0].Reap?
    ensures Flying(s1, k + 1, submitted) && s1.urbs == s.urbs && s1.action == s.action
    ensures k + 1 + Reaps(events[1..]) <= submitted && Possible(s1.urbs, k + 1, events[1..])
    ensures var (s', reports) := Run(s1, k + 1, submitted, events[1..]);
      Run(s, k, submitted, events) == (s', if k + 1 == submitted then [Verdict(s.action, false)] + reports else reports)
  {
    RetireReports(s, k, submitted, events[0].r);
    s1 := Retire(s, k, events[0].r).0;
  }

  lemma {:induction false} NothingAfterwards(s: Iso, k: nat, submitted: nat, events: seq<Event>)
    requires Flying(s, k, submitted) && k == submitted && Reaps(events) == 0 && Possible(s.urbs, k, events)
    ensures Run(s, k, submitted, events) == (s, [])
    ensures events != [] ==> events[|events| - 1].Cancel?
    decreases |events|
  {
    if events != [] { NothingAfterwards(s, k, submitted, events[1..]); }
  }

  // ---------------------------------------------------------------- results reach their packets

  function AllResults(events: seq<Event>): seq<PacketResult> {
    if events == [] then []
    else (if events[0].Reap? then events[0].r.results else []) + AllResults(events[1..])
  }

  predicate AllSucceed(events: seq<Event>) {
    forall i | 0 <= i < |events| && events[i].Reap? :: events[i].r.status == 0
  }

  lemma {:induction false} ResultsCount(urbs: seq<Urb>, k: nat, events: seq<Event>)
    requires Possible(urbs, k, events)
    ensures k <= |urbs| ==>
      && k + Reaps(events) <= |urbs|
      && First(urbs, k) + |AllResults(events)| == First(urbs, k + Reaps(events))
    decreases |events|
  {
    if events != [] {
      ResultsCount(urbs, if events[0].Reap? then k + 1 else k, events[1..]);
    }
  }

  /** While every URB succeeds, each packet descriptor gets its own packet's result, once; the
      descriptors of the packets still in flight are untouched. */
  lemma {:induction false} ResultsLand(s: Iso, k: nat, submitted: nat, events: seq<Event>)
    requires Flying(s, k, submitted) && k + Reaps(events) <= submitted && Possible(s.urbs, k, events)
    requires s.packetOffset == First(s.urbs, k) && AllSucceed(events)
    ensures var s' := Run(s, k, submitted, events).0; var k' := k + Reaps(events);
      && First(s.urbs, k) + |AllResults(events)| == First(s.urbs, k') <= |s.results|
      && s'.results == Put(s.results, First(s.urbs, k), AllResults(events)) && s'.packetOffset == First(s.urbs, k')
    decreases |events|
  {
    ResultsFit(s, k, submitted, events);
    if events != [] {
      var rest := events[1..];
      if events[0].Cancel? {
        assert AllResults(events) == AllResults(rest);
        ResultsLand(CancelIso(s), k, submitted, rest);
      } else {
        var s1 := ResultLands(s, k, submitted, events[0].r);
        var s' := Run(s1, k + 1, submitted, rest).0;
        assert Run(s, k, submitted, events).0 == s';
        ResultsLand(s1, k + 1, submitted, rest);
        assert s'.results == Put(s1.results, First(s1.urbs, k + 1), AllResults(rest));
        PutTwice(s.results, First(s.urbs, k), First(s1.urbs, k + 1), events[0].r.results, AllResults(rest));
      }
    }
  }

  lemma ResultsFit(s: Iso, k: nat, submitted: nat, events: seq<Event>)
    requires Flying(s, k, submitted) && k + Reaps(events) <= submitted && Possible(s.urbs, k, events)
    ensures First(s.urbs, k) + |AllResults(events)| == First(s.urbs, k + Reaps(events)) <= |s.results|
  {
    ResultsCount(s.urbs, k, events);
    FirstMonotone(s.urbs, k + Reaps(events), |s.urbs|);
  }

  lemma ResultLands(s: Iso, k: nat, submitted: nat, r: Reaped) returns (s1: Iso)
    requires Flying(s, k, submitted) && k < submitted && FromKernel(s, k, r) && r.status == 0
    requires s.packetOffset == First(s.urbs, k)
    ensures s.packetOffset + |r.results| <= |s.results| && s1 == Retire(s, k, r).0
    ensures Flying(s1, k + 1, submitted) && s1.urbs == s.urbs
    ensures s1.packetOffset == First(s1.urbs, k + 1) == First(s.urbs, k) + |r.results|
    ensures s1.results == Put(s.results, First(s.urbs, k), r.results)
  {
    RetireReports(s, k, submitted, r);
    s1 := Retire(s, k, r).0;
  }

  lemma PutTwice(all: seq<PacketResult>, at: nat, at': nat, a: seq<PacketResult>, b: seq<PacketResult>)
    requires at' == at + |a| && at' + |b| <= |all|
    ensures Put(Put(all, at, a), at', b) == Put(all, at, a + b)
  {
  }

  /** The place to which the results of the `j`-th reaped URB are copied. */
  function CopiedTo(s: Iso, submitted: nat, rs: seq<Event>, j: nat): nat
    requires Flying(s, 0, submitted) && |rs| <= submitted && j <= |rs| && Returned(s.urbs, rs)
  {
    ReturnedPossible(s.urbs, rs, 0, j);
    Run(s, 0, submitted, rs[..j]).0.packetOffset
  }

  predicate Returned(urbs: seq<Urb>, rs: seq<Event>) {
    |rs| <= |urbs| && forall i | 0 <= i < |rs| :: rs[i].Reap? && |rs[i].r.results| == |urbs[i].lengths|
  }

  lemma {:induction false} ReturnedPossible(urbs: seq<Urb>, rs: seq<Event>, i: nat, j: nat)
    requires Returned(urbs, rs) && i <= j <= |rs|
    ensures Possible(urbs, i, rs[i..j]) && Reaps(rs[i..j]) == j - i
    ensures rs[0..j] == rs[..j]
    decreases j - i
  {
    if i < j {
      ReturnedPossible(urbs, rs, i + 1, j);
      assert rs[i..j][1..] == rs[i + 1..j];
    }
  }

  predicate Ok(e: Event) {
    e.Reap? && e.r.status == 0
  }

  /** The packets of the URBs among the first `j` that succeeded. */
  function Advanced(urbs: seq<Urb>, rs: seq<Event>, j: nat): nat
    requires Returned(urbs, rs) && j <= |rs|
  {
    if j == 0 then 0 else Advanced(urbs, rs, j - 1) + (if Ok(rs[j - 1]) then |urbs[j - 1].lengths| else 0)
  }

  lemma {:induction false} RunAdvances(s: Iso, submitted: nat, rs: seq<Event>, i: nat, j: nat)
    requires Flying(s, i, submitted) && Returned(s.urbs, rs) && i <= j <= |rs| <= submitted
    requires s.packetOffset == Advanced(s.urbs, rs, i)
    ensures Possible(s.urbs, i, rs[i..j]) && Reaps(rs[i..j]) == j - i
    ensures Run(s, i, submitted, rs[i..j]).0.packetOffset == Advanced(s.urbs, rs, j)
    decreases j - i
  {
    ReturnedPossible(s.urbs, rs, i, j);
    if i < j {
      var r := rs[i].r;
      RetireReports(s, i, submitted, r);
      RunAdvances(Retire(s, i, r).0, submitted, rs, i + 1, j);
      assert rs[i..j][1..] == rs[i + 1..j];
    }
  }

  lemma {:induction false} AdvancedBehind(urbs: seq<Urb>, rs: seq<Event>, j: nat)
    requires Returned(urbs, rs) && j <= |rs|
    ensures Advanced(urbs, rs, j) <= First(urbs, j)
    ensures Advanced(urbs, rs, j) == First(urbs, j) <==> forall i | 0 <= i < j :: Ok(rs[i]) || urbs[i].lengths == []
  {
    if j > 0 { AdvancedBehind(urbs, rs, j - 1); }
  }

  /** The results of every successful URB reach its own packets exactly when no URB that failed, with
      packets in it, was followed by one that succeeded: the copying position does not move past it. */
  lemma ResultsLandIff(s: Iso, submitted: nat, rs: seq<Event>)
    requires Flying(s, 0, submitted) && |rs| <= submitted && Returned(s.urbs, rs)
    ensures (forall j | 0 <= j < |rs| && Ok(rs[j]) :: CopiedTo(s, submitted, rs, j) == First(s.urbs, j))
       <==> (forall i, j | 0 <= i < j < |rs| && Ok(rs[j]) :: Ok(rs[i]) || s.urbs[i].lengths == [])
  {
    forall j | 0 <= j < |rs|
      ensures CopiedTo(s, submitted, rs, j) == First(s.urbs, j)
        <==> forall i | 0 <= i < j :: Ok(rs[i]) || s.urbs[i].lengths == []
    {
      RunAdvances(s, submitted, rs, 0, j);
      ReturnedPossible(s.urbs, rs, 0, j);
      AdvancedBehind(s.urbs, rs, j);
    }
  }

  /** After a submission without packets that are too long, no URB is empty: then it is exactly when no URB
      that failed was followed by one that succeeded. */
  lemma TransferLandsIff(s: Iso, lens: seq<uint32>, accepted: nat, rs: seq<Event>)
    requires !s.active && AllFit(lens) && |s.results| == |lens| && accepted > 0
    requires Returned(Urbs(lens), rs) && |rs| <= Min(accepted, |Urbs(lens)|)
    ensures var s0 := StartSubmission(s, lens, accepted, false).0; var submitted := Min(accepted, |Urbs(lens)|);
      && Flying(s0, 0, submitted) && s0.urbs == Urbs(lens)
      && ((forall j | 0 <= j < |rs| && Ok(rs[j]) :: CopiedTo(s0, submitted, rs, j) == First(s0.urbs, j))
          <==> (forall i, j | 0 <= i < j < |rs| && Ok(rs[j]) :: Ok(rs[i])))
  {
    SubmitFlies(s, lens, accepted, false);
    ResultsLandIff(StartSubmission(s, lens, accepted, false).0, Min(accepted, |Urbs(lens)|), rs);
    if lens != [] {
      forall i | 0 <= i < |Urbs(lens)| ensures Urbs(lens)[i].lengths != [] { NoUrbIsEmpty(lens, i); }
    } else {
      assert |Urbs(lens)| == 1;
    }
  }

  /** Two packets of 32768 bytes make two URBs; the first one fails, and the second one's result goes to
      the first packet's descriptor. */
  lemma ResultSlips(s: Iso, a: PacketResult, b: PacketResult) returns (s0: Iso, rs: seq<Event>)
    requires !s.active && s.results == [a, a]
    ensures (s0, Submitted) == StartSubmission(s, [32768, 32768], 2, false)
    ensures Flying(s0, 0, 2) && |rs| == 2 && Returned(s0.urbs, rs) && rs[1] == Reap(Reaped(0, [b]))
    ensures First(s0.urbs, 1) == 1 && CopiedTo(s0, 2, rs, 1) == 0
    ensures Possible(s0.urbs, 0, rs) && Reaps(rs) == 2 && Run(s0, 0, 2, rs).0.results == [b, a]
  {
    var lens: seq<uint32> := [32768, 32768];
    TwoUrbs();
    SubmitFlies(s, lens, 2, false);
    s0 := StartSubmission(s, lens, 2, false).0;
    rs := [Reap(Reaped(1, [b])), Reap(Reaped(0, [b]))];
    RunAdvances(s0, 2, rs, 0, 1);
    RunAdvances(s0, 2, rs, 0, 2);
    assert rs[0..1] == rs[..1] && rs[0..2] == rs;
    assert CopiedTo(s0, 2, rs, 1) == Advanced(s0.urbs, rs, 1);
    SecondResult(s0, rs, a, b);
  }

  lemma SecondResult(s: Iso, rs: seq<Event>, a: PacketResult, b: PacketResult)
    requires Flying(s, 0, 2) && |s.urbs| == 2 && s.packetOffset == 0 && s.results == [a, a]
    requires rs == [Reap(Reaped(1, [b])), Reap(Reaped(0, [b]))] && Possible(s.urbs, 0, rs) && Reaps(rs) == 2
    ensures Run(s, 0, 2, rs).0.results == [b, a]
  {
    var rest := rs[1..];
    assert rest == [rs[1]] && rest[1..] == [];
    RetireReports(s, 0, 2, rs[0].r);
    var s1 := Retire(s, 0, rs[0].r).0;
    assert s1.results == [a, a] && s1.packetOffset == 0;
    RetireReports(s1, 1, 2, rest[0].r);
    var s2 := Retire(s1, 1, rest[0].r).0;
    assert Put([a, a], 0, [b]) == [b, a];
    assert Run(s1, 1, 2, rest).0 == s2;
  }

  lemma TwoUrbs()
    ensures Urbs([32768, 32768]) == [Urb(0, [32768]), Urb(32768, [32768])]
  {
    var lens: seq<uint32> := [32768, 32768];
    assert lens[1..] == [32768] && lens[..1] == [32768] && [32768][1..] == [] && [32768][..1] == [32768];
    assert Count([32768], 32768) == 1 && Count(lens, 0) == 1;
    assert Fit(lens, MAX_ISO_BUFFER_LENGTH) == 1 && Fit([32768], MAX_ISO_BUFFER_LENGTH) == 1;
    assert [32768][..0] == [] && Sum([32768]) == 32768;
    assert Filled([32768], 32768, 1) == [Urb(32768, [32768])];
  }

  // ---------------------------------------------------------------- from submission to report

  lemma {:induction false} ResultsInOrder(urbs: seq<Urb>, rs: seq<Event>, i: nat, k: nat, j: nat)
    requires Returned(urbs, rs) && i <= k < |rs| && j < |rs[k].r.results|
    ensures First(urbs, i) <= First(urbs, k) && First(urbs, k) - First(urbs, i) + j < |AllResults(rs[i..])|
    ensures AllResults(rs[i..])[First(urbs, k) - First(urbs, i) + j] == rs[k].r.results[j]
    decreases k - i
  {
    assert rs[i..][1..] == rs[i + 1..];
    if i < k { ResultsInOrder(urbs, rs, i + 1, k, j); }
  }

  /** The `j`-th result of URB `k` is in the descriptor of that packet. */
  predicate Placed(urbs: seq<Urb>, rs: seq<Event>, after: seq<PacketResult>, k: nat, j: nat)
    requires Returned(urbs, rs) && k < |rs| && j < |rs[k].r.results|
  {
    && First(urbs, k) + j < First(urbs, |rs|) <= |after|
    && after[First(urbs, k) + j] == rs[k].r.results[j]
  }

  /** All results are, and nothing else has changed. */
  ghost predicate Delivered(urbs: seq<Urb>, rs: seq<Event>, before: seq<PacketResult>, after: seq<PacketResult>) {
    && Returned(urbs, rs) && First(urbs, |rs|) <= |before| == |after|
    && (forall k, j | 0 <= k < |rs| && 0 <= j < |rs[k].r.results| :: Placed(urbs, rs, after, k, j))
    && (forall p | First(urbs, |rs|) <= p < |before| :: after[p] == before[p])
  }

  lemma PutDelivers(urbs: seq<Urb>, rs: seq<Event>, before: seq<PacketResult>)
    requires Returned(urbs, rs) && First(urbs, |rs|) == |AllResults(rs)| <= |before|
    ensures Delivered(urbs, rs, before, Put(before, 0, AllResults(rs)))
  {
    var all := AllResults(rs);
    var after := Put(before, 0, all);
    assert |after| == |before| && after[..|all|] == all && after[|all|..] == before[|all|..];
    forall k, j | 0 <= k < |rs| && 0 <= j < |rs[k].r.results| ensures Placed(urbs, rs, after, k, j) {
      ResultInPlace(urbs, rs, all, after, k, j);
    }
    forall p | First(urbs, |rs|) <= p < |before| ensures after[p] == before[p] {
      assert after[p] == after[|all|..][p - |all|];
    }
  }

  lemma ResultInPlace(urbs: seq<Urb>, rs: seq<Event>, all: seq<PacketResult>, after: seq<PacketResult>, k: nat, j: nat)
    requires Returned(urbs, rs) && k < |rs| && j < |rs[k].r.results|
    requires all == AllResults(rs) && First(urbs, |rs|) == |all| <= |after| && after[..|all|] == all
    ensures Placed(urbs, rs, after, k, j)
  {
    ResultsInOrder(urbs, rs, 0, k, j);
    assert rs[0..] == rs;
    assert after[First(urbs, k) + j] == after[..|all|][First(urbs, k) + j];
  }

  lemma RunDelivers(s: Iso, rs: seq<Event>)
    requires Flying(s, 0, |rs|) && Returned(s.urbs, rs) && s.packetOffset == 0 && AllSucceed(rs) && rs != []
    ensures Possible(s.urbs, 0, rs) && Reaps(rs) == |rs|
    ensures var (s', reports) := Run(s, 0, |rs|, rs);
      Delivered(s.urbs, rs, s.results, s'.results) && reports == [Verdict(s.action, false)] && !s'.active
  {
    ReturnedPossible(s.urbs, rs, 0, |rs|);
    assert rs[0..|rs|] == rs;
    ResultsLand(s, 0, |rs|, rs);
    PutDelivers(s.urbs, rs, s.results);
    OnlyReaps(rs);
    ReportedOnce(s, 0, |rs|, rs);
  }

  /** The descriptor of packet `p` holds the result of that packet's place in the URB that it was in. */
  ghost predicate HasResult(urbs: seq<Urb>, rs: seq<Event>, after: seq<PacketResult>, p: nat)
    requires Returned(urbs, rs)
  {
    exists k: nat, j: nat :: k < |rs| && j < |rs[k].r.results| && p == First(urbs, k) + j
                             && p < |after| && after[p] == rs[k].r.results[j]
  }

  lemma DeliveredToEach(urbs: seq<Urb>, rs: seq<Event>, before: seq<PacketResult>, after: seq<PacketResult>, p: nat)
    requires Delivered(urbs, rs, before, after) && p < First(urbs, |rs|)
    ensures HasResult(urbs, rs, after, p)
  {
    var k, j := EveryPacketHasItsUrb(urbs, |rs|, p);
    assert Placed(urbs, rs, after, k, j);
  }

  /** A transfer is submitted, the kernel takes `accepted` of its URBs or all of them, and those that it
      took succeed. Then each of their results is in its packet's descriptor, each of their packets has its
      result, no other descriptor has changed, and the user is told once. If all URBs were taken, all
      packets were, unless one is too long; it is reported as completed even then. */
  lemma TransferReturnsResults(s: Iso, lens: seq<uint32>, accepted: nat, rs: seq<Event>)
    requires !s.active && |s.results| == |lens| && accepted > 0
    requires Returned(Urbs(lens), rs) && |rs| == Min(accepted, |Urbs(lens)|) && AllSucceed(rs)
    ensures var urbs := Urbs(lens); var s0 := StartSubmission(s, lens, accepted, false).0;
      && Flying(s0, 0, |rs|) && s0.urbs == urbs && Possible(urbs, 0, rs) && Reaps(rs) == |rs|
      && var (s', reports) := Run(s0, 0, |rs|, rs);
      && Delivered(urbs, rs, s.results, s'.results)
      && (forall p | 0 <= p < First(urbs, |rs|) :: HasResult(urbs, rs, s'.results, p))
      && (|rs| == |urbs| ==> (First(urbs, |rs|) == |lens| <==> AllFit(lens)))
      && reports == [if |rs| < |urbs| then Failed else Completed] && !s'.active
  {
    SubmitFlies(s, lens, accepted, false);
    var s0 := StartSubmission(s, lens, accepted, false).0;
    RunDelivers(s0, rs);
    AllPlacedIff(lens);
    var s' := Run(s0, 0, |rs|, rs).0;
    forall p | 0 <= p < First(Urbs(lens), |rs|) ensures HasResult(Urbs(lens), rs, s'.results, p) {
      DeliveredToEach(Urbs(lens), rs, s.results, s'.results, p);
    }
  }

  lemma {:induction false} OnlyReaps(rs: seq<Event>)
    requires forall i | 0 <= i < |rs| :: rs[i].Reap?
    ensures !HasCancel(rs)
  {
    if rs != [] { OnlyReaps(rs[1..]); }
  }

  /** Every packet in a URB is some URB's `j`-th. */
  lemma {:induction false} EveryPacketHasItsUrb(urbs: seq<Urb>, n: nat, p: nat) returns (k: nat, j: nat)
    requires n <= |urbs| && p < First(urbs, n)
    ensures k < n && j < |urbs[k].lengths| && p == First(urbs, k) + j
  {
    if p < First(urbs, n - 1) {
      k, j := EveryPacketHasItsUrb(urbs, n - 1, p);
    } else {
      k, j := n - 1, p - First(urbs, n - 1);
    }
  }

  // ---------------------------------------------------------------- the driver's object

  /** `urbs` are the first of `all` URBs, and hold the packets before `packetOffset`. */
  ghost predicate FilledUpTo(all: seq<Urb>, lens: seq<nat>, urbs: seq<Urb>, packetOffset: nat, urbBuffer: nat) {
    && packetOffset <= |lens| && |urbs| <= |all|
    && urbs + Filled(lens[packetOffset..], urbBuffer, |all| - |urbs|) == all
  }

  lemma FilledNext(all: seq<Urb>, lens: seq<nat>, urbs: seq<Urb>, from: nat, base: nat, to: nat)
    requires FilledUpTo(all, lens, urbs, from, base) && |urbs| < |all|
    requires to == from + Fit(lens[from..], MAX_ISO_BUFFER_LENGTH)
    ensures FilledUpTo(all, lens, urbs + [Urb(base, lens[from..to])], to, base + Sum(lens[from..to]))
  {
    var n, urb, buffer := |all| - |urbs|, Urb(base, lens[from..to]), base + Sum(lens[from..to]);
    assert Filled(lens[from..], base, n) == [urb] + Filled(lens[to..], buffer, n - 1) by {
      FilledFirst(lens[from..], base, n);
      Cut(lens, from, to);
    }
    Associate(all, urbs, urb, Filled(lens[to..], buffer, n - 1));
  }

  lemma Cut(lens: seq<nat>, from: nat, to: nat)
    requires from <= to <= |lens|
    ensures lens[from..][..to - from] == lens[from..to] && lens[from..][to - from..] == lens[to..]
  {
  }

  lemma FilledFirst(lens: seq<nat>, base: nat, n: nat)
    requires n > 0
    ensures var c := Fit(lens, MAX_ISO_BUFFER_LENGTH);
      Filled(lens, base, n) == [Urb(base, lens[..c])] + Filled(lens[c..], base + Sum(lens[..c]), n - 1)
  {
  }

  lemma FilledEnds(lens: seq<uint32>, urbs: seq<Urb>, packetOffset: nat, urbBuffer: nat)
    ensures FilledUpTo(Urbs(lens), lens, [], 0, 0)
    ensures FilledUpTo(Urbs(lens), lens, urbs, packetOffset, urbBuffer) && |urbs| == |Urbs(lens)| ==> urbs == Urbs(lens)
  {
    assert lens[0..] == lens;
    assert urbs + [] == urbs;
  }

  lemma SumNext(lens: seq<nat>, i: nat, j: nat)
    requires i <= j < |lens|
    ensures Sum(lens[i..j + 1]) == Sum(lens[i..j]) + lens[j]
  {
    assert lens[i..j + 1][..j - i] == lens[i..j];
  }

  lemma Associate(all: seq<Urb>, urbs: seq<Urb>, u: Urb, rest: seq<Urb>)
    requires all == urbs + ([u] + rest)
    ensures all == urbs + [u] + rest
  {
  }

  predicate Distinct(addresses: seq<nat>) {
    forall i, j | 0 <= i < j < |addresses| :: addresses[i] != addresses[j]
  }

  /** An isochronous transfer with its private part. `isoUrbs` and `addresses`, where the URBs are, are
      meaningful while `active`. */
  class IsoTransfer {
    const lens: seq<uint32>
    const isoPacketDesc: array<PacketResult>
    var isoUrbs: seq<Urb>
    var addresses: seq<nat>
    var active: bool
    var reapAction: Action
    var numUrbs: nat
    var numRetired: nat
    var isoPacketOffset: nat

    ghost function State(): Iso
      reads this, isoPacketDesc
    {
      Iso(isoUrbs, active, reapAction, numRetired, isoPacketOffset, isoPacketDesc[..])
    }

    ghost predicate Valid()
      reads this
    {
      isoPacketDesc.Length == |lens| && numUrbs == |isoUrbs| == |addresses| && Distinct(addresses)
    }

    constructor (lens: seq<uint32>, isoPacketDesc: array<PacketResult>)
      requires isoPacketDesc.Length == |lens|
      ensures Valid() && !active && this.lens == lens && this.isoPacketDesc == isoPacketDesc
    {
      this.lens, this.isoPacketDesc := lens, isoPacketDesc;
      isoUrbs, addresses, numUrbs, active := [], [], 0, false;
      reapAction, numRetired, isoPacketOffset := Normal, 0, 0;
    }

    /** submit_iso_transfer, when the kernel refuses URB number `accepted` (if there is one). `memory`
        is where there is memory for the URBs. */
    method Submit(memory: seq<nat>, accepted: nat, gone: bool) returns (r: SubmitResult, discards: seq<nat>)
      requires Valid() && |memory| == 1 + Count(lens, 0) && Distinct(memory)
      modifies this
      ensures Valid() && (State(), r) == StartSubmission(old(State()), lens, accepted, gone)
      ensures addresses == if r == ErrorBusy then old(addresses) else memory
      ensures discards == if r == Submitted && reapAction == SubmitFailed then memory[..accepted] else []
    {
      discards := [];
      if active {
        return ErrorBusy, [];
      }
      var n := CountUrbs(lens);
      numUrbs, numRetired, reapAction, isoPacketOffset, active := n, 0, Normal, 0, true;
      addresses := memory;
      FillUrbs();
      for i := 0 to numUrbs
        invariant i <= accepted && discards == []
        invariant numUrbs == n == |isoUrbs| == |addresses| && isoUrbs == Urbs(lens) && addresses == memory
        invariant numRetired == 0 && reapAction == Normal && isoPacketOffset == 0 && active
      {
        if i == accepted {
          if i == 0 {
            active := false;
            return if gone then ErrorNoDevice else ErrorIo, [];
          }
          reapAction, numRetired := SubmitFailed, numUrbs - i;
          discards := Discard(i);
          return Submitted, discards;
        }
      }
      return Submitted, [];
    }

    /** Discard the first `n` URBs. */
    method Discard(n: nat) returns (discards: seq<nat>)
      requires n <= |addresses|
      ensures discards == addresses[..n]
    {
      discards := [];
      for i := 0 to n
        invariant discards == addresses[..i]
      {
        discards := discards + [addresses[i]];
      }
    }

    /** The filling pass. */
    method FillUrbs()
      requires isoPacketDesc.Length == |lens| && numUrbs == 1 + Count(lens, 0)
      modifies this`isoUrbs
      ensures isoUrbs == Urbs(lens)
    {
      var packetOffset: nat, urbBuffer: nat := 0, 0;
      isoUrbs := [];
      FilledEnds(lens, isoUrbs, 0, 0);
      for i := 0 to numUrbs
        invariant |isoUrbs| == i && FilledUpTo(Urbs(lens), lens, isoUrbs, packetOffset, urbBuffer)
      {
        packetOffset, urbBuffer := FillUrb(packetOffset, urbBuffer, Urbs(lens));
      }
      FilledEnds(lens, isoUrbs, packetOffset, urbBuffer);
    }

    method FillUrb(from: nat, base: nat, ghost all: seq<Urb>) returns (packetOffset: nat, urbBuffer: nat)
      requires FilledUpTo(all, lens, isoUrbs, from, base) && |isoUrbs| < |all|
      modifies this`isoUrbs
      ensures FilledUpTo(all, lens, isoUrbs, packetOffset, urbBuffer) && |isoUrbs| == old(|isoUrbs|) + 1
    {
      var count: nat;
      count, packetOffset, urbBuffer := Swallow(from, base);
      FilledNext(all, lens, isoUrbs, from, base, packetOffset);
      assert packetOffset - count == from;
      isoUrbs := isoUrbs + [Urb(base, lens[packetOffset - count..packetOffset])];
    }

    /** Take the packets that fit into one URB. */
    method Swallow(from: nat, base: nat) returns (count: nat, packetOffset: nat, urbBuffer: nat)
      requires from <= |lens|
      ensures count == Fit(lens[from..], MAX_ISO_BUFFER_LENGTH) && packetOffset == from + count
      ensures urbBuffer == base + Sum(lens[from..packetOffset])
    {
      count, packetOffset, urbBuffer := 0, from, base;
      var space := MAX_ISO_BUFFER_LENGTH;
      while packetOffset < |lens|
        invariant packetOffset == from + count <= |lens|
        invariant count + Fit(lens[packetOffset..], space) == Fit(lens[from..], MAX_ISO_BUFFER_LENGTH)
        invariant urbBuffer == base + Sum(lens[from..packetOffset])
      {
        assert lens[packetOffset..][1..] == lens[packetOffset + 1..];
        SumNext(lens, from, packetOffset);
        var packetLen := lens[packetOffset];
        if packetLen <= space {
          count, packetOffset := count + 1, packetOffset + 1;
          space, urbBuffer := space - packetLen, urbBuffer + packetLen;
        } else {
          break;
        }
      }
    }

    /** handle_iso_completion for the URB at address `urb`; nothing if it is none of the transfer's. */
    method HandleCompletion(urb: nat, r: Reaped) returns (report: Option<Report>)
      requires Valid()
      requires r.status == 0 ==> isoPacketOffset + |r.results| <= isoPacketDesc.Length
      modifies this`isoPacketOffset, this`numRetired, this`active, isoPacketDesc
      ensures Valid() && (report == None <==> urb !in addresses)
      ensures report == None ==> State() == old(State())
      ensures forall k | 0 <= k < |addresses| && addresses[k] == urb ::
        report.Some? && (State(), report.value) == Retire(old(State()), k, r)
    {
      var urbIdx := Locate(urb);
      if urbIdx == 0 {
        return None;
      }
      if r.status == 0 {
        CopyResults(r.results);
      }
      numRetired := numRetired + 1;
      if reapAction != Normal {
        if numRetired == numUrbs {
          active := false;
          return Some(if reapAction == Cancelled then Cancellation else Failed);
        }
        return Some(Quiet);
      }
      if urbIdx == numUrbs {
        active := false;
        return Some(Completed);
      }
      return Some(Quiet);
    }

    /** The URB's number, from 1, or 0. */
    method Locate(urb: nat) returns (urbIdx: nat)
      requires Valid()
      ensures if urbIdx == 0 then urb !in addresses else urbIdx <= numUrbs && addresses[urbIdx - 1] == urb
    {
      for i := 0 to numUrbs
        invariant urb !in addresses[..i]
      {
        if urb == addresses[i] {
          return i + 1;
        }
      }
      return 0;
    }

    method CopyResults(results: seq<PacketResult>)
      requires isoPacketOffset + |results| <= isoPacketDesc.Length
      modifies this`isoPacketOffset, isoPacketDesc
      ensures isoPacketDesc[..] == Put(old(isoPacketDesc[..]), old(isoPacketOffset), results)
      ensures isoPacketOffset == old(isoPacketOffset) + |results|
    {
      ghost var before := isoPacketDesc[..];
      ghost var at := isoPacketOffset;
      for i := 0 to |results|
        invariant isoPacketOffset == at + i
        invariant isoPacketDesc[..] == Put(before, at, results[..i])
      {
        isoPacketDesc[isoPacketOffset] := results[i];
        isoPacketOffset := isoPacketOffset + 1;
      }
      assert results[..|results|] == results;
    }

    /** cancel_iso_transfer. */
    method CancelTransfer() returns (found: bool, discards: seq<nat>)
      requires Valid()
      modifies this`reapAction
      ensures Valid() && found == old(active) && State() == CancelIso(old(State()))
      ensures discards == if found then addresses else []
    {
      if !active {
        return false, [];
      }
      reapAction := Cancelled;
      discards := Discard(numUrbs);
      return true, discards;
    }
  }
}
