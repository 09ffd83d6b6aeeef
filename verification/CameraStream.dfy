/** Reassembly of camera frames from isochronous packets (cameras.c: stream_process, stream_init).

Both start functions choose fixed-length packets (variable_length == 0), so that mode is modelled.
The stream's flag byte has its low three bits clear (0x70 or 0x80), so `flag | x` is `flag + x`.
*/
module CameraStream {
  import opened Arithmetic
  import opened Bytes

  datatype Config = Config(flag: byte, pktSize: nat, frameSize: nat, lastPktSize: nat, pktsPerFrame: nat) {
    ghost predicate Valid() {
      && flag % 8 == 0 && pktSize > 0
      && pktsPerFrame >= 6
      && 0 < lastPktSize <= pktSize
      && (pktsPerFrame - 1) * pktSize + lastPktSize == frameSize
    }

    function Sof(): byte requires flag % 8 == 0 { flag + 1 }
    function Mof(): byte requires flag % 8 == 0 { flag + 2 }
    function Eof(): byte requires flag % 8 == 0 { flag + 5 }

    /** The largest payload of the packet at position `pos` of a frame. */
    function Expected(pos: nat): nat {
      if pos == pktsPerFrame - 1 then lastPktSize else pktSize
    }
  }

  const VALID_LOST_PACKETS: nat := 5

  /** The arithmetic of stream_init. */
  function InitConfig(flag: byte, pktSize: nat, frameSize: nat): (c: Config)
    requires pktSize > 0
  {
    Config(flag, pktSize, frameSize,
           if frameSize % pktSize == 0 then pktSize else frameSize % pktSize,
           (frameSize + pktSize - 1) / pktSize)
  }

  /** Packets tile the frame exactly. */
  lemma InitConfigValid(flag: byte, pktSize: nat, frameSize: nat)
    requires flag % 8 == 0 && pktSize > 0 && frameSize > 5 * pktSize
    ensures InitConfig(flag, pktSize, frameSize).Valid()
  {
    var r := frameSize % pktSize;
    assert frameSize == (frameSize / pktSize) * pktSize + r;
    PacketsTile(frameSize, pktSize, frameSize / pktSize, r);
    SixPackets(frameSize, pktSize, (frameSize + pktSize - 1) / pktSize, if r == 0 then pktSize else r);
  }

  lemma SixPackets(frameSize: nat, pktSize: nat, n: nat, last: nat)
    requires n > 0 && (n - 1) * pktSize + last == frameSize && last <= pktSize && frameSize > 5 * pktSize
    ensures n >= 6
  {
    if n < 6 { Monotone(n - 1, 4, pktSize); }
  }

  lemma PacketsTile(frameSize: nat, pktSize: nat, q: nat, r: nat)
    requires pktSize > 0 && frameSize > 0 && frameSize == q * pktSize + r && r < pktSize
    ensures var n := (frameSize + pktSize - 1) / pktSize;
      n > 0 && (n - 1) * pktSize + (if r == 0 then pktSize else r) == frameSize
  {
    if r == 0 {
      QuotientIs(frameSize + pktSize - 1, pktSize, q, pktSize - 1);
      assert (q - 1) * pktSize + pktSize == q * pktSize;
    } else {
      assert (q + 1) * pktSize == q * pktSize + pktSize;
      QuotientIs(frameSize + pktSize - 1, pktSize, q + 1, r - 1);
    }
  }

  datatype Stream = Stream(
    synced: bool, seqNo: byte, gotPkts: nat, pktNum: nat, validPkts: nat, validFrames: nat,
    lastTimestamp: nat, timestamp: nat, raw: seq<byte>)
  {
    ghost predicate Valid(c: Config) {
      && |raw| == c.frameSize
      && (synced ==> gotPkts <= pktNum < c.pktsPerFrame)
    }
  }

  // ---------------------------------------------------------------- packets

  const HEADER_SIZE: nat := 12

  predicate WellMarked(pkt: seq<byte>) {
    |pkt| >= HEADER_SIZE && pkt[0] == 'R' as int && pkt[1] == 'B' as int
  }

  function Timestamp(pkt: seq<byte>): nat
    requires |pkt| >= HEADER_SIZE
  {
    pkt[8] as int + 0x100 * pkt[9] as int + 0x1_0000 * pkt[10] as int + 0x100_0000 * pkt[11] as int
  }

  function Data(pkt: seq<byte>): seq<byte>
    requires |pkt| >= HEADER_SIZE
  {
    pkt[HEADER_SIZE..]
  }

  /** The flag byte says where in a frame a packet belongs. */
  predicate FlagFits(c: Config, flag: byte, pos: nat)
    requires c.flag % 8 == 0
  {
    || (pos == 0 && flag == c.Sof())
    || (pos == c.pktsPerFrame - 1 && flag == c.Eof())
    || (0 < pos < c.pktsPerFrame - 1 && flag == c.Mof())
  }

  // ---------------------------------------------------------------- stream_process on values

  /** Wait for the start of a frame. */
  function Sync(c: Config, s: Stream, pkt: seq<byte>): Stream
    requires c.Valid() && WellMarked(pkt)
  {
    if !s.synced && pkt[3] == c.Sof()
    then s.(synced := true, seqNo := pkt[5], pktNum := 0, validPkts := 0, gotPkts := 0)
    else s
  }

  function Lost(s: Stream, seqNo: byte): nat {
    (seqNo - s.seqNo) % 256
  }

  function CloseFrame(s: Stream): Stream {
    s.(validPkts := s.gotPkts, gotPkts := 0, timestamp := s.lastTimestamp, validFrames := s.validFrames + 1)
  }

  /** Skip over at most five lost packets; the frame they end is reported. */
  function Skip(c: Config, s: Stream, seqNo: byte): (Stream, nat)
    requires c.Valid() && s.Valid(c) && s.synced
  {
    var lost := Lost(s, seqNo);
    var left := c.pktsPerFrame - s.pktNum;
    if left <= lost
    then (CloseFrame(s).(seqNo := seqNo, pktNum := lost - left), c.frameSize)
    else (s.(seqNo := seqNo, pktNum := s.pktNum + lost), 0)
  }

  /** Packets between the last one and this one have been lost, but not too many. */
  function CatchUp(c: Config, s: Stream, seqNo: byte): (Stream, nat)
    requires c.Valid() && s.Valid(c) && s.synced
  {
    if s.seqNo != seqNo then Skip(c, s, seqNo) else (s, 0)
  }

  lemma CatchUpTo(c: Config, s: Stream, seqNo: byte)
    requires c.Valid() && s.Valid(c) && s.synced && Lost(s, seqNo) <= VALID_LOST_PACKETS
    ensures var (s2, got) := CatchUp(c, s, seqNo);
      && s2.Valid(c) && s2.synced && s2.seqNo == seqNo && s2.raw == s.raw
      && s2.pktNum == (s.pktNum + Lost(s, seqNo)) % c.pktsPerFrame
      && got == (if s.pktNum + Lost(s, seqNo) >= c.pktsPerFrame then c.frameSize else 0)
      && (got > 0 ==> s2.pktNum <= 4 && s2.gotPkts == 0 && s2.validPkts == s.gotPkts)
      && (got == 0 ==> s2.pktNum == s.pktNum + Lost(s, seqNo) && s2.gotPkts == s.gotPkts)
  {
    var n := s.pktNum + Lost(s, seqNo);
    if n >= c.pktsPerFrame {
      QuotientIs(n, c.pktsPerFrame, 1, n - c.pktsPerFrame);
    } else {
      QuotientIs(n, c.pktsPerFrame, 0, n);
    }
  }

  /** The stream with a packet's data at its place in the frame. */
  function Stored(c: Config, s: Stream, pkt: seq<byte>): Stream
    requires c.Valid() && s.Valid(c) && s.synced && WellMarked(pkt)
    requires |Data(pkt)| <= c.Expected(s.pktNum)
  {
    var at := s.pktNum * c.pktSize;
    StoreFits(c, s.pktNum, |Data(pkt)|);
    s.(raw := s.raw[..at] + Data(pkt) + s.raw[at + |Data(pkt)|..],
       pktNum := s.pktNum + 1, seqNo := (s.seqNo + 1) % 256, gotPkts := s.gotPkts + 1,
       lastTimestamp := Timestamp(pkt))
  }

  /** Store a packet; the last one of a frame completes it. */
  function Store(c: Config, s: Stream, pkt: seq<byte>, got: nat): (Stream, nat)
    requires c.Valid() && s.Valid(c) && s.synced && WellMarked(pkt)
    requires |Data(pkt)| <= c.Expected(s.pktNum)
  {
    Completed(c, Stored(c, s, pkt), pkt, s.pktNum * c.pktSize, got)
  }

  function Completed(c: Config, s: Stream, pkt: seq<byte>, at: nat, got: nat): (Stream, nat)
    requires c.Valid() && WellMarked(pkt)
  {
    if pkt[3] == c.Eof() then (CloseFrame(s).(pktNum := 0), at + c.lastPktSize) else (s, got)
  }

  lemma StoreFits(c: Config, pos: nat, n: nat)
    requires c.Valid() && pos < c.pktsPerFrame && n <= c.Expected(pos)
    ensures pos * c.pktSize + n <= c.frameSize
    ensures pos == c.pktsPerFrame - 1 ==> pos * c.pktSize + c.lastPktSize == c.frameSize
  {
    Monotone(pos, c.pktsPerFrame - 1, c.pktSize);
    if pos < c.pktsPerFrame - 1 {
      Monotone(pos + 1, c.pktsPerFrame - 1, c.pktSize);
    }
  }

  /** A packet that finds the stream ready for the position `s.pktNum`. */
  function Place(c: Config, s: Stream, pkt: seq<byte>, got: nat): (Stream, nat)
    requires c.Valid() && s.Valid(c) && s.synced && WellMarked(pkt)
  {
    if !FlagFits(c, pkt[3], s.pktNum) then (s.(synced := false), got)
    else if |Data(pkt)| > c.Expected(s.pktNum) then (s, got)
    else Store(c, s, pkt, got)
  }

  /** One call: the new state, and the size of the frame that is complete (0 if none is). */
  function Process(c: Config, s: Stream, pkt: seq<byte>): (Stream, nat)
    requires c.Valid() && s.Valid(c)
  {
    if !WellMarked(pkt) then (s, 0)
    else
      var s1 := Sync(c, s, pkt);
      if !s1.synced then (s1, 0)
      else if Lost(s1, pkt[5]) > VALID_LOST_PACKETS then (s1.(synced := false), 0)
      else
        CatchUpTo(c, s1, pkt[5]);
        var (s2, got) := CatchUp(c, s1, pkt[5]);
        Place(c, s2, pkt, got)
  }

  // ---------------------------------------------------------------- every packet, valid or garbage

  lemma StoreValid(c: Config, s: Stream, pkt: seq<byte>, got: nat)
    requires c.Valid() && s.Valid(c) && s.synced && WellMarked(pkt) && |Data(pkt)| <= c.Expected(s.pktNum)
    requires FlagFits(c, pkt[3], s.pktNum)
    ensures var (s', r) := Store(c, s, pkt, got); var last := s.pktNum == c.pktsPerFrame - 1;
      && s'.Valid(c) && s'.synced && s'.seqNo == (s.seqNo + 1) % 256
      && s'.pktNum == (if last then 0 else s.pktNum + 1)
      && r == (if last then c.frameSize else got)
      && (if last then s'.gotPkts == 0 && s'.validPkts == s.gotPkts + 1
          else s'.gotPkts == s.gotPkts + 1 && s'.validPkts == s.validPkts)
  {
    StoreFits(c, s.pktNum, |Data(pkt)|);
    StoredValid(c, s, pkt);
    assert pkt[3] == c.Eof() <==> s.pktNum == c.pktsPerFrame - 1;
  }

  lemma StoredValid(c: Config, s: Stream, pkt: seq<byte>)
    requires c.Valid() && s.Valid(c) && s.synced && WellMarked(pkt) && |Data(pkt)| <= c.Expected(s.pktNum)
    ensures var s' := Stored(c, s, pkt);
      && |s'.raw| == c.frameSize && s'.synced && s'.seqNo == (s.seqNo + 1) % 256
      && s'.pktNum == s.pktNum + 1 && s'.gotPkts == s.gotPkts + 1 && s'.validPkts == s.validPkts
  {
    StoreFits(c, s.pktNum, |Data(pkt)|);
  }

  lemma PlaceValid(c: Config, s: Stream, pkt: seq<byte>, got: nat)
    requires c.Valid() && s.Valid(c) && s.synced && WellMarked(pkt)
    ensures Place(c, s, pkt, got).0.Valid(c)
    ensures Place(c, s, pkt, got).1 == got || Place(c, s, pkt, got).1 == c.frameSize
  {
    if FlagFits(c, pkt[3], s.pktNum) && |Data(pkt)| <= c.Expected(s.pktNum) {
      StoreValid(c, s, pkt, got);
    }
  }

  /** Whatever arrives, the packet count stays within the frame, no byte is stored outside the frame
      buffer (Store is defined only where it fits), and a call returns 0 or the frame size. */
  lemma ProcessValid(c: Config, s: Stream, pkt: seq<byte>)
    requires c.Valid() && s.Valid(c)
    ensures Process(c, s, pkt).0.Valid(c)
    ensures Process(c, s, pkt).1 == 0 || Process(c, s, pkt).1 == c.frameSize
  {
    if WellMarked(pkt) {
      var s1 := Sync(c, s, pkt);
      if s1.synced && Lost(s1, pkt[5]) <= VALID_LOST_PACKETS {
        CatchUpTo(c, s1, pkt[5]);
        var (s2, got) := CatchUp(c, s1, pkt[5]);
        PlaceValid(c, s2, pkt, got);
      }
    }
  }

  lemma FrameNotEmpty(c: Config)
    requires c.Valid()
    ensures c.frameSize > 0
  {
    Monotone(0, c.pktsPerFrame - 1, c.pktSize);
  }

  /** Each reported frame is counted, and its timestamp is that of the last packet stored in it: the one
      that completes it, or, if lost packets end it, the last one before them. */
  lemma ReportedTimestamp(c: Config, s: Stream, pkt: seq<byte>)
    requires c.Valid() && s.Valid(c)
    ensures var (s', r) := Process(c, s, pkt);
      && s'.validFrames == s.validFrames + (if r > 0 then 1 else 0)
      && (r == 0 ==> s'.timestamp == s.timestamp)
      && (r > 0 ==> s'.timestamp
                    == if s.synced && s.pktNum + Lost(s, pkt[5]) >= c.pktsPerFrame
                       then s.lastTimestamp else Timestamp(pkt))
      && (s'.lastTimestamp == s.lastTimestamp || s'.lastTimestamp == Timestamp(pkt))
  {
    FrameNotEmpty(c);
    if WellMarked(pkt) {
      var s1 := Sync(c, s, pkt);
      if s1.synced && Lost(s1, pkt[5]) <= VALID_LOST_PACKETS {
        CatchUpTo(c, s1, pkt[5]);
        var (s2, got) := CatchUp(c, s1, pkt[5]);
        PlaceTimestamp(c, s2, pkt, got);
      }
    }
  }

  lemma PlaceTimestamp(c: Config, s: Stream, pkt: seq<byte>, got: nat)
    requires c.Valid() && s.Valid(c) && s.synced && WellMarked(pkt)
    ensures var (s', r) := Place(c, s, pkt, got);
      var closes := FlagFits(c, pkt[3], s.pktNum) && |Data(pkt)| <= c.Expected(s.pktNum)
        && s.pktNum == c.pktsPerFrame - 1;
      && s'.validFrames == s.validFrames + (if closes then 1 else 0)
      && s'.timestamp == (if closes then Timestamp(pkt) else s.timestamp)
      && r == (if closes then c.frameSize else got)
      && (s'.lastTimestamp == s.lastTimestamp || s'.lastTimestamp == Timestamp(pkt))
  {
    if FlagFits(c, pkt[3], s.pktNum) && |Data(pkt)| <= c.Expected(s.pktNum) {
      StoreValid(c, s, pkt, got);
    }
  }

  // ---------------------------------------------------------------- which packets of a frame arrived

  function Positions(n: nat): (r: set<nat>)
    ensures forall k: nat :: k in r <==> k < n
    ensures |r| == n
  {
    if n == 0 then {} else Positions(n - 1) + {n - 1}
  }

  /** `filled` are the positions of the frame in progress whose packets have been stored. */
  ghost predicate Tracks(s: Stream, filled: set<nat>) {
    s.synced ==> |filled| == s.gotPkts && forall k | k in filled :: k < s.pktNum
  }

  /** The filled positions after a call, and those of the frame that the call reports. */
  function Fill(c: Config, s: Stream, filled: set<nat>, pkt: seq<byte>): (set<nat>, set<nat>)
    requires c.Valid() && s.Valid(c)
  {
    if !WellMarked(pkt) then (filled, {})
    else
      var s1 := Sync(c, s, pkt);
      var filled1 := if s.synced then filled else {};
      if !s1.synced || Lost(s1, pkt[5]) > VALID_LOST_PACKETS then (filled1, {})
      else
        CatchUpTo(c, s1, pkt[5]);
        var (s2, got) := CatchUp(c, s1, pkt[5]);
        var filled2 := if got > 0 then {} else filled1;
        if FlagFits(c, pkt[3], s2.pktNum) && |Data(pkt)| <= c.Expected(s2.pktNum) then
          var filled3 := filled2 + {s2.pktNum};
          if s2.pktNum == c.pktsPerFrame - 1 then ({}, filled3) else (filled3, if got > 0 then filled1 else {})
        else (filled2, if got > 0 then filled1 else {})
  }

  lemma FullFrame(filled: set<nat>, n: nat)
    requires forall k | k in filled :: k < n
    ensures |filled| == n <==> filled == Positions(n)
  {
    SubsetsBySize(filled, Positions(n));
  }

  lemma {:induction false} SubsetsBySize(a: set<nat>, b: set<nat>)
    requires a <= b
    ensures |a| <= |b| && (|a| == |b| ==> a == b)
  {
    if x :| x in a {
      SubsetsBySize(a - {x}, b - {x});
    }
  }

  /** A reported frame has as many valid packets as positions were filled, and it has
      pkts_per_frame of them exactly when no packet of the frame was lost or dropped. */
  lemma ReportedFrameCounts(c: Config, s: Stream, filled: set<nat>, pkt: seq<byte>)
    requires c.Valid() && s.Valid(c) && Tracks(s, filled)
    ensures var (s', r) := Process(c, s, pkt); var (filled', reported) := Fill(c, s, filled, pkt);
      && Tracks(s', filled')
      && (r > 0 ==>
            && s'.validPkts == |reported|
            && (s'.validPkts == c.pktsPerFrame <==> reported == Positions(c.pktsPerFrame)))
  {
    if WellMarked(pkt) {
      var s1 := Sync(c, s, pkt);
      if s1.synced && Lost(s1, pkt[5]) <= VALID_LOST_PACKETS {
        CatchUpTo(c, s1, pkt[5]);
        var (s2, got) := CatchUp(c, s1, pkt[5]);
        var filled1 := if s.synced then filled else {};
        var filled2 := if got > 0 then {} else filled1;
        PlaceCounts(c, s2, filled2, pkt, got);
        FullFrame(filled1, c.pktsPerFrame);
        if s2.pktNum == c.pktsPerFrame - 1 { FullFrame(filled2 + {s2.pktNum}, c.pktsPerFrame); }
      }
    }
  }

  lemma PlaceCounts(c: Config, s: Stream, filled: set<nat>, pkt: seq<byte>, got: nat)
    requires c.Valid() && s.Valid(c) && s.synced && WellMarked(pkt) && Tracks(s, filled)
    requires got > 0 ==> s.pktNum <= 4
    ensures var (s', r) := Place(c, s, pkt, got);
      if FlagFits(c, pkt[3], s.pktNum) && |Data(pkt)| <= c.Expected(s.pktNum) then
        if s.pktNum == c.pktsPerFrame - 1
        then Tracks(s', {}) && s'.validPkts == |filled + {s.pktNum}| && r == c.frameSize
        else Tracks(s', filled + {s.pktNum}) && s'.validPkts == s.validPkts && r == got
      else Tracks(s', filled) && s'.validPkts == s.validPkts && r == got
  {
    assert s.pktNum !in filled;
    assert |filled + {s.pktNum}| == |filled| + 1;
    if FlagFits(c, pkt[3], s.pktNum) && |Data(pkt)| <= c.Expected(s.pktNum) {
      StoreValid(c, s, pkt, got);
    }
  }

  // ---------------------------------------------------------------- lockstep with the sender

  function FlagOf(c: Config, pos: nat): byte
    requires c.flag % 8 == 0
  {
    if pos == 0 then c.Sof() else if pos == c.pktsPerFrame - 1 then c.Eof() else c.Mof()
  }

  /** The sender's packet number `m`, counted without bound from the start of some frame; the packet
      itself carries the number modulo 256 only. */
  predicate IsSent(c: Config, m: nat, pkt: seq<byte>)
    requires c.flag % 8 == 0 && c.pktsPerFrame > 0
  {
    WellMarked(pkt) && pkt[3] == FlagOf(c, m % c.pktsPerFrame) && pkt[5] == m % 256
  }

  predicate Oversized(c: Config, m: nat, pkt: seq<byte>)
    requires c.pktsPerFrame > 0 && |pkt| >= HEADER_SIZE
  {
    |Data(pkt)| > c.Expected(m % c.pktsPerFrame)
  }

  /** The receiver expects exactly the sender's packet number `next`. */
  predicate InStep(c: Config, s: Stream, next: nat)
    requires c.pktsPerFrame > 0
  {
    s.synced && s.seqNo == next % 256 && s.pktNum == next % c.pktsPerFrame
  }

  lemma ModNext(a: nat, n: nat)
    requires n > 1
    ensures (a + 1) % n == if a % n == n - 1 then 0 else a % n + 1
  {
    ModAdd(a, 1, n);
    if a % n == n - 1 { QuotientIs(n, n, 1, 0); } else { QuotientIs(a % n + 1, n, 0, a % n + 1); }
  }

  /** What the receiver takes to be the number of lost packets. */
  lemma LostModulo(s: Stream, next: nat, m: nat)
    requires s.seqNo == next % 256 && next <= m
    ensures Lost(s, m % 256) == (m - next) % 256
  {
  }

  /** Where that puts the packet. */
  lemma Alignment(n: nat, next: nat, m: nat, lost: nat)
    requires n > 0 && next + lost <= m
    ensures (next % n + lost) % n == m % n <==> (m - next - lost) % n == 0
  {
    ModAdd(next, lost, n);
    SameRemainder(next + lost, m, n);
  }

  lemma SameRemainder(a: nat, b: nat, n: nat)
    requires n > 0 && a <= b
    ensures a % n == b % n <==> (b - a) % n == 0
  {
    var d := b - a;
    ModAdd(a, d, n);
    ModAdd(d, a % n, n);
    ModAdd(a, 0, n);
    if d % n != 0 && a % n == b % n {
      var r := a % n + d % n;
      if r < n { QuotientIs(r, n, 0, r); } else { QuotientIs(r, n, 1, r - n); }
    }
  }

  /** The payload of a packet is at position `pos` of the frame, and nothing else has changed. */
  ghost predicate Lands(c: Config, pos: nat, pkt: seq<byte>, raw: seq<byte>, raw': seq<byte>)
    requires |pkt| >= HEADER_SIZE
  {
    var at, n := pos * c.pktSize, |Data(pkt)|;
    at + n <= |raw| && raw' == raw[..at] + Data(pkt) + raw[at + n..]
  }

  /** A packet that the receiver finds at the right position is stored there, or dropped because it
      is too long; either way the receiver stays in step. */
  lemma PlaceInStep(c: Config, s: Stream, m: nat, pkt: seq<byte>, got: nat)
    requires c.Valid() && s.Valid(c) && InStep(c, s, m) && IsSent(c, m, pkt)
    ensures var (s', r) := Place(c, s, pkt, got);
      if Oversized(c, m, pkt) then s' == s && r == got
      else
        && InStep(c, s', m + 1)
        && Lands(c, m % c.pktsPerFrame, pkt, s.raw, s'.raw)
        && r == if m % c.pktsPerFrame == c.pktsPerFrame - 1 then c.frameSize else got
  {
    PlaceAt(c, s, m % c.pktsPerFrame, pkt, got);
    ModNext(m, c.pktsPerFrame);
    ModNext(m, 256);
  }

  lemma PlaceAt(c: Config, s: Stream, pos: nat, pkt: seq<byte>, got: nat)
    requires c.Valid() && s.Valid(c) && s.synced && s.pktNum == pos
    requires WellMarked(pkt) && pkt[3] == FlagOf(c, pos)
    ensures var (s', r) := Place(c, s, pkt, got);
      if |Data(pkt)| > c.Expected(pos) then s' == s && r == got
      else
        && s'.synced && s'.seqNo == (s.seqNo + 1) % 256
        && s'.pktNum == (if pos == c.pktsPerFrame - 1 then 0 else pos + 1)
        && Lands(c, pos, pkt, s.raw, s'.raw)
        && r == if pos == c.pktsPerFrame - 1 then c.frameSize else got
  {
    if |Data(pkt)| <= c.Expected(pos) {
      StoreFits(c, pos, |Data(pkt)|);
      StoreValid(c, s, pkt, got);
    }
  }

  /** A packet that the receiver takes for another one puts it out of step. */
  lemma PlaceOutOfStep(c: Config, s: Stream, m: nat, pkt: seq<byte>, got: nat)
    requires c.Valid() && s.Valid(c) && s.synced && IsSent(c, m, pkt) && s.pktNum != m % c.pktsPerFrame
    ensures !InStep(c, Place(c, s, pkt, got).0, if Oversized(c, m, pkt) then m else m + 1)
  {
    ModNext(m, c.pktsPerFrame);
    if FlagFits(c, pkt[3], s.pktNum) && |Data(pkt)| <= c.Expected(s.pktNum) {
      StoreValid(c, s, pkt, got);
    }
  }

  /** Exactly when a receiver in step stays in step: at most five packets are missing modulo 256, and
      the multiple of 256 that this leaves out is a whole number of frames. */
  lemma StaysInStepIff(c: Config, s: Stream, next: nat, m: nat, pkt: seq<byte>)
    requires c.Valid() && s.Valid(c) && InStep(c, s, next) && next <= m && IsSent(c, m, pkt)
    ensures InStep(c, Process(c, s, pkt).0, if Oversized(c, m, pkt) then m else m + 1)
      <==> (m - next) % 256 <= 5 && (m - next - (m - next) % 256) % c.pktsPerFrame == 0
  {
    LostModulo(s, next, m);
    Alignment(c.pktsPerFrame, next, m, (m - next) % 256);
    if Lost(s, pkt[5]) <= VALID_LOST_PACKETS {
      CatchUpTo(c, s, pkt[5]);
      var (s2, got) := CatchUp(c, s, pkt[5]);
      if s2.pktNum == m % c.pktsPerFrame {
        PlaceInStep(c, s2, m, pkt, got);
      } else {
        PlaceOutOfStep(c, s2, m, pkt, got);
      }
    }
  }

  /** The depth stream of 11-bit samples: 242 packets a frame. It cannot tell a loss of 256 packets from
      none, and takes what comes next for packets at other places of the frame. */
  lemma DepthStreamSlips(s: Stream, next: nat, m: nat, pkt: seq<byte>)
    requires var c := InitConfig(0x70, 1748, 422400);
      s.Valid(c) && InStep(c, s, next) && next + 256 <= m <= next + 256 + VALID_LOST_PACKETS && IsSent(c, m, pkt)
    ensures var c := InitConfig(0x70, 1748, 422400);
      && c.Valid() && c.pktsPerFrame == 242
      && !InStep(c, Process(c, s, pkt).0, if Oversized(c, m, pkt) then m else m + 1)
  {
    InitConfigValid(0x70, 1748, 422400);
    StaysInStepIff(InitConfig(0x70, 1748, 422400), s, next, m, pkt);
  }

  /** For instance, a receiver that expects packet number 0 and is sent number 256. */
  lemma DepthStreamSlipped() returns (c: Config, s: Stream, pkt: seq<byte>)
    ensures c == InitConfig(0x70, 1748, 422400) && c.Valid() && s.Valid(c) && InStep(c, s, 0)
    ensures IsSent(c, 256, pkt) && !Oversized(c, 256, pkt) && !InStep(c, Process(c, s, pkt).0, 257)
  {
    c := InitConfig(0x70, 1748, 422400);
    InitConfigValid(0x70, 1748, 422400);
    s := Stream(true, 0, 0, 0, 0, 0, 0, 0, seq(422400, _ => 0));
    pkt := ['R' as int, 'B' as int, 0, c.Mof(), 0, 0, 0, 0, 0, 0, 0, 0];
    assert c.pktsPerFrame == 242 && 256 % 242 == 14;
    DepthStreamSlips(s, 0, 256, pkt);
  }

  /** With at most five packets missing, every payload that is not too long lands at its original
      offset in the frame and nothing else in the buffer changes; a frame is reported exactly when
      the missing packets or this one complete it. */
  lemma PayloadLands(c: Config, s: Stream, next: nat, m: nat, pkt: seq<byte>)
    requires c.Valid() && s.Valid(c) && InStep(c, s, next) && next <= m <= next + VALID_LOST_PACKETS
      && IsSent(c, m, pkt)
    ensures var (s', r) := Process(c, s, pkt);
      && InStep(c, s', if Oversized(c, m, pkt) then m else m + 1)
      && (if Oversized(c, m, pkt) then s'.raw == s.raw else Lands(c, m % c.pktsPerFrame, pkt, s.raw, s'.raw))
      && (r > 0 <==> next % c.pktsPerFrame + (m - next) >= c.pktsPerFrame
                     || (m % c.pktsPerFrame == c.pktsPerFrame - 1 && !Oversized(c, m, pkt)))
  {
    var s2, got := Catches(c, s, next, m, pkt);
    FrameNotEmpty(c);
    PlaceInStep(c, s2, m, pkt, got);
  }

  lemma Catches(c: Config, s: Stream, next: nat, m: nat, pkt: seq<byte>) returns (s2: Stream, got: nat)
    requires c.Valid() && s.Valid(c) && InStep(c, s, next) && next <= m <= next + VALID_LOST_PACKETS
      && IsSent(c, m, pkt)
    ensures s2.Valid(c) && InStep(c, s2, m) && s2.raw == s.raw && Process(c, s, pkt) == Place(c, s2, pkt, got)
    ensures got == if next % c.pktsPerFrame + (m - next) >= c.pktsPerFrame then c.frameSize else 0
    ensures s2.lastTimestamp == s.lastTimestamp
    ensures if next % c.pktsPerFrame + (m - next) >= c.pktsPerFrame
            then s2.timestamp == s.lastTimestamp && s2.pktNum <= 4 else s2.timestamp == s.timestamp
  {
    FrameNotEmpty(c);
    LostModulo(s, next, m);
    ModAdd(next, m - next, c.pktsPerFrame);
    CatchUpTo(c, s, pkt[5]);
    s2, got := CatchUp(c, s, pkt[5]).0, CatchUp(c, s, pkt[5]).1;
  }

  /** It starts counting afresh then. */
  lemma ResyncCounts(c: Config, s: Stream, m: nat, pkt: seq<byte>)
    requires c.Valid() && s.Valid(c) && !s.synced && IsSent(c, m, pkt) && m % c.pktsPerFrame == 0
    ensures var (s', r) := Process(c, s, pkt);
      && r == 0 && s'.validPkts == 0 && s'.validFrames == s.validFrames
      && s'.gotPkts == (if Oversized(c, m, pkt) then 0 else 1)
  {
    FrameNotEmpty(c);
  }

  /** A receiver that is out of step gets into step at the start of any frame, and ignores the rest. */
  lemma Resync(c: Config, s: Stream, m: nat, pkt: seq<byte>)
    requires c.Valid() && s.Valid(c) && !s.synced && IsSent(c, m, pkt)
    ensures var s' := Process(c, s, pkt).0;
      if m % c.pktsPerFrame == 0 then InStep(c, s', if Oversized(c, m, pkt) then m else m + 1) else s' == s
  {
    if m % c.pktsPerFrame == 0 {
      var s1 := Sync(c, s, pkt);
      PlaceInStep(c, s1, m, pkt, 0);
    }
  }

  // ---------------------------------------------------------------- what is on the wire

  /** The header of the sender's packet number `m`. */
  lemma WireFormat(c: Config, m: nat, pkt: seq<byte>)
    requires c.flag % 8 == 0 && c.pktsPerFrame > 1
    ensures IsSent(c, m, pkt) <==>
      && |pkt| >= 12 && pkt[0] == 0x52 && pkt[1] == 0x42 && pkt[5] == m % 256
      && pkt[3] == c.flag + if m % c.pktsPerFrame == 0 then 1 else if (m + 1) % c.pktsPerFrame == 0 then 5 else 2
    ensures |pkt| >= 12 ==> Data(pkt) == pkt[12..]
  {
    ModNext(m, c.pktsPerFrame);
  }

  /** The timestamp is stored low byte first. */
  lemma TimestampIs(pkt: seq<byte>, t: nat)
    requires |pkt| >= 12 && t < 0x1_0000_0000
    ensures Timestamp(pkt) == t <==>
      && pkt[8] == t % 0x100 && pkt[9] == t / 0x100 % 0x100
      && pkt[10] == t / 0x1_0000 % 0x100 && pkt[11] == t / 0x100_0000
  {
    Digits(t);
    FourBytes(pkt[8], pkt[9], pkt[10], pkt[11]);
  }

  lemma Digits(t: nat)
    ensures t == t % 0x100 + 0x100 * (t / 0x100 % 0x100) + 0x1_0000 * (t / 0x1_0000 % 0x100)
      + 0x100_0000 * (t / 0x100_0000)
  {
    var u := t / 0x100;
    var v := u / 0x100;
    assert v == t / 0x1_0000 && v / 0x100 == t / 0x100_0000;
  }

  lemma FourBytes(a: byte, b: byte, c: byte, d: byte)
    ensures var t := a as int + 0x100 * b as int + 0x1_0000 * c as int + 0x100_0000 * d as int;
      t % 0x100 == a && t / 0x100 % 0x100 == b && t / 0x1_0000 % 0x100 == c && t / 0x100_0000 == d
  {
    var t := a as int + 0x100 * b as int + 0x1_0000 * c as int + 0x100_0000 * d as int;
    assert t / 0x100 == b as int + 0x100 * c as int + 0x1_0000 * d as int;
    assert t / 0x1_0000 == c as int + 0x100 * d as int;
  }

  // ---------------------------------------------------------------- whole streams

  datatype Sent = Sent(index: nat, pkt: seq<byte>)

  function NextIndex(c: Config, sent: Sent): nat
    requires c.pktsPerFrame > 0 && |sent.pkt| >= HEADER_SIZE
  {
    if Oversized(c, sent.index, sent.pkt) then sent.index else sent.index + 1
  }

  /** Packets arrive in order, and never are more than five missing before one. A packet that is too
      long counts as missing for the next one. */
  predicate Tolerable(c: Config, next: nat, sent: seq<Sent>)
    requires c.flag % 8 == 0 && c.pktsPerFrame > 0
    decreases |sent|
  {
    sent == [] ||
    (&& next <= sent[0].index <= next + VALID_LOST_PACKETS
     && IsSent(c, sent[0].index, sent[0].pkt)
     && Tolerable(c, NextIndex(c, sent[0]), sent[1..]))
  }

  function Expects(c: Config, next: nat, sent: seq<Sent>): nat
    requires c.flag % 8 == 0 && c.pktsPerFrame > 0 && Tolerable(c, next, sent)
    decreases |sent|
  {
    if sent == [] then next else Expects(c, NextIndex(c, sent[0]), sent[1..])
  }

  function ProcessAll(c: Config, s: Stream, pkts: seq<Sent>): (s': Stream)
    requires c.Valid() && s.Valid(c)
    ensures s'.Valid(c)
    decreases |pkts|
  {
    if pkts == [] then s
    else
      ProcessValid(c, s, pkts[0].pkt);
      ProcessAll(c, Process(c, s, pkts[0].pkt).0, pkts[1..])
  }

  /** Through any number of tolerable losses and oversized packets the receiver stays in step. */
  lemma {:induction false} Lockstep(c: Config, s: Stream, next: nat, sent: seq<Sent>)
    requires c.Valid() && s.Valid(c) && InStep(c, s, next) && Tolerable(c, next, sent)
    ensures InStep(c, ProcessAll(c, s, sent), Expects(c, next, sent))
    decreases |sent|
  {
    if sent != [] {
      ProcessValid(c, s, sent[0].pkt);
      PayloadLands(c, s, next, sent[0].index, sent[0].pkt);
      Lockstep(c, Process(c, s, sent[0].pkt).0, NextIndex(c, sent[0]), sent[1..]);
    }
  }

  /** A packet that lands leaves its timestamp for the frame; one that is too long leaves the one before. A
      frame that ends with its last packet bears that packet's, and one that is ended by a loss bears what was
      left last. */
  lemma StampLands(c: Config, s: Stream, next: nat, m: nat, pkt: seq<byte>)
    requires c.Valid() && s.Valid(c) && InStep(c, s, next) && next <= m <= next + VALID_LOST_PACKETS
      && IsSent(c, m, pkt)
    ensures var (s', r) := Process(c, s, pkt); var lost := next % c.pktsPerFrame + (m - next) >= c.pktsPerFrame;
      && s'.lastTimestamp == (if Oversized(c, m, pkt) then s.lastTimestamp else Timestamp(pkt))
      && (lost ==> r > 0 && s'.timestamp == s.lastTimestamp)
      && (r > 0 && !lost ==> s'.timestamp == Timestamp(pkt))
      && (r == 0 ==> s'.timestamp == s.timestamp)
  {
    var s2, got := Catches(c, s, next, m, pkt);
    FrameNotEmpty(c);
    PlaceInStep(c, s2, m, pkt, got);
    PlaceStamps(c, s2, m, pkt, got);
  }

  lemma PlaceStamps(c: Config, s: Stream, m: nat, pkt: seq<byte>, got: nat)
    requires c.Valid() && s.Valid(c) && InStep(c, s, m) && IsSent(c, m, pkt)
    ensures var s' := Place(c, s, pkt, got).0;
      && s'.lastTimestamp == (if Oversized(c, m, pkt) then s.lastTimestamp else Timestamp(pkt))
      && s'.timestamp == (if !Oversized(c, m, pkt) && m % c.pktsPerFrame == c.pktsPerFrame - 1
                          then Timestamp(pkt) else s.timestamp)
  {
  }

  /** After any tolerable run of packets, what is left is the timestamp of the last one that landed. */
  lemma {:induction false} LastStamp(c: Config, s: Stream, next: nat, sent: seq<Sent>, i: nat)
    requires c.Valid() && s.Valid(c) && InStep(c, s, next) && Tolerable(c, next, sent) && i < |sent|
    requires |sent[i].pkt| >= 12 && !Oversized(c, sent[i].index, sent[i].pkt)
    requires forall k | i < k < |sent| :: |sent[k].pkt| >= 12 && Oversized(c, sent[k].index, sent[k].pkt)
    ensures ProcessAll(c, s, sent).lastTimestamp == Timestamp(sent[i].pkt)
    decreases |sent|
  {
    ProcessValid(c, s, sent[0].pkt);
    PayloadLands(c, s, next, sent[0].index, sent[0].pkt);
    StampLands(c, s, next, sent[0].index, sent[0].pkt);
    var s1, next1, rest := Process(c, s, sent[0].pkt).0, NextIndex(c, sent[0]), sent[1..];
    if i > 0 {
      LastStamp(c, s1, next1, rest, i - 1);
    } else {
      StampStays(c, s1, next1, rest);
    }
  }

  lemma {:induction false} StampStays(c: Config, s: Stream, next: nat, sent: seq<Sent>)
    requires c.Valid() && s.Valid(c) && InStep(c, s, next) && Tolerable(c, next, sent)
    requires forall k | 0 <= k < |sent| :: |sent[k].pkt| >= 12 && Oversized(c, sent[k].index, sent[k].pkt)
    ensures ProcessAll(c, s, sent).lastTimestamp == s.lastTimestamp
    decreases |sent|
  {
    if sent != [] {
      ProcessValid(c, s, sent[0].pkt);
      PayloadLands(c, s, next, sent[0].index, sent[0].pkt);
      StampLands(c, s, next, sent[0].index, sent[0].pkt);
      StampStays(c, Process(c, s, sent[0].pkt).0, NextIndex(c, sent[0]), sent[1..]);
    }
  }

  /** So a frame that is ended by a loss is reported with the timestamp of the last packet that landed. */
  lemma LossReportsLastStamp(c: Config, s: Stream, next: nat, sent: seq<Sent>, i: nat, m: nat, pkt: seq<byte>)
    requires c.Valid() && s.Valid(c) && InStep(c, s, next) && Tolerable(c, next, sent) && i < |sent|
    requires |sent[i].pkt| >= 12 && !Oversized(c, sent[i].index, sent[i].pkt)
    requires forall k | i < k < |sent| :: |sent[k].pkt| >= 12 && Oversized(c, sent[k].index, sent[k].pkt)
    requires var expected := Expects(c, next, sent);
      && expected <= m <= expected + VALID_LOST_PACKETS && IsSent(c, m, pkt)
      && expected % c.pktsPerFrame + (m - expected) >= c.pktsPerFrame
    ensures var (s', r) := Process(c, ProcessAll(c, s, sent), pkt);
      r == c.frameSize && s'.timestamp == Timestamp(sent[i].pkt)
  {
    Lockstep(c, s, next, sent);
    LastStamp(c, s, next, sent, i);
    var s1, expected := ProcessAll(c, s, sent), Expects(c, next, sent);
    StampLands(c, s1, expected, m, pkt);
    ProcessValid(c, s1, pkt);
  }

  /** Packets number m, m + 1, ... arrive, none of them too long. */
  predicate Consecutive(c: Config, m: nat, sent: seq<Sent>)
    requires c.flag % 8 == 0 && c.pktsPerFrame > 0
  {
    forall k | 0 <= k < |sent| ::
      && sent[k].index == m + k && IsSent(c, sent[k].index, sent[k].pkt)
      && !Oversized(c, sent[k].index, sent[k].pkt)
  }

  /** The receiver knows that it is out of step, or is in step. */
  predicate Tuned(c: Config, s: Stream, next: nat)
    requires c.pktsPerFrame > 0
  {
    s.synced ==> InStep(c, s, next)
  }

  /** Whatever state the receiver is in, it is so after the first packet of a frame. */
  lemma FrameStartTunes(c: Config, s: Stream, m: nat, pkt: seq<byte>)
    requires c.Valid() && s.Valid(c) && IsSent(c, m, pkt) && !Oversized(c, m, pkt) && m % c.pktsPerFrame == 0
    ensures Tuned(c, Process(c, s, pkt).0, m + 1)
  {
    if !s.synced {
      Resync(c, s, m, pkt);
    } else if Lost(s, pkt[5]) <= VALID_LOST_PACKETS {
      CatchUpTo(c, s, pkt[5]);
      var (s2, got) := CatchUp(c, s, pkt[5]);
      if s2.pktNum == 0 { PlaceInStep(c, s2, m, pkt, got); }
    }
  }

  /** Then it stays so, and is in step once there is a frame's first packet. */
  lemma {:induction false} TunedStays(c: Config, s: Stream, m: nat, sent: seq<Sent>)
    requires c.Valid() && s.Valid(c) && Consecutive(c, m, sent) && Tuned(c, s, m)
    ensures Tuned(c, ProcessAll(c, s, sent), m + |sent|)
    ensures s.synced || (exists k :: m <= k < m + |sent| && k % c.pktsPerFrame == 0) ==> ProcessAll(c, s, sent).synced
    decreases |sent|
  {
    if sent != [] {
      assert sent[0].index == m + 0;
      ProcessValid(c, s, sent[0].pkt);
      if s.synced { PayloadLands(c, s, m, m, sent[0].pkt); } else { Resync(c, s, m, sent[0].pkt); }
      ConsecutiveRest(c, m, sent);
      TunedStays(c, Process(c, s, sent[0].pkt).0, m + 1, sent[1..]);
    }
  }

  lemma ConsecutiveRest(c: Config, m: nat, sent: seq<Sent>)
    requires c.flag % 8 == 0 && c.pktsPerFrame > 0 && Consecutive(c, m, sent) && sent != []
    ensures Consecutive(c, m + 1, sent[1..])
  {
    forall k | 0 <= k < |sent[1..]|
      ensures sent[1..][k].index == m + 1 + k && IsSent(c, sent[1..][k].index, sent[1..][k].pkt)
        && !Oversized(c, sent[1..][k].index, sent[1..][k].pkt)
    {
      assert sent[1..][k] == sent[k + 1];
    }
  }

  /** From any state, two frame starts among consecutive packets bring the receiver into step. */
  lemma {:induction false} SecondStart(c: Config, s: Stream, m: nat, sent: seq<Sent>, first: nat, second: nat)
    requires c.Valid() && s.Valid(c) && Consecutive(c, m, sent) && m <= first < second < m + |sent|
    requires first % c.pktsPerFrame == 0 && second % c.pktsPerFrame == 0
    ensures InStep(c, ProcessAll(c, s, sent), m + |sent|)
    decreases |sent|
  {
    assert sent[0].index == m + 0;
    ProcessValid(c, s, sent[0].pkt);
    ConsecutiveRest(c, m, sent);
    if first == m {
      FrameStartTunes(c, s, m, sent[0].pkt);
      TunedStays(c, Process(c, s, sent[0].pkt).0, m + 1, sent[1..]);
    } else {
      SecondStart(c, Process(c, s, sent[0].pkt).0, m + 1, sent[1..], first, second);
    }
  }

  /** So the stream stabilises by itself: from any state, in step or not, and whether the receiver knows it
      or not, two frames' worth of consecutive packets are enough. */
  lemma SelfStabilises(c: Config, s: Stream, m: nat, sent: seq<Sent>)
    requires c.Valid() && s.Valid(c) && Consecutive(c, m, sent) && |sent| >= 2 * c.pktsPerFrame
    ensures InStep(c, ProcessAll(c, s, sent), m + |sent|)
  {
    var n := c.pktsPerFrame;
    var first := FrameStart(m, n);
    ModAdd(first, n, n);
    QuotientIs(n, n, 1, 0);
    QuotientIs(0, n, 0, 0);
    SecondStart(c, s, m, sent, first, first + n);
  }

  lemma {:induction false} FrameStart(m: nat, n: nat) returns (first: nat)
    requires n > 0
    ensures m <= first < m + n && first % n == 0
  {
    if m % n == 0 {
      first := m;
    } else {
      first := m + (n - m % n);
      var q := m / n;
      assert m == q * n + m % n;
      assert first == (q + 1) * n + 0 by { assert (q + 1) * n == q * n + n; }
      QuotientIs(first, n, q + 1, 0);
    }
  }

  /** The part of a frame that the packet at position `pos` carries. */
  function Chunk(c: Config, frame: seq<byte>, pos: nat): (chunk: seq<byte>)
    requires c.Valid() && |frame| == c.frameSize && pos < c.pktsPerFrame
    ensures |chunk| == c.Expected(pos)
  {
    StoreFits(c, pos, c.Expected(pos));
    frame[pos * c.pktSize..pos * c.pktSize + c.Expected(pos)]
  }

  /** Packets number m, m + 1, ... carry the parts of the frame from position `pos` on. */
  predicate Carries(c: Config, frame: seq<byte>, m: nat, pos: nat, sent: seq<Sent>)
    requires c.Valid() && |frame| == c.frameSize && pos <= c.pktsPerFrame
  {
    && |sent| == c.pktsPerFrame - pos
    && forall k | 0 <= k < |sent| ::
         && sent[k].index == m + pos + k
         && IsSent(c, sent[k].index, sent[k].pkt)
         && Data(sent[k].pkt) == Chunk(c, frame, pos + k)
  }

  /** A frame whose packets all arrive with full payloads is reproduced exactly: the buffer holds the
      frame, all its packets are counted, and the receiver is ready for the next frame. */
  lemma FrameReproduced(c: Config, s: Stream, frame: seq<byte>, m: nat, sent: seq<Sent>)
    requires c.Valid() && s.Valid(c) && |frame| == c.frameSize
    requires m % c.pktsPerFrame == 0 && InStep(c, s, m) && Carries(c, frame, m, 0, sent)
    ensures var s' := ProcessAll(c, s, sent);
      s'.raw == frame && s'.validPkts == c.pktsPerFrame && InStep(c, s', m + c.pktsPerFrame)
  {
    RestReproduced(c, s, frame, m, 0, sent);
  }

  /** How much of the frame the packets before position `pos` carry. */
  function Covered(c: Config, pos: nat): nat {
    if pos == c.pktsPerFrame then c.frameSize else pos * c.pktSize
  }

  /** The part of the frame before position `pos` is in the buffer. */
  ghost predicate Holds(c: Config, raw: seq<byte>, frame: seq<byte>, pos: nat) {
    |raw| == |frame| == c.frameSize && Covered(c, pos) <= c.frameSize
      && raw[..Covered(c, pos)] == frame[..Covered(c, pos)]
  }

  lemma {:induction false} RestReproduced(c: Config, s: Stream, frame: seq<byte>, m: nat, pos: nat, sent: seq<Sent>)
    requires c.Valid() && s.Valid(c) && |frame| == c.frameSize && pos < c.pktsPerFrame
    requires m % c.pktsPerFrame == 0 && InStep(c, s, m + pos) && Carries(c, frame, m, pos, sent)
    requires s.gotPkts == pos && Holds(c, s.raw, frame, pos)
    ensures var s' := ProcessAll(c, s, sent);
      s'.raw == frame && s'.validPkts == c.pktsPerFrame && InStep(c, s', m + c.pktsPerFrame)
    decreases c.pktsPerFrame - pos
  {
    var s1 := NextHolds(c, s, frame, m, pos, sent[0].pkt);
    assert ProcessAll(c, s, sent) == ProcessAll(c, s1, sent[1..]);
    if pos == c.pktsPerFrame - 1 {
      assert sent[1..] == [];
      WholeFrame(c, s1.raw, frame);
    } else {
      CarriesRest(c, frame, m, pos, sent);
      RestReproduced(c, s1, frame, m, pos + 1, sent[1..]);
    }
  }

  lemma CarriesRest(c: Config, frame: seq<byte>, m: nat, pos: nat, sent: seq<Sent>)
    requires c.Valid() && |frame| == c.frameSize && pos < c.pktsPerFrame && Carries(c, frame, m, pos, sent)
    ensures Carries(c, frame, m, pos + 1, sent[1..])
  {
    assert forall k | 0 <= k < |sent[1..]| :: sent[1..][k] == sent[k + 1];
  }

  lemma NextHolds(c: Config, s: Stream, frame: seq<byte>, m: nat, pos: nat, pkt: seq<byte>) returns (s1: Stream)
    requires c.Valid() && s.Valid(c) && |frame| == c.frameSize && pos < c.pktsPerFrame
    requires m % c.pktsPerFrame == 0 && InStep(c, s, m + pos) && IsSent(c, m + pos, pkt)
      && Data(pkt) == Chunk(c, frame, pos)
    requires s.gotPkts == pos && Holds(c, s.raw, frame, pos)
    ensures s1 == Process(c, s, pkt).0 && s1.Valid(c) && InStep(c, s1, m + pos + 1) && Holds(c, s1.raw, frame, pos + 1)
    ensures if pos == c.pktsPerFrame - 1 then s1.validPkts == c.pktsPerFrame else s1.gotPkts == pos + 1
  {
    s1 := Process(c, s, pkt).0;
    assert s1.Valid(c) by { ProcessValid(c, s, pkt); }
    NextStored(c, s, m, pos, pkt);
    assert Holds(c, s1.raw, frame, pos + 1) by { ChunkLands(c, frame, pos, pkt, s.raw, s1.raw); }
  }

  lemma WholeFrame(c: Config, raw: seq<byte>, frame: seq<byte>)
    requires Holds(c, raw, frame, c.pktsPerFrame)
    ensures raw == frame
  {
    assert raw == raw[..c.frameSize] && frame == frame[..c.frameSize];
  }

  lemma NextStored(c: Config, s: Stream, m: nat, pos: nat, pkt: seq<byte>)
    requires c.Valid() && s.Valid(c) && pos < c.pktsPerFrame && m % c.pktsPerFrame == 0
    requires InStep(c, s, m + pos) && IsSent(c, m + pos, pkt) && |Data(pkt)| == c.Expected(pos) && s.gotPkts == pos
    ensures var s1 := Process(c, s, pkt).0;
      && InStep(c, s1, m + pos + 1) && Lands(c, pos, pkt, s.raw, s1.raw)
      && (if pos == c.pktsPerFrame - 1 then s1.validPkts == c.pktsPerFrame else s1.gotPkts == pos + 1)
  {
    PositionOf(m, pos, c.pktsPerFrame);
    assert Process(c, s, pkt) == Place(c, s, pkt, 0);
    PlaceInStep(c, s, m + pos, pkt, 0);
    PlaceCountsOne(c, s, pkt);
  }

  lemma PlaceCountsOne(c: Config, s: Stream, pkt: seq<byte>)
    requires c.Valid() && s.Valid(c) && s.synced && WellMarked(pkt)
    requires pkt[3] == FlagOf(c, s.pktNum) && |Data(pkt)| <= c.Expected(s.pktNum)
    ensures var s1 := Place(c, s, pkt, 0).0;
      if s.pktNum == c.pktsPerFrame - 1 then s1.validPkts == s.gotPkts + 1 else s1.gotPkts == s.gotPkts + 1
  {
    StoreValid(c, s, pkt, 0);
  }

  lemma ChunkLands(c: Config, frame: seq<byte>, pos: nat, pkt: seq<byte>, raw: seq<byte>, raw': seq<byte>)
    requires c.Valid() && |frame| == c.frameSize && pos < c.pktsPerFrame
    requires |pkt| >= HEADER_SIZE && Data(pkt) == Chunk(c, frame, pos)
    requires Lands(c, pos, pkt, raw, raw') && Holds(c, raw, frame, pos)
    ensures Holds(c, raw', frame, pos + 1)
  {
    StoreFits(c, pos, c.Expected(pos));
    var at := pos * c.pktSize;
    assert at + c.pktSize == (pos + 1) * c.pktSize;
    assert Covered(c, pos + 1) == at + c.Expected(pos);
    AppendChunk(raw, frame, at, at + c.Expected(pos));
  }

  lemma AppendChunk(raw: seq<byte>, frame: seq<byte>, i: nat, j: nat)
    requires i <= j <= |frame| == |raw| && raw[..i] == frame[..i]
    ensures var raw' := raw[..i] + frame[i..j] + raw[j..];
      |raw'| == |frame| && raw'[..j] == frame[..j] && (j == |frame| ==> raw' == frame)
  {
  }

  lemma PositionOf(m: nat, pos: nat, n: nat)
    requires pos < n && m % n == 0
    ensures (m + pos) % n == pos
  {
    ModAdd(m, pos, n);
    QuotientIs(pos, n, 0, pos);
  }

  // ---------------------------------------------------------------- the driver's object

  /** struct packet_stream. Buffers of the user and of the library are as long as a frame needs. */
  class PacketStream {
    var running: bool
    var flag: byte
    var synced: bool
    var seqNo: byte
    var gotPkts: nat
    var pktNum: nat
    var pktsPerFrame: nat
    var pktSize: nat
    var frameSize: nat
    var lastPktSize: nat
    var validPkts: nat
    var validFrames: nat
    var lastTimestamp: nat
    var timestamp: nat
    var splitBufs: bool
    var libBuf: array?<byte>
    var usrBuf: array?<byte>
    var rawBuf: array<byte>
    var procBuf: array<byte>

    ghost function Cfg(): Config
      reads this
    {
      Config(flag, pktSize, frameSize, lastPktSize, pktsPerFrame)
    }

    ghost function State(): Stream
      reads this, rawBuf
    {
      Stream(synced, seqNo, gotPkts, pktNum, validPkts, validFrames, lastTimestamp, timestamp, rawBuf[..])
    }

    ghost predicate Valid()
      reads this, rawBuf
    {
      Cfg().Valid() && State().Valid(Cfg()) && (!splitBufs ==> rawBuf == procBuf)
    }

    constructor ()
      ensures !running && usrBuf == null && libBuf == null
    {
      running, synced, splitBufs := false, false, false;
      flag, seqNo := 0, 0;
      gotPkts, pktNum, pktsPerFrame, pktSize, frameSize, lastPktSize := 0, 0, 0, 0, 0, 0;
      validPkts, validFrames, lastTimestamp, timestamp := 0, 0, 0, 0;
      libBuf, usrBuf := null, null;
      var none := new byte[0];
      rawBuf, procBuf := none, none;
    }

    /** stream_init: `rlen` is the size of a frame on the wire if the driver converts it, else 0, and
        `plen` the size of what the user gets. */
    method Init(rlen: nat, plen: nat)
      requires flag % 8 == 0 && pktSize > 0 && (if rlen == 0 then plen else rlen) > 5 * pktSize
      requires usrBuf != null ==> usrBuf.Length == plen
      modifies this`validFrames, this`synced, this`libBuf, this`procBuf, this`splitBufs, this`rawBuf
      modifies this`frameSize, this`lastPktSize, this`pktsPerFrame
      ensures Valid() && !synced && validFrames == 0
      ensures Cfg() == InitConfig(flag, pktSize, if rlen == 0 then plen else rlen)
      ensures splitBufs == (rlen != 0) && (splitBufs ==> fresh(rawBuf))
      ensures if usrBuf == null then libBuf != null && fresh(libBuf) && procBuf == libBuf
        else libBuf == null && procBuf == usrBuf
      ensures procBuf.Length == plen
    {
      validFrames, synced := 0, false;
      InitBuffers(rlen, plen);
      SetSizes();
      assert Cfg().Valid() by { InitConfigValid(flag, pktSize, frameSize); }
    }

    /** How stream_init chooses the buffers. */
    method InitBuffers(rlen: nat, plen: nat)
      requires usrBuf != null ==> usrBuf.Length == plen
      modifies this`libBuf, this`procBuf, this`splitBufs, this`rawBuf, this`frameSize
      ensures splitBufs == (rlen != 0) && frameSize == (if rlen == 0 then plen else rlen)
      ensures if usrBuf == null then libBuf != null && fresh(libBuf) && procBuf == libBuf
        else libBuf == null && procBuf == usrBuf
      ensures if splitBufs then fresh(rawBuf) else rawBuf == procBuf
      ensures procBuf.Length == plen && rawBuf.Length == frameSize
    {
      if usrBuf != null {
        libBuf, procBuf := null, usrBuf;
      } else {
        var buf := new byte[plen];
        libBuf, procBuf := buf, buf;
      }
      if rlen == 0 {
        splitBufs, rawBuf, frameSize := false, procBuf, plen;
      } else {
        splitBufs, frameSize := true, rlen;
        rawBuf := new byte[rlen];
      }
    }

    /** How stream_init cuts a frame into packets. */
    method SetSizes()
      requires pktSize > 0
      modifies this`lastPktSize, this`pktsPerFrame
      ensures Cfg() == InitConfig(flag, pktSize, frameSize)
    {
      lastPktSize := frameSize % pktSize;
      if lastPktSize == 0 {
        lastPktSize := pktSize;
      }
      pktsPerFrame := (frameSize + pktSize - 1) / pktSize;
    }

    /** stream_setbuf: a running stream switches its buffers at once, any other one when it starts. */
    method SetBuf(pbuf: array?<byte>) returns (r: int)
      requires running ==> Valid()
      requires running && !splitBufs ==>
        (pbuf != null ==> pbuf.Length == frameSize) && (libBuf != null ==> libBuf.Length == frameSize)
      modifies this`usrBuf, this`procBuf, this`rawBuf
      ensures r == if old(running) && pbuf == null && libBuf == null then -1 else 0
      ensures r != 0 ==> usrBuf == old(usrBuf) && procBuf == old(procBuf) && rawBuf == old(rawBuf)
      ensures r == 0 ==> usrBuf == pbuf
      ensures r == 0 && running ==> procBuf == (if pbuf != null then pbuf else libBuf)
      ensures rawBuf == if r == 0 && running && !splitBufs then procBuf else old(rawBuf)
      ensures !running ==> procBuf == old(procBuf)
      ensures running ==> Valid()
    {
      if !running {
        usrBuf := pbuf;
        return 0;
      }
      if pbuf == null && libBuf == null {
        return -1;
      }
      usrBuf := pbuf;
      procBuf := if pbuf == null then libBuf else pbuf;
      if !splitBufs {
        rawBuf := procBuf;
      }
      return 0;
    }

    method CopyIn(at: nat, data: seq<byte>)
      requires at + |data| <= rawBuf.Length
      modifies rawBuf
      ensures rawBuf[..] == old(rawBuf[..at]) + data + old(rawBuf[at + |data|..])
    {
      forall k | 0 <= k < |data| {
        rawBuf[at + k] := data[k];
      }
    }

    /** stream_process, where fewer than 12 bytes and a wrong magic are ignored. */
    method ProcessPacket(pkt: seq<byte>) returns (got: nat)
      requires Valid()
      modifies this`synced, this`seqNo, this`pktNum, this`validPkts, this`gotPkts, this`timestamp
      modifies this`lastTimestamp, this`validFrames, rawBuf
      ensures Valid()
      ensures (State(), got) == Process(Cfg(), old(State()), pkt)
    {
      if |pkt| < HEADER_SIZE || pkt[0] != 'R' as int || pkt[1] != 'B' as int {
        return 0;
      }
      SyncWith(pkt);
      if !synced {
        return 0;
      }
      var lost := (pkt[5] - seqNo) % 256;
      if seqNo != pkt[5] && lost > VALID_LOST_PACKETS {
        synced := false;
        return 0;
      }
      got := CatchUpWith(pkt[5], lost);
      got := PlacePacket(pkt, got);
    }

    /** The part of stream_process that waits for the start of a frame. */
    method SyncWith(pkt: seq<byte>)
      requires Valid() && WellMarked(pkt)
      modifies this`synced, this`seqNo, this`pktNum, this`validPkts, this`gotPkts
      ensures Valid() && State() == Sync(Cfg(), old(State()), pkt)
    {
      if !synced {
        if pkt[3] != flag + 1 {
          return;
        }
        synced, seqNo, pktNum, validPkts, gotPkts := true, pkt[5], 0, 0, 0;
      }
    }

    /** The part of stream_process that handles lost packets. */
    method CatchUpWith(newSeq: byte, lost: nat) returns (got: nat)
      requires Valid() && synced && lost == Lost(State(), newSeq) <= VALID_LOST_PACKETS
      modifies this`seqNo, this`pktNum, this`validPkts, this`gotPkts, this`timestamp, this`validFrames
      ensures Valid() && (State(), got) == CatchUp(Cfg(), old(State()), newSeq)
    {
      CatchUpTo(Cfg(), State(), newSeq);
      got := 0;
      if seqNo != newSeq {
        seqNo := newSeq;
        var left := pktsPerFrame - pktNum;
        if left <= lost {
          pktNum, validPkts, gotPkts := lost - left, gotPkts, 0;
          got := frameSize;
          timestamp, validFrames := lastTimestamp, validFrames + 1;
        } else {
          pktNum := pktNum + lost;
        }
      }
    }

    /** The part of stream_process that checks a packet against its position and stores it. */
    method PlacePacket(pkt: seq<byte>, soFar: nat) returns (got: nat)
      requires Valid() && synced && WellMarked(pkt)
      modifies this`synced, this`seqNo, this`pktNum, this`validPkts, this`gotPkts, this`timestamp
      modifies this`lastTimestamp, this`validFrames, rawBuf
      ensures Valid() && (State(), got) == Place(Cfg(), old(State()), pkt, soFar)
    {
      PlaceValid(Cfg(), State(), pkt, soFar);
      var expected := if pktNum == pktsPerFrame - 1 then lastPktSize else pktSize;
      var sof, mof, eof := flag + 1, flag + 2, flag + 5;
      if && !(pktNum == 0 && pkt[3] == sof)
         && !(pktNum == pktsPerFrame - 1 && pkt[3] == eof)
         && !(pktNum > 0 && pktNum < pktsPerFrame - 1 && pkt[3] == mof) {
        synced := false;
        return soFar;
      }
      if |pkt| - HEADER_SIZE > expected {
        return soFar;
      }
      got := StorePacket(pkt, soFar);
    }

    /** The part of stream_process that copies the data. */
    method StorePacket(pkt: seq<byte>, soFar: nat) returns (got: nat)
      requires Valid() && synced && WellMarked(pkt) && |Data(pkt)| <= Cfg().Expected(pktNum)
      modifies this`seqNo, this`pktNum, this`validPkts, this`gotPkts, this`timestamp
      modifies this`lastTimestamp, this`validFrames, rawBuf
      ensures (State(), got) == Store(Cfg(), old(State()), pkt, soFar)
    {
      ghost var (c, s) := (Cfg(), State());
      var at := pktNum * pktSize;
      assert at == s.pktNum * c.pktSize;
      StoreData(pkt, at);
      assert Cfg() == c && State() == Stored(c, s, pkt);
      got := CompleteFrame(pkt, at, soFar);
    }

    method CompleteFrame(pkt: seq<byte>, at: nat, soFar: nat) returns (got: nat)
      requires Cfg().Valid() && WellMarked(pkt)
      modifies this`pktNum, this`validPkts, this`gotPkts, this`timestamp, this`validFrames
      ensures (State(), got) == Completed(Cfg(), old(State()), pkt, at, soFar)
    {
      got := soFar;
      if pkt[3] == flag + 5 {
        got := at + lastPktSize;
        FinishFrame();
      }
    }

    method StoreData(pkt: seq<byte>, at: nat)
      requires Valid() && synced && WellMarked(pkt) && |Data(pkt)| <= Cfg().Expected(pktNum) && at == pktNum * pktSize
      modifies this`seqNo, this`pktNum, this`gotPkts, this`lastTimestamp, rawBuf
      ensures State() == Stored(Cfg(), old(State()), pkt)
    {
      assert at + |Data(pkt)| <= rawBuf.Length by { StoreFits(Cfg(), pktNum, |Data(pkt)|); }
      CopyIn(at, pkt[HEADER_SIZE..]);
      pktNum, seqNo, gotPkts := pktNum + 1, (seqNo + 1) % 256, gotPkts + 1;
      lastTimestamp := Timestamp(pkt);
    }

    /** What the last packet of a frame does. */
    method FinishFrame()
      modifies this`pktNum, this`validPkts, this`gotPkts, this`timestamp, this`validFrames
      ensures State() == CloseFrame(old(State())).(pktNum := 0)
    {
      pktNum, validPkts, gotPkts := 0, gotPkts, 0;
      timestamp, validFrames := lastTimestamp, validFrames + 1;
    }
  }
}
