/** The three buffers between the driver and the synchronous interface (libfreenect_sync.c:
producer_cb_inner, sync_get; cameras.c: depth_process, video_process, stream_setbuf), at one format.

Slot 0 is the consumer's buffer, slot 1 holds the newest frame if `valid`, slot 2 is the driver's. The
buffer lock makes the callback and sync_get atomic; the driver writes its buffer without the lock, and
the consumer reads its own whenever it likes. B is the type of a buffer's address.
*/
module BufferRing {
  import opened Bytes
  import opened CameraStream
  import opened BitUnpack

  datatype Frame = Frame(data: seq<byte>, timestamp: nat)

  /** The consumer got frame number `index`, in buffer `buf`, which said it was of `timestamp`. */
  datatype Got<B> = Got(index: int, buf: B, timestamp: nat)

  /** `produced` and `got` are the history, with which the code does not concern itself. */
  datatype Ring<B> = Ring(bufs: seq<B>, procBuf: B, mem: map<B, seq<byte>>, valid: bool, timestamp: nat,
                          produced: seq<Frame>, got: seq<Got<B>>)

  /** The driver writes into its buffer, a frame is complete, the consumer takes the newest frame. */
  datatype Step = Write(data: seq<byte>) | Complete(timestamp: nat) | Get

  predicate Enabled<B>(r: Ring<B>, step: Step) {
    step.Get? ==> r.valid
  }

  function Next<B>(r: Ring<B>, step: Step): Ring<B>
    requires |r.bufs| == 3 && r.procBuf in r.mem
  {
    match step
    case Write(data) => r.(mem := r.mem[r.procBuf := data])
    case Complete(timestamp) =>
      r.(bufs := [r.bufs[0], r.bufs[2], r.bufs[1]], procBuf := r.bufs[1], timestamp := timestamp, valid := true,
         produced := r.produced + [Frame(r.mem[r.procBuf], timestamp)])
    case Get =>
      r.(bufs := [r.bufs[1], r.bufs[0], r.bufs[2]], valid := false,
         got := r.got + [Got(|r.produced| - 1, r.bufs[1], r.timestamp)])
  }

  /** What the ring guarantees. The consumer's latest buffer is its own and holds the frame it got. */
  predicate Inv<B>(r: Ring<B>) {
    && Slots(r)
    && (r.valid ==> NewestReady(r))
    && InOrder(r.got, |r.produced|)
    && (r.got != [] ==> HoldsFrame(r, r.got[|r.got| - 1]) && r.got[|r.got| - 1].buf == r.bufs[0])
    && (r.produced != [] && !r.valid ==> r.got != [] && r.got[|r.got| - 1].index == |r.produced| - 1)
  }

  predicate Slots<B>(r: Ring<B>) {
    && |r.bufs| == 3 && r.bufs[0] != r.bufs[1] && r.bufs[0] != r.bufs[2] && r.bufs[1] != r.bufs[2]
    && r.bufs[0] in r.mem && r.bufs[1] in r.mem && r.bufs[2] in r.mem
    && r.procBuf == r.bufs[2]
  }

  predicate NewestReady<B>(r: Ring<B>)
    requires Slots(r)
  {
    && r.produced != [] && Frame(r.mem[r.bufs[1]], r.timestamp) == r.produced[|r.produced| - 1]
    && (r.got != [] ==> r.got[|r.got| - 1].index < |r.produced| - 1)
  }

  predicate InOrder<B>(got: seq<Got<B>>, n: nat) {
    && (forall i | 0 <= i < |got| :: 0 <= got[i].index < n)
    && (forall i, j | 0 <= i < j < |got| :: got[i].index < got[j].index)
  }

  predicate HoldsFrame<B>(r: Ring<B>, g: Got<B>) {
    0 <= g.index < |r.produced| && g.buf in r.mem && Frame(r.mem[g.buf], g.timestamp) == r.produced[g.index]
  }

  lemma StepKeepsInv<B>(r: Ring<B>, step: Step)
    requires Inv(r) && Enabled(r, step)
    ensures Inv(Next(r, step))
  {
    var r' := Next(r, step);
    match step {
      case Write(_) =>
      case Complete(_) =>
        assert r'.produced[..|r.produced|] == r.produced;
      case Get =>
        assert r'.got[..|r.got|] == r.got;
    }
  }

  /** Neither the driver nor a completed frame touches the consumer's buffer. */
  lemma ConsumerUndisturbed<B>(r: Ring<B>, step: Step)
    requires Inv(r) && !step.Get?
    ensures var r' := Next(r, step);
      r'.bufs[0] == r.bufs[0] && r'.mem[r.bufs[0]] == r.mem[r.bufs[0]] && r'.got == r.got
  {
  }

  lemma WriteAgain<B>(r: Ring<B>, first: seq<byte>, second: seq<byte>)
    requires |r.bufs| == 3 && r.procBuf in r.mem
    ensures Next(Next(r, Write(first)), Write(second)) == Next(r, Write(second))
  {
    assert r.mem[r.procBuf := first][r.procBuf := second] == r.mem[r.procBuf := second];
  }

  ghost predicate IsRun<B(!new)>(run: seq<Ring<B>>, steps: seq<Step>) {
    && |run| == |steps| + 1 && Slots(run[0]) && !run[0].valid && run[0].produced == [] && run[0].got == []
    && forall i | 0 <= i < |steps| :: StepAt(run, steps, i)
  }

  ghost predicate StepAt<B(!new)>(run: seq<Ring<B>>, steps: seq<Step>, i: nat)
    requires i < |steps| && |run| == |steps| + 1
  {
    Slots(run[i]) && Enabled(run[i], steps[i]) && run[i + 1] == Next(run[i], steps[i])
  }

  lemma {:induction false} RunKeepsInv<B(!new)>(run: seq<Ring<B>>, steps: seq<Step>, k: nat)
    requires IsRun(run, steps) && k <= |steps|
    ensures Inv(run[k])
  {
    if k > 0 {
      RunKeepsInv(run, steps, k - 1);
      assert StepAt(run, steps, k - 1);
      StepKeepsInv(run[k - 1], steps[k - 1]);
    }
  }

  predicate TookNewest<B>(r: Ring<B>, r': Ring<B>)
    requires Slots(r')
  {
    && r'.produced == r.produced != [] && |r'.got| == |r.got| + 1 && r'.got[..|r.got|] == r.got
    && var newest := |r.produced| - 1; var g := r'.got[|r.got|];
    && g.index == newest && g.buf == r'.bufs[0] && Frame(r'.mem[r'.bufs[0]], g.timestamp) == r.produced[newest]
  }

  /** In every interleaving: the buffer of a completed frame is slot 2, as the driver's callback asserts;
      a get returns the newest frame with its own timestamp; and over the run, frames are got in the order
      in which they were produced, none twice. */
  lemma EveryGetIsNewest<B(!new)>(run: seq<Ring<B>>, steps: seq<Step>, k: nat)
    requires IsRun(run, steps) && k < |steps|
    ensures Slots(run[k]) && Slots(run[k + 1])
    ensures steps[k].Complete? ==> run[k].procBuf == run[k].bufs[2]
    ensures steps[k].Get? ==> TookNewest(run[k], run[k + 1])
    ensures InOrder(run[k + 1].got, |run[k + 1].produced|)
  {
    RunKeepsInv(run, steps, k);
    RunKeepsInv(run, steps, k + 1);
    assert StepAt(run, steps, k);
  }

  // ---------------------------------------------------------------- the objects

  /** How a complete frame in the raw buffer becomes what the user gets. */
  datatype Format = AsIs | To16Bit(vw: nat, pixels: nat) | To8Bit(pixels: nat)

  /** What of the raw frame is in the user's buffer. */
  ghost predicate Converted(format: Format, raw: seq<byte>, data: seq<byte>) {
    match format
    case AsIs => data == raw
    case To16Bit(vw, pixels) =>
      && BytesFor(pixels, vw) <= |raw| && 2 * pixels <= |data|
      && forall k | 0 <= k < pixels :: Halfword(data, k) == Unpacked(raw, vw, pixels)[k]
    case To8Bit(pixels) =>
      && BytesFor(pixels, 10) <= |raw| && pixels <= |data|
      && forall k | 0 <= k < pixels :: data[k] == Unpacked(raw, 10, pixels)[k] / Pow2(2)
  }

  lemma SameMemory(a: map<array<byte>, seq<byte>>, b: map<array<byte>, seq<byte>>,
                   x: array<byte>, y: array<byte>, z: array<byte>)
    requires a.Keys == b.Keys == {x, y, z} && a[x] == b[x] && a[y] == b[y] && a[z] == b[z]
    ensures a == b
  {
  }

  /** buffer_ring_t, with the stream that fills it. */
  class Sync {
    const stream: PacketStream
    var buf0: array<byte>
    var buf1: array<byte>
    var buf2: array<byte>
    var timestamp: nat
    var valid: bool
    ghost var produced: seq<Frame>
    ghost var got: seq<Got<array<byte>>>

    ghost function State(): Ring<array<byte>>
      reads this, stream, buf0, buf1, buf2
    {
      Ring([buf0, buf1, buf2], stream.procBuf, map[buf0 := buf0[..], buf1 := buf1[..], buf2 := buf2[..]],
           valid, timestamp, produced, got)
    }

    /** The stream runs; its raw buffer is the driver's, or no buffer of the ring. */
    ghost predicate Wired()
      reads this, stream, stream.rawBuf
    {
      && stream.running && stream.Valid()
      && (stream.splitBufs ==> stream.rawBuf != buf0 && stream.rawBuf != buf1 && stream.rawBuf != buf2)
      && (!stream.splitBufs ==>
            && buf0.Length == buf1.Length == buf2.Length == stream.frameSize
            && (stream.libBuf != null ==> stream.libBuf.Length == stream.frameSize))
    }

    ghost predicate Valid()
      reads this, stream, stream.rawBuf, buf0, buf1, buf2
    {
      Wired() && Inv(State())
    }

    constructor (stream: PacketStream, buf0: array<byte>, buf1: array<byte>, buf2: array<byte>)
      ensures this.stream == stream && this.buf0 == buf0 && this.buf1 == buf1 && this.buf2 == buf2
      ensures !valid && produced == [] && got == []
    {
      this.stream, this.buf0, this.buf1, this.buf2 := stream, buf0, buf1, buf2;
      timestamp, valid, produced, got := 0, false, [], [];
    }

    /** change_depth_format, from where the new buffers have been allocated: the driver gets the last one,
        and the stream starts. */
    method Start(rlen: nat, plen: nat)
      requires !stream.running && stream.flag % 8 == 0 && stream.pktSize > 0
      requires (if rlen == 0 then plen else rlen) > 5 * stream.pktSize
      requires buf0 != buf1 && buf0 != buf2 && buf1 != buf2
      requires buf0.Length == buf1.Length == buf2.Length == plen
      requires !valid && produced == [] && got == []
      modifies stream
      ensures Valid() && stream.procBuf == buf2
    {
      var r := stream.SetBuf(buf2);
      stream.Init(rlen, plen);
      stream.running := true;
    }

    /** producer_cb_inner. Its assertion is a precondition here, which every call meets. */
    method ProducerCallback(data: array<byte>, timestamp: nat)
      requires Valid() && data == buf2
      modifies this`buf1, this`buf2, this`timestamp, this`valid, this`produced
      modifies stream`usrBuf, stream`procBuf, stream`rawBuf
      ensures Valid() && State() == Next(old(State()), Complete(timestamp))
    {
      Swap(timestamp);
      var r := stream.SetBuf(buf2);
      assert State() == Next(old(State()), Complete(timestamp)) by {
        SameMemory(old(State()).mem, State().mem, buf0, buf1, buf2);
      }
      assert Inv(State()) by { StepKeepsInv(old(State()), Complete(timestamp)); }
    }

    method Swap(timestamp: nat)
      modifies this`buf1, this`buf2, this`timestamp, this`valid, this`produced
      ensures buf1 == old(buf2) && buf2 == old(buf1) && this.timestamp == timestamp && valid
      ensures produced == old(produced) + [Frame(old(buf2[..]), timestamp)]
    {
      produced := produced + [Frame(buf2[..], timestamp)];
      var temp := buf1;
      buf1 := buf2;
      buf2 := temp;
      this.timestamp := timestamp;
      valid := true;
    }

    /** One round of sync_get's loop: null if there is no frame yet, and the caller has to wait. */
    method SyncGet() returns (data: array?<byte>, timestamp: nat)
      requires Valid()
      modifies this`buf0, this`buf1, this`valid, this`got
      ensures Valid() && (data == null <==> !old(valid))
      ensures data == null ==> State() == old(State())
      ensures data != null ==>
        && State() == Next(old(State()), Get)
        && data == buf0 && Frame(data[..], timestamp) == produced[|produced| - 1]
    {
      if !valid {
        return null, 0;
      }
      ghost var before := State();
      StepKeepsInv(before, Get);
      got := got + [Got(|produced| - 1, buf1, this.timestamp)];
      var temp := buf0;
      buf0 := buf1;
      data := buf0;
      buf1 := temp;
      valid := false;
      timestamp := this.timestamp;
      assert State() == Next(before, Get) by { SameMemory(before.mem, State().mem, buf0, buf1, buf2); }
    }

    /** stream_process, as depth_process and video_process call it: at most the driver's buffer changes. */
    method Receive(pkt: seq<byte>) returns (n: nat)
      requires Valid()
      modifies stream`synced, stream`seqNo, stream`pktNum, stream`validPkts, stream`gotPkts, stream`timestamp
      modifies stream`lastTimestamp, stream`validFrames, stream.rawBuf
      ensures Valid() && State() == Next(old(State()), Write(buf2[..]))
      ensures (stream.State(), n) == Process(stream.Cfg(), old(stream.State()), pkt)
    {
      ghost var before := State();
      n := stream.ProcessPacket(pkt);
      StepKeepsInv(before, Write(buf2[..]));
      SameMemory(before.mem[buf2 := buf2[..]], State().mem, buf0, buf1, buf2);
    }

    /** Conversion of a complete frame into the driver's buffer. */
    method Convert(format: Format)
      requires Valid() && Fits(format)
      modifies if format.AsIs? then {} else {buf2}
      ensures Valid() && State() == Next(old(State()), Write(buf2[..]))
      ensures Converted(format, stream.rawBuf[..], buf2[..])
    {
      ghost var before := State();
      match format {
        case AsIs =>
        case To16Bit(vw, pixels) =>
          var consumed := ConvertPackedTo16Bit(stream.rawBuf, stream.procBuf, vw, pixels);
        case To8Bit(pixels) =>
          var consumed := ConvertPackedTo8Bit(stream.rawBuf, stream.procBuf, 10, pixels);
      }
      StepKeepsInv(before, Write(buf2[..]));
      SameMemory(before.mem[buf2 := buf2[..]], State().mem, buf0, buf1, buf2);
    }

    ghost predicate Fits(format: Format)
      reads this, stream, stream.rawBuf
    {
      match format
      case AsIs => !stream.splitBufs
      case To16Bit(vw, pixels) =>
        && stream.splitBufs && 8 <= vw <= 16 && BytesFor(pixels, vw) <= stream.rawBuf.Length
        && 2 * pixels <= buf0.Length && 2 * pixels <= buf1.Length && 2 * pixels <= buf2.Length
      case To8Bit(pixels) =>
        && stream.splitBufs && BytesFor(pixels, 10) <= stream.rawBuf.Length
        && pixels <= buf0.Length && pixels <= buf1.Length && pixels <= buf2.Length
    }

    /** What depth_process and video_process do with a complete frame. */
    method Deliver(format: Format)
      requires Valid() && Fits(format)
      modifies this`buf1, this`buf2, this`timestamp, this`valid, this`produced
      modifies stream`usrBuf, stream`procBuf, stream`rawBuf
      modifies if format.AsIs? then {} else {buf2}
      ensures Valid() && State() == Next(Next(old(State()), Write(buf1[..])), Complete(old(stream.timestamp)))
      ensures Converted(format, old(stream.rawBuf[..]), buf1[..])
    {
      Convert(format);
      ProducerCallback(stream.procBuf, stream.timestamp);
    }

    /** depth_process or video_process with the callback that the synchronous interface sets. */
    method ProcessPacket(pkt: seq<byte>, format: Format) returns (delivered: bool)
      requires Valid() && Fits(format)
      modifies this, stream, stream.rawBuf, buf2
      ensures Valid() && buf0 == old(buf0) && buf0[..] == old(buf0[..])
      ensures delivered == (|pkt| > 0 && Process(old(stream.Cfg()), old(stream.State()), pkt).1 > 0)
      ensures delivered ==>
        var frame := Process(old(stream.Cfg()), old(stream.State()), pkt).0;
        && State() == Next(Next(old(State()), Write(buf1[..])), Complete(frame.timestamp))
        && Converted(format, frame.raw, buf1[..])
      ensures !delivered ==> State() == Next(old(State()), Write(buf2[..]))
    {
      if |pkt| == 0 || !stream.running {
        SameMemory(State().mem, State().mem[buf2 := buf2[..]], buf0, buf1, buf2);
        return false;
      }
      var n := Receive(pkt);
      if n == 0 {
        return false;
      }
      ghost var received := buf2[..];
      Deliver(format);
      WriteAgain(old(State()), received, buf1[..]);
      return true;
    }
  }
}
