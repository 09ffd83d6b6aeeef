/** From the camera to the user (cameras.c: depth_process): packing, packets, reassembly and unpacking. */
module DepthFrames {
  import opened Bytes
  import opened CameraStream
  import opened BitUnpack

  /** The samples of a frame, packed by the camera and cut into packets that all arrive, come out of the
      converter as they were, and the frame counts as complete. */
  lemma SamplesSurvive(c: Config, s: Stream, samples: seq<nat>, vw: nat, m: nat, sent: seq<Sent>)
    requires c.Valid() && s.Valid(c) && BytesFor(|samples|, vw) == c.frameSize
    requires forall k | 0 <= k < |samples| :: samples[k] < Pow2(vw)
    requires m % c.pktsPerFrame == 0 && InStep(c, s, m) && Carries(c, Pack(samples, vw), m, 0, sent)
    ensures var s' := ProcessAll(c, s, sent);
      && |s'.raw| == BytesFor(|samples|, vw) && Unpacked(s'.raw, vw, |samples|) == samples
      && s'.validPkts == c.pktsPerFrame && InStep(c, s', m + c.pktsPerFrame)
  {
    FrameReproduced(c, s, Pack(samples, vw), m, sent);
    UnpackPack(samples, vw);
  }
}
