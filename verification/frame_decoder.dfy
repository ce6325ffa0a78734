/**
  The frame decoder `mp3dec_decode_frame` of minimp3.h, which minimp3_ex.h drives but
  does not define. It is modelled as a function over an opaque decoder state, constrained
  only by what the loops of minimp3_ex.h rely on.
*/
module FrameDecoder {
  import opened Common

  /** `MINIMP3_MAX_SAMPLES_PER_FRAME` of minimp3.h: 1152 samples for each of two channels. */
  const MaxSamplesPerFrame: nat := 1152 * 2

  /** `mp3dec_frame_info_t`: what the decoder reports about the frame it consumed. */
  datatype FrameInfo = FrameInfo(frameBytes: nat, channels: nat, hz: nat, layer: nat, bitrateKbps: nat)

  /**
    One call of the decoder: the samples per channel it returned, the PCM it wrote, the
    frame information it filled in, and the decoder state it left behind.
  */
  datatype Decoded<S> = Decoded(samples: nat, pcm: seq<sample>, info: FrameInfo, next: S)

  /** Interleaved PCM elements a decoded frame contributes: samples times channels. */
  function Count<S>(d: Decoded<S>): nat
  {
    Product(d.samples, d.info.channels)
  }

  /**
    What the loops rely on from one decoder call, whatever the input: the PCM fits one
    maximal frame, it has one element per sample and channel, and a call that yields
    samples consumes bytes.
  */
  ghost predicate Sane<S>(d: Decoded<S>)
  {
    && Count(d) <= MaxSamplesPerFrame
    && |d.pcm| == Count(d)
    && (d.samples > 0 ==> d.info.frameBytes > 0)
  }

  /** What the loops rely on from one call on `available` input bytes: also, the frame lies inside the input. */
  ghost predicate Fits<S>(d: Decoded<S>, available: nat)
  {
    d.info.frameBytes <= available && Sane(d)
  }

  /** A decoder that keeps the contract above on every state and every input. */
  ghost predicate Honest<S(!new)>(decode: (S, seq<byte>) -> Decoded<S>)
  {
    forall st: S, input: seq<byte> :: Fits(decode(st, input), |input|)
  }

  /** Every call of a run keeps the per-call contract. */
  ghost predicate AllSane<S>(t: seq<Decoded<S>>)
  {
    forall i | 0 <= i < |t| :: Sane(t[i])
  }

  /** Input bytes a run of calls consumed. */
  function Consumed<S>(t: seq<Decoded<S>>): nat
  {
    if t == [] then 0 else t[0].info.frameBytes + Consumed(t[1..])
  }

  /**
    Every decoder call a loop makes when it starts at `input` with state `st`, advances by
    each reported frame length, and stops at the first call that consumes nothing. With
    an honest decoder the calls keep the per-call contract and stay inside the input.
  */
  function Trace<S(!new)>(decode: (S, seq<byte>) -> Decoded<S>, st: S, input: seq<byte>): (t: seq<Decoded<S>>)
    requires Honest(decode)
    ensures |t| >= 1 && t[0] == decode(st, input)
    ensures AllSane(t) && Consumed(t) <= |input|
    decreases |input|
  {
    var d := decode(st, input);
    if d.info.frameBytes == 0 then [d]
    else
      var u := Trace(decode, d.next, input[d.info.frameBytes..]);
      assert ([d] + u)[1..] == u;
      [d] + u
  }

  /** Only the last call of a trace consumes nothing: the loaders stop exactly there. */
  lemma {:induction false} TraceEnds<S(!new)>(decode: (S, seq<byte>) -> Decoded<S>, st: S, input: seq<byte>)
    requires Honest(decode)
    ensures forall i | 0 <= i < |Trace(decode, st, input)| ::
      Trace(decode, st, input)[i].info.frameBytes == 0 <==> i == |Trace(decode, st, input)| - 1
    decreases |input|
  {
    var t := Trace(decode, st, input);
    var d := decode(st, input);
    if d.info.frameBytes > 0 {
      var u := Trace(decode, d.next, input[d.info.frameBytes..]);
      TraceEnds(decode, d.next, input[d.info.frameBytes..]);
      assert t == [d] + u;
      forall i | 0 <= i < |t|
        ensures t[i].info.frameBytes == 0 <==> i == |t| - 1
      {
        if i > 0 {
          assert t[i] == u[i - 1];
          assert u[i - 1].info.frameBytes == 0 <==> i - 1 == |u| - 1;
        }
      }
    }
  }
}
