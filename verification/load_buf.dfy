/**
  `mp3dec_load_buf`: decode a whole in-memory stream into one growable PCM buffer,
  keeping the stream's rate, layer and channel count fixed and averaging the bitrate.
*/
module BufferLoader {
  import opened Common
  import opened Id3v2
  import opened FrameDecoder

  /** `mp3dec_file_info_t`: the decoded PCM, its element count (channels included) and stream facts. */
  datatype FileInfo = FileInfo(buffer: seq<sample>, samples: nat, channels: nat, hz: nat, layer: nat, avgBitrateKbps: nat)

  /** The all-zero `mp3dec_file_info_t` the loader starts from: no buffer and no samples. */
  const NoAudio: FileInfo := FileInfo([], 0, 0, 0, 0, 0)

  /**
    One pass through the capacity check that precedes every decode into the tail of the
    buffer: capacity before, elements in use, capacity after. Capacities count elements.
  */
  datatype Growth = Growth(before: nat, used: nat, after: nat)

  /** The growth policy: double exactly when fewer than one maximal frame of elements is free. */
  ghost predicate GrowthPolicy(g: Growth)
  {
    && g.used <= g.before
    && g.after == (if g.before - g.used < MaxSamplesPerFrame then 2 * g.before else g.before)
  }

  /** Successive checks see the capacity the previous one left, starting from `initial`. */
  ghost predicate Chained(gs: seq<Growth>, initial: nat)
  {
    && (gs != [] ==> gs[0].before == initial)
    && (forall k | 0 < k < |gs| :: gs[k].before == gs[k - 1].after)
  }

  /** Number of checks that doubled the capacity. */
  function Doublings(gs: seq<Growth>): nat
  {
    if gs == [] then 0
    else Doublings(gs[..|gs| - 1]) + (if gs[|gs| - 1].after != gs[|gs| - 1].before then 1 else 0)
  }

  /** Capacity after the last check (or the initial one when there was none). */
  function FinalCapacity(gs: seq<Growth>, initial: nat): nat
  {
    if gs == [] then initial else gs[|gs| - 1].after
  }

  /** After n doublings the capacity is the initial estimate times 2^n. */
  lemma {:induction false} CapacityDoubles(gs: seq<Growth>, initial: nat)
    requires initial > 0
    requires Chained(gs, initial)
    requires forall k | 0 <= k < |gs| :: GrowthPolicy(gs[k])
    ensures FinalCapacity(gs, initial) == initial * Pow2(Doublings(gs))
  {
    if gs != [] {
      var init := gs[..|gs| - 1];
      var g := gs[|gs| - 1];
      forall k | 0 < k < |init|
        ensures init[k].before == init[k - 1].after
      {
        assert init[k] == gs[k] && init[k - 1] == gs[k - 1];
      }
      assert init != [] ==> init[0] == gs[0];
      CapacityDoubles(init, initial);
      if |gs| > 1 {
        assert gs[|gs| - 1].before == gs[|gs| - 2].after;
      }
      assert g.before == FinalCapacity(init, initial);
      var p := Pow2(Doublings(init));
      if g.after != g.before {
        assert g.after == 2 * g.before;
        assert Pow2(Doublings(gs)) == 2 * p;
        calc {
          initial * Pow2(Doublings(gs));
          initial * (2 * p);
          2 * (initial * p);
        }
      }
    }
  }

  /** A frame is accepted into the stream of the first frame when its rate and layer match, and its channel count too unless mono/stereo transitions are allowed or the first frame reported none. */
  predicate Consistent(first: FrameInfo, f: FrameInfo, allowMonoStereo: bool)
  {
    && f.hz == first.hz
    && f.layer == first.layer
    && (allowMonoStereo || first.channels == 0 || f.channels == first.channels)
  }

  /** The calls of a run that yielded samples, in order. */
  function Yielding<S>(t: seq<Decoded<S>>): seq<Decoded<S>>
  {
    if t == [] then [] else (if t[0].samples > 0 then [t[0]] else []) + Yielding(t[1..])
  }

  /** Position of the first call that yielded samples, or |t| when none did. */
  function FirstYield<S>(t: seq<Decoded<S>>): (i: nat)
    ensures i <= |t|
  {
    if t == [] || t[0].samples > 0 then 0 else 1 + FirstYield(t[1..])
  }

  /**
    Position of the first call of `t` that yielded samples not consistent with the stream
    of the first frame `first`, or |t| when there is none.
  */
  function StopIndex<S>(t: seq<Decoded<S>>, first: FrameInfo, allowMonoStereo: bool): (k: nat)
    ensures k <= |t|
  {
    if t == [] || (t[0].samples > 0 && !Consistent(first, t[0].info, allowMonoStereo)) then 0
    else 1 + StopIndex(t[1..], first, allowMonoStereo)
  }

  /** PCM elements of a run of frames. */
  function TotalSamples<S>(fs: seq<Decoded<S>>): nat
  {
    if fs == [] then 0 else TotalSamples(fs[..|fs| - 1]) + Count(fs[|fs| - 1])
  }

  /** Sum of the bitrates of a run of frames. */
  function TotalBitrate<S>(fs: seq<Decoded<S>>): nat
  {
    if fs == [] then 0 else TotalBitrate(fs[..|fs| - 1]) + fs[|fs| - 1].info.bitrateKbps
  }

  /** The PCM of a run of frames, one after the other. */
  function Pcm<S>(fs: seq<Decoded<S>>): seq<sample>
  {
    if fs == [] then [] else Pcm(fs[..|fs| - 1]) + fs[|fs| - 1].pcm
  }

  /** The channel count the loader reports: the common one, or 0 to mark a mono/stereo mix. */
  function MarkedChannels<S>(fs: seq<Decoded<S>>): nat
    requires fs != []
  {
    if forall k | 0 <= k < |fs| :: fs[k].info.channels == fs[0].info.channels then fs[0].info.channels else 0
  }

  /** No call of the run yielded samples. */
  ghost predicate NoneYield<S>(t: seq<Decoded<S>>)
  {
    forall i | 0 <= i < |t| :: t[i].samples == 0
  }

  /**
    Which calls of the trace `t` the loader accepted. With none accepted, no call yielded
    samples. Otherwise `first` is the first call that yielded samples, every yielding call
    from `first` up to (not including) `stop` is accepted and matches the first frame, and
    the loop ended either because the trace ended (`stop == |t|`) or because call `stop`
    yielded a frame that does not match; that frame is not accepted.
  */
  ghost predicate LoadsFrom<S>(t: seq<Decoded<S>>, accepted: seq<Decoded<S>>, first: nat, stop: nat, allowMonoStereo: bool)
  {
    if accepted == [] then NoneYield(t)
    else
      && first < stop <= |t|
      && NoneYield(t[..first])
      && t[first].samples > 0
      && accepted == Yielding(t[first..stop])
      && (forall i | first <= i < stop && t[i].samples > 0 :: Consistent(t[first].info, t[i].info, allowMonoStereo))
      && (stop < |t| ==> t[stop].samples > 0 && !Consistent(t[first].info, t[stop].info, allowMonoStereo))
  }

  /** The file information the loader reports for a non-empty run of accepted frames. */
  ghost predicate Summarises<S>(info: FileInfo, accepted: seq<Decoded<S>>)
  {
    && accepted != []
    && info.buffer == Pcm(accepted)
    && info.samples == TotalSamples(accepted) == |info.buffer|
    && info.hz == accepted[0].info.hz
    && info.layer == accepted[0].info.layer
    && info.channels == MarkedChannels(accepted)
    && info.avgBitrateKbps == TotalBitrate(accepted) / |accepted|
  }

  lemma AccumulateSnoc<S>(fs: seq<Decoded<S>>, x: Decoded<S>)
    ensures TotalSamples(fs + [x]) == TotalSamples(fs) + Count(x)
    ensures TotalBitrate(fs + [x]) == TotalBitrate(fs) + x.info.bitrateKbps
    ensures Pcm(fs + [x]) == Pcm(fs) + x.pcm
  {
    assert (fs + [x])[..|fs|] == fs;
  }

  /** Line 132 writes the frame's PCM after what is in use: the write of `pcm` at `at`. */
  function Store(mem: seq<sample>, at: nat, pcm: seq<sample>): (r: seq<sample>)
    requires at + |pcm| <= |mem|
    ensures |r| == |mem| && r[..at] == mem[..at] && r[at..at + |pcm|] == pcm
    ensures r[at + |pcm|..] == mem[at + |pcm|..]
  {
    mem[..at] + pcm + mem[at + |pcm|..]
  }

  /**
    The loader's state between passes of the loop of lines 125-157: the accepted frames,
    the buffer `mem` (its length is the allocated capacity, in elements) of which `used`
    elements hold their PCM, the channel mark, the bitrate sum, the capacity checks made
    so far and the progress positions reported so far.
  */
  datatype Loader<S> = Loader(accepted: seq<Decoded<S>>, mem: seq<sample>, used: nat, channels: nat,
                              bitrateSum: nat, growth: seq<Growth>, progress: seq<nat>)

  /** What stays fixed during the loop: the first frame's information and the caller's options. */
  datatype Setup = Setup(first: FrameInfo, progressCb: bool, allowMonoStereo: bool)

  /** Lines 127-131: double the capacity when less than one maximal frame of elements is free. */
  function Reserve<S>(l: Loader<S>): (r: Loader<S>)
    requires l.used <= |l.mem| && |l.mem| >= MaxSamplesPerFrame
    ensures r == l.(mem := r.mem, growth := l.growth + [Growth(|l.mem|, l.used, |r.mem|)])
    ensures GrowthPolicy(Growth(|l.mem|, l.used, |r.mem|))
    ensures |r.mem| >= |l.mem| && r.mem[..|l.mem|] == l.mem && |r.mem| - l.used >= MaxSamplesPerFrame
  {
    var mem := if |l.mem| - l.used < MaxSamplesPerFrame then l.mem + Repeat(0, |l.mem|) else l.mem;
    l.(mem := mem, growth := l.growth + [Growth(|l.mem|, l.used, |mem|)])
  }

  /**
    Lines 138-145: a frame that yielded samples stays in the stream when its rate and layer
    are the first frame's and, unless mono/stereo transitions are allowed, its channel
    count is the current mark (a mark of 0 accepts any count).
  */
  predicate Matches(c: Setup, channels: nat, f: FrameInfo)
  {
    f.hz == c.first.hz && f.layer == c.first.layer
    && (c.allowMonoStereo || channels == 0 || channels == f.channels)
  }

  /**
    Lines 146-150: accept frame `e`, whose PCM is already in place, reporting `pos` bytes
    consumed to the progress callback when there is one.
  */
  function Take<S>(c: Setup, l: Loader<S>, e: Decoded<S>, pos: nat): Loader<S>
  {
    l.(accepted := l.accepted + [e], used := l.used + Count(e),
       channels := if l.channels != 0 && l.channels != e.info.channels then 0 else l.channels,
       bitrateSum := l.bitrateSum + e.info.bitrateKbps,
       progress := if c.progressCb then l.progress + [pos] else l.progress)
  }

  /** Lines 136-145: frame `e` yielded samples that do not match, and the loop breaks. */
  predicate Breaks<S>(c: Setup, l: Loader<S>, e: Decoded<S>)
  {
    e.samples > 0 && !Matches(c, l.channels, e.info)
  }

  /**
    One pass of the loop (lines 127-156) for the frame `e` the decoder returns: reserve
    room, let the decoder write its PCM into the free tail of the buffer, and accept the
    frame when it yielded samples that match; `pos` is the number of bytes consumed.
  */
  function Pass<S>(c: Setup, l: Loader<S>, e: Decoded<S>, pos: nat): (r: Loader<S>)
    requires l.used <= |l.mem| && |l.mem| >= MaxSamplesPerFrame
    requires |e.pcm| == Count(e) <= MaxSamplesPerFrame
    ensures r.used <= |r.mem| && |r.mem| >= MaxSamplesPerFrame
  {
    var g := Reserve(l);
    var w := g.(mem := Store(g.mem, g.used, e.pcm));
    if e.samples > 0 && Matches(c, l.channels, e.info) then Take(c, w, e, pos) else w
  }

  /**
    The loop of lines 125-157 over `calls`, the decoder calls still to come, with `pos`
    input bytes consumed so far: one pass per call, until a frame breaks the stream or
    the calls run out (the last call of a trace is the one that consumed nothing).
  */
  function Continue<S>(c: Setup, calls: seq<Decoded<S>>, pos: nat, l: Loader<S>): (r: Loader<S>)
    requires AllSane(calls)
    requires l.used <= |l.mem| && |l.mem| >= MaxSamplesPerFrame
    ensures |l.accepted| <= |r.accepted| && r.used <= |r.mem| && |r.mem| >= MaxSamplesPerFrame
  {
    if calls == [] then l
    else
      var e := calls[0];
      var w := Pass(c, l, e, pos + e.info.frameBytes);
      if Breaks(c, l, e) then w else Continue(c, calls[1..], pos + e.info.frameBytes, w)
  }

  /**
    Line 109: the first allocation, in elements: room for as many frames like the first
    as the remaining bytes could hold, plus one maximal frame.
  */
  function InitialCapacity<S>(d: Decoded<S>, remaining: nat): nat
    requires d.info.frameBytes > 0
  {
    Product(remaining / d.info.frameBytes, Count(d)) + MaxSamplesPerFrame
  }

  /**
    What the loader hands back: the file information, and for the proofs the accepted
    frames, the first allocation, the capacity checks, the capacity before the final
    shrink of line 160, and the progress positions reported.
  */
  datatype Load<S> = Load(info: FileInfo, accepted: seq<Decoded<S>>, estimate: nat, growth: seq<Growth>, capacity: nat, progress: seq<nat>)

  /**
    Lines 106-163 once the first frame `d` that yields samples is found, `pos` bytes into
    the buffer of `origSize` bytes, with `calls` the decoder calls after it: allocate by
    the estimate, copy `d`'s PCM, run the loop, and report the file information.
  */
  function LoadFrom<S>(d: Decoded<S>, calls: seq<Decoded<S>>, pos: nat, origSize: nat,
                       progressCb: bool, allowMonoStereo: bool): (r: Load<S>)
    requires Sane(d) && d.samples > 0 && AllSane(calls) && pos <= origSize
    ensures r.accepted != [] && r.info.samples == |r.info.buffer| <= r.capacity
  {
    var estimate := InitialCapacity(d, origSize - pos);
    var c := Setup(d.info, progressCb, allowMonoStereo);
    var l := Continue(c, calls, pos, Start(d, estimate));
    Load(FileInfo(l.mem[..l.used], l.used, l.channels, d.info.hz, d.info.layer, l.bitrateSum / |l.accepted|),
         l.accepted, estimate, l.growth, |l.mem|, l.progress)
  }

  /** Where loading starts: the first frame that yields samples, the calls after it, and the bytes consumed through it. */
  datatype Located<S> = Located(first: Decoded<S>, rest: seq<Decoded<S>>, pos: nat)

  /**
    Lines 86-106: skip the ID3v2 tag and decode until a frame yields samples. There is
    none when the tag claims more bytes than the buffer has or no call yields samples;
    a frame that yields samples consumes bytes, so calls always follow it.
  */
  function Locate<S(!new)>(decode: (S, seq<byte>) -> Decoded<S>, init: S, buf: seq<byte>): (r: Option<Located<S>>)
    requires Honest(decode)
    ensures r.Some? ==>
      && Sane(r.value.first) && r.value.first.samples > 0
      && AllSane(r.value.rest) && r.value.rest != []
      && r.value.pos + Consumed(r.value.rest) <= |buf|
  {
    var skip := SkipId3v2(buf);
    if skip > |buf| then None
    else
      var t := Trace(decode, init, buf[skip..]);
      var i := FirstYield(t);
      if i == |t| then None
      else
        FirstYieldSpec(t);
        ConsumedSplit(t, i + 1);
        TraceEnds(decode, init, buf[skip..]);
        assert i != |t| - 1;
        Some(Located(t[i], t[i + 1..], skip + Consumed(t[..i + 1])))
  }

  /** Locate in terms of the trace after the tag: the first yielding call, the calls after it, and the bytes through it. */
  lemma LocateTrace<S(!new)>(decode: (S, seq<byte>) -> Decoded<S>, init: S, buf: seq<byte>)
    requires Honest(decode)
    ensures SkipId3v2(buf) > |buf| ==> Locate(decode, init, buf).None?
    ensures SkipId3v2(buf) <= |buf| ==>
      var t := Trace(decode, init, buf[SkipId3v2(buf)..]);
      var i := FirstYield(t);
      && (Locate(decode, init, buf).None? <==> i == |t|)
      && (i < |t| ==> Locate(decode, init, buf) == Some(Located(t[i], t[i + 1..], SkipId3v2(buf) + Consumed(t[..i + 1]))))
  {
  }

  /**
    `mp3dec_load_buf` (lines 78-163) on a decoder starting in state `init`: skip the ID3v2
    tag, find the first frame that yields samples (lines 96-106), and load from there.
  */
  function LoadBuf<S(!new)>(decode: (S, seq<byte>) -> Decoded<S>, init: S, buf: seq<byte>,
                            progressCb: bool, allowMonoStereo: bool): (r: Load<S>)
    requires Honest(decode)
    ensures r.accepted == [] ==> r.info == NoAudio
    ensures r.accepted != [] ==> r.info.samples == |r.info.buffer| <= r.capacity
  {
    match Locate(decode, init, buf)
    case None => Load(NoAudio, [], 0, [], 0, [])
    case Some(s) => LoadFrom(s.first, s.rest, s.pos, |buf|, progressCb, allowMonoStereo)
  }

  /** FirstYield finds the first call that yielded samples: none before it did. */
  lemma {:induction false} FirstYieldSpec<S>(t: seq<Decoded<S>>)
    ensures NoneYield(t[..FirstYield(t)])
    ensures FirstYield(t) < |t| ==> t[FirstYield(t)].samples > 0
  {
    if t != [] && t[0].samples == 0 {
      FirstYieldSpec(t[1..]);
      var i := FirstYield(t[1..]);
      assert t[..i + 1] == [t[0]] + t[1..][..i];
    }
  }

  /**
    StopIndex finds the first call that breaks the stream: every yielding call before it
    is consistent with the first frame, and the call at it (if any) yielded samples that
    are not.
  */
  lemma {:induction false} StopIndexSpec<S>(t: seq<Decoded<S>>, first: FrameInfo, allowMonoStereo: bool)
    ensures var k := StopIndex(t, first, allowMonoStereo);
      forall j | 0 <= j < k && t[j].samples > 0 :: Consistent(first, t[j].info, allowMonoStereo)
    ensures var k := StopIndex(t, first, allowMonoStereo);
      k < |t| ==> t[k].samples > 0 && !Consistent(first, t[k].info, allowMonoStereo)
  {
    if t != [] && !(t[0].samples > 0 && !Consistent(first, t[0].info, allowMonoStereo)) {
      StopIndexSpec(t[1..], first, allowMonoStereo);
      var k := StopIndex(t, first, allowMonoStereo);
      forall j | 0 <= j < k && t[j].samples > 0
        ensures Consistent(first, t[j].info, allowMonoStereo)
      {
        if j > 0 {
          assert t[j] == t[1..][j - 1];
        }
      }
    }
  }

  /** The bytes consumed by a run are those of its first k calls and those of the rest. */
  lemma {:induction false} ConsumedSplit<S>(t: seq<Decoded<S>>, k: nat)
    requires k <= |t|
    ensures Consumed(t) == Consumed(t[..k]) + Consumed(t[k..])
  {
    if k > 0 {
      ConsumedSplit(t[1..], k - 1);
      assert t[..k][1..] == t[1..][..k - 1];
      assert t[k..] == t[1..][k - 1..];
    } else {
      assert t[..0] == [] && t[0..] == t;
    }
  }

  /**
    What the loader holds for the frames accepted so far: the running channel mark, the
    bitrate sum, and `used` elements of the buffer `mem` holding their PCM.
  */
  ghost predicate Accumulated<S>(accepted: seq<Decoded<S>>, mem: seq<sample>, used: nat, channels: nat, bitrateSum: nat)
  {
    && accepted != []
    && channels == MarkedChannels(accepted)
    && bitrateSum == TotalBitrate(accepted)
    && used == TotalSamples(accepted) <= |mem|
    && mem[..used] == Pcm(accepted)
  }

  /** Appending a frame whose PCM was written right after the used part of the buffer. */
  lemma AccumulateNext<S>(accepted: seq<Decoded<S>>, mem: seq<sample>, used: nat, channels: nat, bitrateSum: nat,
                          e: Decoded<S>, mem': seq<sample>)
    requires Accumulated(accepted, mem, used, channels, bitrateSum)
    requires |e.pcm| == Count(e) && used + |e.pcm| <= |mem'| && mem'[..used] == mem[..used]
    requires mem'[used..used + |e.pcm|] == e.pcm
    ensures Accumulated(accepted + [e], mem', used + |e.pcm|,
                        if channels != 0 && channels != e.info.channels then 0 else channels,
                        bitrateSum + e.info.bitrateKbps)
  {
    AccumulateSnoc(accepted, e);
    assert mem'[..used + |e.pcm|] == mem'[..used] + mem'[used..used + |e.pcm|];
    var fs := accepted + [e];
    assert fs[0] == accepted[0];
    if forall k | 0 <= k < |accepted| :: accepted[k].info.channels == accepted[0].info.channels {
      if e.info.channels != accepted[0].info.channels {
        assert fs[|accepted|].info.channels != fs[0].info.channels;
      }
    } else {
      var k :| 0 <= k < |accepted| && accepted[k].info.channels != accepted[0].info.channels;
      assert fs[k] == accepted[k];
    }
  }

  /** The capacity checks so far: chained from `initial`, following the policy, ending at `capacity`. */
  ghost predicate GrowthLog(growth: seq<Growth>, initial: nat, capacity: nat)
  {
    && Chained(growth, initial)
    && capacity == FinalCapacity(growth, initial)
    && forall k | 0 <= k < |growth| ::
      GrowthPolicy(growth[k]) && growth[k].after - growth[k].used >= MaxSamplesPerFrame
  }

  /** One more capacity check. */
  lemma GrowNext(growth: seq<Growth>, initial: nat, g: Growth)
    requires GrowthLog(growth, initial, g.before)
    requires GrowthPolicy(g) && g.after - g.used >= MaxSamplesPerFrame
    ensures GrowthLog(growth + [g], initial, g.after)
  {
    var gs := growth + [g];
    assert gs[|growth|] == g;
    forall k | 0 < k < |gs|
      ensures gs[k].before == gs[k - 1].after
    {
      if k < |growth| {
        assert gs[k] == growth[k] && gs[k - 1] == growth[k - 1];
      }
    }
  }

  /** Progress positions: increasing, none beyond `bound`. */
  ghost predicate ProgressLog(progress: seq<nat>, bound: nat)
  {
    && (forall k | 0 <= k < |progress| :: progress[k] <= bound)
    && (forall a, b | 0 <= a < b < |progress| :: progress[a] < progress[b])
  }

  /** A bound on the reports holds for any larger bound. */
  lemma ProgressWeaken(progress: seq<nat>, bound: nat, bound': nat)
    requires ProgressLog(progress, bound) && bound <= bound'
    ensures ProgressLog(progress, bound')
  {
  }

  /**
    The form of ProgressLog the loop keeps, one report at a time from the last: the last
    report is at most `bound`, and the ones before it are reports below it.
  */
  ghost predicate Reports(progress: seq<nat>, bound: int)
    decreases |progress|
  {
    progress == [] ||
    (progress[|progress| - 1] <= bound && Reports(progress[..|progress| - 1], progress[|progress| - 1] as int - 1))
  }

  /** Reports made one at a time are increasing throughout and bounded. */
  lemma {:induction false} ReportsIncreasing(progress: seq<nat>, bound: nat)
    requires Reports(progress, bound)
    ensures ProgressLog(progress, bound)
    decreases |progress|
  {
    if progress != [] {
      var n := |progress| - 1;
      var init := progress[..n];
      if init != [] {
        ReportsIncreasing(init, progress[n] - 1);
      }
      forall a, b | 0 <= a < b < |progress|
        ensures progress[a] < progress[b]
      {
        assert progress[a] == init[a];
        if b < n {
          assert progress[b] == init[b];
        }
      }
      forall k | 0 <= k < |progress|
        ensures progress[k] <= bound
      {
        if k < n {
          assert progress[k] == init[k];
        }
      }
    }
  }

  /** A bound on the reports holds for any larger bound. */
  lemma ReportsWeaken(progress: seq<nat>, bound: int, bound': int)
    requires Reports(progress, bound) && bound <= bound'
    ensures Reports(progress, bound')
  {
  }

  /** One more report, beyond every earlier one. */
  lemma ReportsNext(progress: seq<nat>, bound: nat, p: nat)
    requires Reports(progress, bound) && bound < p
    ensures Reports(progress + [p], p)
  {
    assert (progress + [p])[..|progress|] == progress;
    ReportsWeaken(progress, bound, p - 1);
  }

  /** The yielding calls of a prefix of e :: u: e's, if it yielded, then those of u's prefix. */
  lemma YieldingCons<S>(e: Decoded<S>, u: seq<Decoded<S>>, k: nat)
    requires k <= |u|
    ensures Yielding(([e] + u)[..1 + k]) == (if e.samples > 0 then [e] else []) + Yielding(u[..k])
  {
    assert ([e] + u)[..1 + k][1..] == u[..k];
  }

  /** Continue's definition, one call in, past a call that does not break the stream. */
  lemma ContinueUnfold<S>(c: Setup, calls: seq<Decoded<S>>, pos: nat, l: Loader<S>)
    requires AllSane(calls) && l.used <= |l.mem| && |l.mem| >= MaxSamplesPerFrame
    requires calls != [] && !Breaks(c, l, calls[0])
    ensures Continue(c, calls, pos, l) ==
      Continue(c, calls[1..], pos + calls[0].info.frameBytes, Pass(c, l, calls[0], pos + calls[0].info.frameBytes))
  {
  }

  /**
    The loop goes on past a call that does not break the stream: `w` is the loader its
    pass leaves at `p` bytes consumed, and `r` the loader the loop leaves.
  */
  lemma ContinueStep<S>(c: Setup, calls: seq<Decoded<S>>, pos: nat, l: Loader<S>, p: nat, w: Loader<S>, r: Loader<S>)
    requires AllSane(calls) && l.used <= |l.mem| && |l.mem| >= MaxSamplesPerFrame
    requires calls != [] && !Breaks(c, l, calls[0])
    requires p == pos + calls[0].info.frameBytes && w == Pass(c, l, calls[0], p)
    requires r == Continue(c, calls, pos, l)
    ensures AllSane(calls[1..]) && w.used <= |w.mem| && |w.mem| >= MaxSamplesPerFrame
    ensures r == Continue(c, calls[1..], p, w)
  {
    ContinueUnfold(c, calls, pos, l);
    EqualTrans(r, Continue(c, calls, pos, l), Continue(c, calls[1..], p, w));
  }

  /** The loop ends with the pass of a call that breaks the stream. */
  lemma ContinueBreak<S>(c: Setup, calls: seq<Decoded<S>>, pos: nat, l: Loader<S>)
    requires AllSane(calls) && l.used <= |l.mem| && |l.mem| >= MaxSamplesPerFrame
    requires calls != [] && Breaks(c, l, calls[0])
    ensures Continue(c, calls, pos, l) == Pass(c, l, calls[0], pos + calls[0].info.frameBytes)
  {
  }

  /** One pass accepts the frame exactly when it yielded samples and does not break the stream. */
  lemma PassAccepts<S>(c: Setup, l: Loader<S>, e: Decoded<S>, pos: nat)
    requires l.used <= |l.mem| && |l.mem| >= MaxSamplesPerFrame
    requires |e.pcm| == Count(e) <= MaxSamplesPerFrame
    requires !c.allowMonoStereo ==> l.channels == c.first.channels
    ensures var r := Pass(c, l, e, pos);
      && (Breaks(c, l, e) <==> e.samples > 0 && !Consistent(c.first, e.info, c.allowMonoStereo))
      && r.accepted == l.accepted + (if e.samples > 0 && !Breaks(c, l, e) then [e] else [])
      && (!c.allowMonoStereo ==> r.channels == c.first.channels)
  {
  }

  /** The frames a run of the loop accepted, from `l` to `r`: the yielding calls before the first that breaks the stream. */
  ghost predicate AcceptedFrom<S>(c: Setup, calls: seq<Decoded<S>>, l: Loader<S>, r: Loader<S>)
  {
    r.accepted == l.accepted + Yielding(calls[..StopIndex(calls, c.first, c.allowMonoStereo)])
  }

  /**
    The loop accepts exactly the yielding calls before the first call that breaks the
    stream, provided the channel mark is the first frame's whenever mono/stereo
    transitions are not allowed. `r` is the loader the loop leaves.
  */
  lemma {:induction false} ContinueAccepts<S>(c: Setup, calls: seq<Decoded<S>>, pos: nat, l: Loader<S>, r: Loader<S>)
    requires AllSane(calls) && l.used <= |l.mem| && |l.mem| >= MaxSamplesPerFrame
    requires !c.allowMonoStereo ==> l.channels == c.first.channels
    requires r == Continue(c, calls, pos, l)
    ensures AcceptedFrom(c, calls, l, r)
    decreases |calls|, 1
  {
    if calls == [] {
      assert calls[..0] == [];
    } else if Breaks(c, l, calls[0]) {
      PassAccepts(c, l, calls[0], pos + calls[0].info.frameBytes);
      ContinueBreak(c, calls, pos, l);
      assert calls[..0] == [];
    } else {
      AcceptsStep(c, calls, pos, l, r);
    }
  }

  /** The inductive step of ContinueAccepts, past a first call that does not break the stream. */
  lemma {:induction false} AcceptsStep<S>(c: Setup, calls: seq<Decoded<S>>, pos: nat, l: Loader<S>, r: Loader<S>)
    requires AllSane(calls) && l.used <= |l.mem| && |l.mem| >= MaxSamplesPerFrame
    requires !c.allowMonoStereo ==> l.channels == c.first.channels
    requires r == Continue(c, calls, pos, l)
    requires calls != [] && !Breaks(c, l, calls[0])
    ensures AcceptedFrom(c, calls, l, r)
    decreases |calls|, 0
  {
    var p := pos + calls[0].info.frameBytes;
    var w := Pass(c, l, calls[0], p);
    PassAccepts(c, l, calls[0], p);
    ContinueStep(c, calls, pos, l, p, w, r);
    ContinueAccepts(c, calls[1..], p, w, r);
    AcceptsJoin(c, calls, l, w, r);
  }

  /** Accepting past a first call that does not break the stream: that call, if it yielded, then what the rest accepted. */
  lemma AcceptsJoin<S>(c: Setup, calls: seq<Decoded<S>>, l: Loader<S>, w: Loader<S>, r: Loader<S>)
    requires calls != [] && !(calls[0].samples > 0 && !Consistent(c.first, calls[0].info, c.allowMonoStereo))
    requires w.accepted == l.accepted + (if calls[0].samples > 0 then [calls[0]] else [])
    requires AcceptedFrom(c, calls[1..], w, r)
    ensures AcceptedFrom(c, calls, l, r)
  {
    var k := StopIndex(calls[1..], c.first, c.allowMonoStereo);
    assert StopIndex(calls, c.first, c.allowMonoStereo) == 1 + k;
    assert calls == [calls[0]] + calls[1..];
    YieldingCons(calls[0], calls[1..], k);
  }

  /** One pass keeps the accepted PCM in the used part of the buffer, and the sums and the channel mark with it. */
  lemma PassAccumulates<S>(c: Setup, l: Loader<S>, e: Decoded<S>, pos: nat)
    requires |l.mem| >= MaxSamplesPerFrame && |e.pcm| == Count(e) <= MaxSamplesPerFrame
    requires AccumulatedIn(l)
    ensures AccumulatedIn(Pass(c, l, e, pos))
  {
    var g := Reserve(l);
    var w := g.(mem := Store(g.mem, g.used, e.pcm));
    assert w.mem[..l.used] == l.mem[..l.used];
    if e.samples > 0 && Matches(c, l.channels, e.info) {
      AccumulateNext(l.accepted, l.mem, l.used, l.channels, l.bitrateSum, e, w.mem);
    }
  }

  /** Accumulated, read off a loader's state. */
  ghost predicate AccumulatedIn<S>(l: Loader<S>)
  {
    Accumulated(l.accepted, l.mem, l.used, l.channels, l.bitrateSum)
  }

  /**
    The loop keeps the accepted PCM in the used part of the buffer, and the sums and the
    channel mark with it. `r` is the loader the loop leaves.
  */
  lemma {:induction false} ContinueAccumulates<S>(c: Setup, calls: seq<Decoded<S>>, pos: nat, l: Loader<S>, r: Loader<S>)
    requires AllSane(calls) && |l.mem| >= MaxSamplesPerFrame && AccumulatedIn(l)
    requires r == Continue(c, calls, pos, l)
    ensures AccumulatedIn(r)
    decreases |calls|, 1
  {
    if calls != [] {
      if Breaks(c, l, calls[0]) {
        PassAccumulates(c, l, calls[0], pos + calls[0].info.frameBytes);
        ContinueBreak(c, calls, pos, l);
      } else {
        AccumulatesStep(c, calls, pos, l, r);
      }
    }
  }

  /** The inductive step of ContinueAccumulates, past a first call that does not break the stream. */
  lemma {:induction false} AccumulatesStep<S>(c: Setup, calls: seq<Decoded<S>>, pos: nat, l: Loader<S>, r: Loader<S>)
    requires AllSane(calls) && |l.mem| >= MaxSamplesPerFrame && AccumulatedIn(l)
    requires r == Continue(c, calls, pos, l)
    requires calls != [] && !Breaks(c, l, calls[0])
    ensures AccumulatedIn(r)
    decreases |calls|, 0
  {
    var p := pos + calls[0].info.frameBytes;
    var w := Pass(c, l, calls[0], p);
    PassAccumulates(c, l, calls[0], p);
    ContinueStep(c, calls, pos, l, p, w, r);
    ContinueAccumulates(c, calls[1..], p, w, r);
  }

  /** One pass makes one capacity check that follows the growth policy. */
  lemma PassGrowth<S>(c: Setup, l: Loader<S>, e: Decoded<S>, pos: nat, initial: nat)
    requires l.used <= |l.mem| && |l.mem| >= MaxSamplesPerFrame
    requires |e.pcm| == Count(e) <= MaxSamplesPerFrame
    requires GrowthIn(l, initial)
    ensures GrowthIn(Pass(c, l, e, pos), initial) && |Pass(c, l, e, pos).growth| == |l.growth| + 1
  {
    var g := Reserve(l);
    GrowNext(l.growth, initial, Growth(|l.mem|, l.used, |g.mem|));
  }

  /** The capacity checks a loader has logged follow the policy from `initial` on and end at its capacity. */
  ghost predicate GrowthIn<S>(l: Loader<S>, initial: nat)
  {
    GrowthLog(l.growth, initial, |l.mem|)
  }

  /**
    Every pass of the loop makes one capacity check that follows the growth policy. `r` is
    the loader the loop leaves.
  */
  lemma {:induction false} ContinueGrowth<S>(c: Setup, calls: seq<Decoded<S>>, pos: nat, l: Loader<S>, initial: nat, r: Loader<S>)
    requires AllSane(calls) && l.used <= |l.mem| && |l.mem| >= MaxSamplesPerFrame
    requires GrowthIn(l, initial) && r == Continue(c, calls, pos, l)
    ensures GrowthIn(r, initial)
    ensures |r.growth| >= |l.growth| + (if calls == [] then 0 else 1)
    decreases |calls|, 1
  {
    if calls != [] {
      if Breaks(c, l, calls[0]) {
        PassGrowth(c, l, calls[0], pos + calls[0].info.frameBytes, initial);
        ContinueBreak(c, calls, pos, l);
      } else {
        GrowthStep(c, calls, pos, l, initial, r);
      }
    }
  }

  /** The inductive step of ContinueGrowth, past a first call that does not break the stream. */
  lemma {:induction false} GrowthStep<S>(c: Setup, calls: seq<Decoded<S>>, pos: nat, l: Loader<S>, initial: nat, r: Loader<S>)
    requires AllSane(calls) && l.used <= |l.mem| && |l.mem| >= MaxSamplesPerFrame
    requires GrowthIn(l, initial) && r == Continue(c, calls, pos, l)
    requires calls != [] && !Breaks(c, l, calls[0])
    ensures GrowthIn(r, initial)
    ensures |r.growth| >= |l.growth| + 1
    decreases |calls|, 0
  {
    var p := pos + calls[0].info.frameBytes;
    var w := Pass(c, l, calls[0], p);
    PassGrowth(c, l, calls[0], p, initial);
    ContinueStep(c, calls, pos, l, p, w, r);
    ContinueGrowth(c, calls[1..], p, w, initial, r);
  }

  /** The passes the loop makes over `calls`: every call up to and including the first that breaks the stream. */
  function Passes<S>(calls: seq<Decoded<S>>, first: FrameInfo, allowMonoStereo: bool): (n: nat)
    ensures n <= |calls|
  {
    var k := StopIndex(calls, first, allowMonoStereo);
    if k < |calls| then k + 1 else |calls|
  }

  /** Elements in a run of frames, one run after another. */
  lemma {:induction false} TotalSamplesAppend<S>(a: seq<Decoded<S>>, b: seq<Decoded<S>>)
    ensures TotalSamples(a + b) == TotalSamples(a) + TotalSamples(b)
    decreases |b|
  {
    if b == [] {
      assert a + b == a;
    } else {
      var b' := b[..|b| - 1];
      assert (a + b)[..|a + b| - 1] == a + b' && (a + b)[|a + b| - 1] == b[|b| - 1];
      TotalSamplesAppend(a, b');
      assert TotalSamples(a + b) == TotalSamples(a + b') + Count(b[|b| - 1]);
    }
  }

  /** The capacity checks a run of the loop logged, from `l` to `r`. */
  function NewChecks<S>(l: Loader<S>, r: Loader<S>): seq<Growth>
    requires |l.growth| <= |r.growth|
  {
    r.growth[|l.growth|..]
  }

  /**
    From `l` to `r` the loop logged one capacity check per pass over `calls`, after the
    checks `l` had, and check `j` saw in use the elements `l` had plus those of the
    frames that yielded among the first `j` calls.
  */
  ghost predicate CheckedFrom<S>(c: Setup, calls: seq<Decoded<S>>, l: Loader<S>, r: Loader<S>)
  {
    var n := Passes(calls, c.first, c.allowMonoStereo);
    && |r.growth| == |l.growth| + n
    && r.growth[..|l.growth|] == l.growth
    && forall j | 0 <= j < n :: NewChecks(l, r)[j].used == l.used + TotalSamples(Yielding(calls[..j]))
  }

  /** One pass logs one check, of the elements in use, and adds the frame's elements when it accepts it. */
  lemma PassChecks<S>(c: Setup, l: Loader<S>, e: Decoded<S>, pos: nat)
    requires l.used <= |l.mem| && |l.mem| >= MaxSamplesPerFrame
    requires |e.pcm| == Count(e) <= MaxSamplesPerFrame
    ensures var w := Pass(c, l, e, pos);
      && |w.growth| == |l.growth| + 1 && w.growth[..|l.growth|] == l.growth && w.growth[|l.growth|].used == l.used
      && w.used == l.used + (if e.samples > 0 && !Breaks(c, l, e) then Count(e) else 0)
  {
    assert (l.growth + [Growth(|l.mem|, l.used, |Reserve(l).mem|)])[..|l.growth|] == l.growth;
  }

  /**
    The loop logs exactly one capacity check per pass, and each sees the elements of the
    frames accepted before it. `r` is the loader the loop leaves.
  */
  lemma {:induction false} ContinueChecks<S>(c: Setup, calls: seq<Decoded<S>>, pos: nat, l: Loader<S>, r: Loader<S>)
    requires AllSane(calls) && l.used <= |l.mem| && |l.mem| >= MaxSamplesPerFrame
    requires !c.allowMonoStereo ==> l.channels == c.first.channels
    requires r == Continue(c, calls, pos, l)
    ensures CheckedFrom(c, calls, l, r)
    decreases |calls|, 1
  {
    if calls == [] {
      assert r.growth[..|l.growth|] == l.growth;
    } else if Breaks(c, l, calls[0]) {
      PassAccepts(c, l, calls[0], pos + calls[0].info.frameBytes);
      PassChecks(c, l, calls[0], pos + calls[0].info.frameBytes);
      ContinueBreak(c, calls, pos, l);
      assert calls[..0] == [];
    } else {
      ChecksStep(c, calls, pos, l, r);
    }
  }

  /** The inductive step of ContinueChecks, past a first call that does not break the stream. */
  lemma {:induction false} ChecksStep<S>(c: Setup, calls: seq<Decoded<S>>, pos: nat, l: Loader<S>, r: Loader<S>)
    requires AllSane(calls) && l.used <= |l.mem| && |l.mem| >= MaxSamplesPerFrame
    requires !c.allowMonoStereo ==> l.channels == c.first.channels
    requires r == Continue(c, calls, pos, l)
    requires calls != [] && !Breaks(c, l, calls[0])
    ensures CheckedFrom(c, calls, l, r)
    decreases |calls|, 0
  {
    var p := pos + calls[0].info.frameBytes;
    var w := Pass(c, l, calls[0], p);
    PassAccepts(c, l, calls[0], p);
    PassChecks(c, l, calls[0], p);
    ContinueStep(c, calls, pos, l, p, w, r);
    ContinueChecks(c, calls[1..], p, w, r);
    ChecksJoin(c, calls, l, w, r);
  }

  /** Checks past a first call that does not break the stream: its own, then those of the rest. */
  lemma ChecksJoin<S>(c: Setup, calls: seq<Decoded<S>>, l: Loader<S>, w: Loader<S>, r: Loader<S>)
    requires calls != [] && !(calls[0].samples > 0 && !Consistent(c.first, calls[0].info, c.allowMonoStereo))
    requires |w.growth| == |l.growth| + 1 && w.growth[..|l.growth|] == l.growth && w.growth[|l.growth|].used == l.used
    requires w.used == l.used + (if calls[0].samples > 0 then Count(calls[0]) else 0)
    requires CheckedFrom(c, calls[1..], w, r)
    ensures CheckedFrom(c, calls, l, r)
  {
    var e := calls[0];
    var u := calls[1..];
    assert StopIndex(calls, c.first, c.allowMonoStereo) == 1 + StopIndex(u, c.first, c.allowMonoStereo);
    var n := Passes(calls, c.first, c.allowMonoStereo);
    assert n == 1 + Passes(u, c.first, c.allowMonoStereo);
    assert r.growth[..|l.growth|] == r.growth[..|w.growth|][..|l.growth|];
    assert calls == [e] + u;
    assert |r.growth| == |w.growth| + Passes(u, c.first, c.allowMonoStereo);
    forall j | 0 <= j < n
      ensures NewChecks(l, r)[j].used == l.used + TotalSamples(Yielding(calls[..j]))
    {
      if j == 0 {
        assert NewChecks(l, r)[0] == r.growth[..|w.growth|][|l.growth|];
        assert calls[..0] == [];
      } else {
        assert NewChecks(l, r)[j] == r.growth[|l.growth| + j] == r.growth[|w.growth| + (j - 1)] == NewChecks(w, r)[j - 1];
        YieldingCons(e, u, j - 1);
        TotalSamplesAppend(if e.samples > 0 then [e] else [], Yielding(u[..j - 1]));
        assert TotalSamples([e]) == TotalSamples([e][..0]) + Count(e);
      }
    }
  }

  /**
    From `l` to `r` the loader reported, when there is a callback, once per frame it
    accepted, and every report so far is increasing and at most `bound`.
  */
  ghost predicate ProgressFrom<S>(c: Setup, l: Loader<S>, r: Loader<S>, bound: nat)
  {
    && Reports(r.progress, bound)
    && |r.progress| == |l.progress| + (if c.progressCb then |r.accepted| - |l.accepted| else 0)
  }

  /** One pass reports at `pos` exactly when there is a callback and the frame is accepted. */
  lemma PassProgress<S>(c: Setup, l: Loader<S>, e: Decoded<S>, pos: nat, bound: nat)
    requires l.used <= |l.mem| && |l.mem| >= MaxSamplesPerFrame
    requires Sane(e)
    requires Reports(l.progress, bound) && bound + e.info.frameBytes <= pos
    ensures ProgressFrom(c, l, Pass(c, l, e, pos), pos)
  {
    if e.samples > 0 && Matches(c, l.channels, e.info) && c.progressCb {
      ReportsNext(l.progress, bound, pos);
    }
  }

  /**
    With a progress callback, the loop reports once per accepted frame, at increasing
    positions no further than the bytes the calls consumed; without one it reports nothing.
    `r` is the loader the loop leaves.
  */
  lemma {:induction false} ContinueProgress<S>(c: Setup, calls: seq<Decoded<S>>, pos: nat, l: Loader<S>, r: Loader<S>)
    requires AllSane(calls) && l.used <= |l.mem| && |l.mem| >= MaxSamplesPerFrame
    requires Reports(l.progress, pos) && r == Continue(c, calls, pos, l)
    ensures ProgressFrom(c, l, r, pos + Consumed(calls))
    decreases |calls|, 1
  {
    if calls != [] {
      assert Consumed(calls) == calls[0].info.frameBytes + Consumed(calls[1..]);
      if Breaks(c, l, calls[0]) {
        PassProgress(c, l, calls[0], pos + calls[0].info.frameBytes, pos);
        ContinueBreak(c, calls, pos, l);
        ReportsWeaken(r.progress, pos + calls[0].info.frameBytes, pos + Consumed(calls));
      } else {
        ProgressStep(c, calls, pos, l, r);
      }
    }
  }

  /** The inductive step of ContinueProgress, past a first call that does not break the stream. */
  lemma {:induction false} ProgressStep<S>(c: Setup, calls: seq<Decoded<S>>, pos: nat, l: Loader<S>, r: Loader<S>)
    requires AllSane(calls) && l.used <= |l.mem| && |l.mem| >= MaxSamplesPerFrame
    requires Reports(l.progress, pos) && r == Continue(c, calls, pos, l)
    requires calls != [] && !Breaks(c, l, calls[0])
    ensures ProgressFrom(c, l, r, pos + Consumed(calls))
    decreases |calls|, 0
  {
    var p := pos + calls[0].info.frameBytes;
    var w := Pass(c, l, calls[0], p);
    PassProgress(c, l, calls[0], p, pos);
    ContinueStep(c, calls, pos, l, p, w, r);
    ContinueProgress(c, calls[1..], p, w, r);
    assert Consumed(calls) == calls[0].info.frameBytes + Consumed(calls[1..]);
    ProgressJoin(c, l, w, r, p, pos + Consumed(calls));
  }

  /** Two runs of reports, one after the other, make one run. */
  lemma ProgressJoin<S>(c: Setup, l: Loader<S>, w: Loader<S>, r: Loader<S>, mid: nat, bound: nat)
    requires ProgressFrom(c, l, w, mid) && ProgressFrom(c, w, r, bound)
    ensures ProgressFrom(c, l, r, bound)
  {
  }

  /** Position in the trace where the loader stops: see LoadsFrom. */
  ghost function StopOf<S>(t: seq<Decoded<S>>, allowMonoStereo: bool): nat
  {
    var i := FirstYield(t);
    if i == |t| then |t| else i + 1 + StopIndex(t[i + 1..], t[i].info, allowMonoStereo)
  }

  /** From the first frame on, the loader accepts it and the yielding calls after it up to the first that breaks the stream. */
  lemma LoadFromAccepts<S>(d: Decoded<S>, calls: seq<Decoded<S>>, pos: nat, origSize: nat,
                           progressCb: bool, allowMonoStereo: bool)
    requires Sane(d) && d.samples > 0 && AllSane(calls) && pos <= origSize
    ensures LoadFrom(d, calls, pos, origSize, progressCb, allowMonoStereo).accepted ==
      [d] + Yielding(calls[..StopIndex(calls, d.info, allowMonoStereo)])
  {
    var estimate := InitialCapacity(d, origSize - pos);
    var c := Setup(d.info, progressCb, allowMonoStereo);
    ContinueAccepts(c, calls, pos, Start(d, estimate), Continue(c, calls, pos, Start(d, estimate)));
  }

  /** The stream facts of LoadsFrom, read off the positions FirstYield and StopIndex find. */
  lemma LoadsFromPositions<S>(t: seq<Decoded<S>>, accepted: seq<Decoded<S>>, i: nat, allowMonoStereo: bool)
    requires i < |t| && i == FirstYield(t)
    requires var u := t[i + 1..];
      accepted == [t[i]] + Yielding(u[..StopIndex(u, t[i].info, allowMonoStereo)])
    ensures LoadsFrom(t, accepted, i, StopOf(t, allowMonoStereo), allowMonoStereo)
  {
    FirstYieldSpec(t);
    StreamAfter(t, i, allowMonoStereo);
    LoadsFromIntro(t, accepted, i, allowMonoStereo);
  }

  /** LoadsFrom at the first yielding call `i`, from the facts FirstYieldSpec and StreamAfter give. */
  lemma LoadsFromIntro<S>(t: seq<Decoded<S>>, accepted: seq<Decoded<S>>, i: nat, allowMonoStereo: bool)
    requires i < |t| && i == FirstYield(t) && NoneYield(t[..i]) && t[i].samples > 0
    requires var u := t[i + 1..];
      accepted == [t[i]] + Yielding(u[..StopIndex(u, t[i].info, allowMonoStereo)])
    requires var k := StopIndex(t[i + 1..], t[i].info, allowMonoStereo);
      forall j | i <= j < i + 1 + k && t[j].samples > 0 :: Consistent(t[i].info, t[j].info, allowMonoStereo)
    requires var k := StopIndex(t[i + 1..], t[i].info, allowMonoStereo);
      i + 1 + k < |t| ==> t[i + 1 + k].samples > 0 && !Consistent(t[i].info, t[i + 1 + k].info, allowMonoStereo)
    ensures LoadsFrom(t, accepted, i, StopOf(t, allowMonoStereo), allowMonoStereo)
  {
    var k := StopIndex(t[i + 1..], t[i].info, allowMonoStereo);
    assert StopOf(t, allowMonoStereo) == i + 1 + k;
    YieldingAfter(t, i, k);
  }

  /** The yielding calls of t[i..i + 1 + k], for a yielding call i: call i, then those of the k calls after it. */
  lemma YieldingAfter<S>(t: seq<Decoded<S>>, i: nat, k: nat)
    requires i + 1 + k <= |t| && t[i].samples > 0
    ensures Yielding(t[i..i + 1 + k]) == [t[i]] + Yielding(t[i + 1..][..k])
  {
    var u := t[i + 1..];
    assert t[i..i + 1 + k] == ([t[i]] + u)[..1 + k];
    YieldingCons(t[i], u, k);
  }

  /**
    Past the first yielding call `i`, the calls up to the one StopIndex finds match the
    frame at `i`, and the call found (if any) yielded samples that do not.
  */
  lemma StreamAfter<S>(t: seq<Decoded<S>>, i: nat, allowMonoStereo: bool)
    requires i < |t|
    ensures var k := StopIndex(t[i + 1..], t[i].info, allowMonoStereo);
      forall j | i <= j < i + 1 + k && t[j].samples > 0 :: Consistent(t[i].info, t[j].info, allowMonoStereo)
    ensures var k := StopIndex(t[i + 1..], t[i].info, allowMonoStereo);
      i + 1 + k < |t| ==> t[i + 1 + k].samples > 0 && !Consistent(t[i].info, t[i + 1 + k].info, allowMonoStereo)
  {
    var u := t[i + 1..];
    var k := StopIndex(u, t[i].info, allowMonoStereo);
    StopIndexSpec(u, t[i].info, allowMonoStereo);
    forall j | i <= j < i + 1 + k && t[j].samples > 0
      ensures Consistent(t[i].info, t[j].info, allowMonoStereo)
    {
      if j > i {
        assert t[j] == u[j - i - 1];
      }
    }
    if i + 1 + k < |t| {
      assert t[i + 1 + k] == u[k];
    }
  }

  /**
    The loader accepts exactly the frames LoadsFrom describes: after the ID3v2 tag, the
    first frame that yields samples and every later yielding frame up to the first one
    whose rate, layer or (unless transitions are allowed) channel count differs, or up
    to the call that consumes nothing. A tag that claims more bytes than the buffer has
    yields nothing.
  */
  lemma LoadBufAccepts<S(!new)>(decode: (S, seq<byte>) -> Decoded<S>, init: S, buf: seq<byte>,
                                progressCb: bool, allowMonoStereo: bool)
    requires Honest(decode)
    ensures var r := LoadBuf(decode, init, buf, progressCb, allowMonoStereo);
      SkipId3v2(buf) > |buf| ==> r.accepted == [] && r.info == NoAudio
    ensures var r := LoadBuf(decode, init, buf, progressCb, allowMonoStereo);
      SkipId3v2(buf) <= |buf| ==>
        var t := Trace(decode, init, buf[SkipId3v2(buf)..]);
        LoadsFrom(t, r.accepted, FirstYield(t), StopOf(t, allowMonoStereo), allowMonoStereo)
  {
    LocateTrace(decode, init, buf);
    var skip := SkipId3v2(buf);
    if skip <= |buf| {
      var t := Trace(decode, init, buf[skip..]);
      var i := FirstYield(t);
      if i < |t| {
        var s := Locate(decode, init, buf).value;
        LoadFromAccepts(s.first, s.rest, s.pos, |buf|, progressCb, allowMonoStereo);
        LoadsFromPositions(t, LoadBuf(decode, init, buf, progressCb, allowMonoStereo).accepted, i, allowMonoStereo);
      } else {
        FirstYieldSpec(t);
        assert t[..|t|] == t;
      }
    }
  }

  /** The loader's state right after the first frame (lines 109-121). */
  function Start<S>(d: Decoded<S>, estimate: nat): (l: Loader<S>)
    requires Sane(d) && estimate >= Count(d)
    ensures l.accepted == [d] && l.used == Count(d) <= |l.mem| == estimate
    ensures l.mem[..l.used] == d.pcm && l.growth == [] && l.progress == []
  {
    Loader([d], d.pcm + Repeat(0, estimate - Count(d)), Count(d), d.info.channels, d.info.bitrateKbps, [], [])
  }

  /** The first frame alone is accumulated. */
  lemma StartAccumulated<S>(d: Decoded<S>, estimate: nat)
    requires Sane(d) && estimate >= Count(d)
    ensures AccumulatedIn(Start(d, estimate))
  {
    assert [d][..0] == [];
  }

  /** From the first frame on, the reported information summarises the accepted frames. */
  lemma LoadFromSummary<S>(d: Decoded<S>, calls: seq<Decoded<S>>, pos: nat, origSize: nat,
                           progressCb: bool, allowMonoStereo: bool)
    requires Sane(d) && d.samples > 0 && AllSane(calls) && pos <= origSize
    ensures var r := LoadFrom(d, calls, pos, origSize, progressCb, allowMonoStereo);
      Summarises(r.info, r.accepted)
  {
    var estimate := InitialCapacity(d, origSize - pos);
    var c := Setup(d.info, progressCb, allowMonoStereo);
    var l0 := Start(d, estimate);
    StartAccumulated(d, estimate);
    ContinueAccumulates(c, calls, pos, l0, Continue(c, calls, pos, l0));
    LoadFromAccepts(d, calls, pos, origSize, progressCb, allowMonoStereo);
  }

  /**
    From the first frame on: every pass checks the capacity against one maximal frame and
    doubles it when short, so the final capacity is the estimate times a power of two and
    always leaves room for one more frame after the elements in use.
  */
  lemma LoadFromCapacity<S>(d: Decoded<S>, calls: seq<Decoded<S>>, pos: nat, origSize: nat,
                            progressCb: bool, allowMonoStereo: bool)
    requires Sane(d) && d.samples > 0 && AllSane(calls) && pos <= origSize
    ensures var r := LoadFrom(d, calls, pos, origSize, progressCb, allowMonoStereo);
      && r.estimate == InitialCapacity(d, origSize - pos)
      && (calls != [] ==> r.growth != [])
      && Chained(r.growth, r.estimate)
      && (forall k | 0 <= k < |r.growth| ::
            GrowthPolicy(r.growth[k]) && r.growth[k].after - r.growth[k].used >= MaxSamplesPerFrame)
      && r.capacity == r.estimate * Pow2(Doublings(r.growth))
  {
    var estimate := InitialCapacity(d, origSize - pos);
    var c := Setup(d.info, progressCb, allowMonoStereo);
    var r := LoadFrom(d, calls, pos, origSize, progressCb, allowMonoStereo);
    ContinueGrowth(c, calls, pos, Start(d, estimate), estimate, Continue(c, calls, pos, Start(d, estimate)));
    CapacityDoubles(r.growth, estimate);
  }

  /** From the first frame on: one capacity check per pass, each seeing the elements of the frames accepted before it. */
  lemma LoadFromChecks<S>(d: Decoded<S>, calls: seq<Decoded<S>>, pos: nat, origSize: nat,
                          progressCb: bool, allowMonoStereo: bool)
    requires Sane(d) && d.samples > 0 && AllSane(calls) && pos <= origSize
    ensures var r := LoadFrom(d, calls, pos, origSize, progressCb, allowMonoStereo);
      && |r.growth| == Passes(calls, d.info, allowMonoStereo)
      && forall j | 0 <= j < |r.growth| :: r.growth[j].used == Count(d) + TotalSamples(Yielding(calls[..j]))
  {
    var estimate := InitialCapacity(d, origSize - pos);
    var c := Setup(d.info, progressCb, allowMonoStereo);
    var l0 := Start(d, estimate);
    var l := Continue(c, calls, pos, l0);
    ContinueChecks(c, calls, pos, l0, l);
    assert forall j | 0 <= j < |l.growth| :: l.growth[j] == NewChecks(l0, l)[j];
  }

  /**
    From the first frame on: with a progress callback, one report per frame accepted after
    the first, at increasing byte positions no further than the calls consumed.
  */
  lemma LoadFromProgress<S>(d: Decoded<S>, calls: seq<Decoded<S>>, pos: nat, origSize: nat,
                            progressCb: bool, allowMonoStereo: bool)
    requires Sane(d) && d.samples > 0 && AllSane(calls) && pos <= origSize
    ensures var r := LoadFrom(d, calls, pos, origSize, progressCb, allowMonoStereo);
      && ProgressLog(r.progress, pos + Consumed(calls))
      && |r.progress| == (if progressCb then |r.accepted| - 1 else 0)
  {
    var estimate := InitialCapacity(d, origSize - pos);
    var c := Setup(d.info, progressCb, allowMonoStereo);
    var r := LoadFrom(d, calls, pos, origSize, progressCb, allowMonoStereo);
    ContinueProgress(c, calls, pos, Start(d, estimate), Continue(c, calls, pos, Start(d, estimate)));
    ReportsIncreasing(r.progress, pos + Consumed(calls));
  }

  /**
    The reported information summarises the accepted frames: their PCM back to back, its
    element count, the first frame's rate and layer, the common channel count (0 for a
    mono/stereo mix) and the integer average of their bitrates.
  */
  lemma LoadBufSummary<S(!new)>(decode: (S, seq<byte>) -> Decoded<S>, init: S, buf: seq<byte>,
                                progressCb: bool, allowMonoStereo: bool)
    requires Honest(decode)
    ensures var r := LoadBuf(decode, init, buf, progressCb, allowMonoStereo);
      r.accepted != [] ==> Summarises(r.info, r.accepted)
  {
    match Locate(decode, init, buf)
    case None =>
    case Some(s) => LoadFromSummary(s.first, s.rest, s.pos, |buf|, progressCb, allowMonoStereo);
  }

  /**
    Line 109: a load whose first frame is the first yielding call of the trace `t`, with
    `remaining` bytes after the tag, starts from room for as many frames like it as the
    bytes left after it could hold, plus one maximal frame.
  */
  ghost predicate EstimatedFrom<S>(t: seq<Decoded<S>>, remaining: nat, estimate: nat)
  {
    var i := FirstYield(t);
    && i < |t| && t[i].info.frameBytes > 0
    && Consumed(t[..i + 1]) <= remaining
    && estimate == InitialCapacity(t[i], remaining - Consumed(t[..i + 1]))
  }

  /** The first allocation is sized from the first yielding frame and the bytes left after it, as EstimatedFrom says. */
  lemma LoadBufEstimate<S(!new)>(decode: (S, seq<byte>) -> Decoded<S>, init: S, buf: seq<byte>,
                                 progressCb: bool, allowMonoStereo: bool)
    requires Honest(decode)
    ensures var r := LoadBuf(decode, init, buf, progressCb, allowMonoStereo);
      r.accepted != [] ==>
        && SkipId3v2(buf) <= |buf|
        && EstimatedFrom(Trace(decode, init, buf[SkipId3v2(buf)..]), |buf| - SkipId3v2(buf), r.estimate)
  {
    match Locate(decode, init, buf)
    case None =>
    case Some(s) =>
      LoadBufFrom(decode, init, buf, progressCb, allowMonoStereo);
      LoadFromEstimate(s.first, s.rest, s.pos, |buf|, progressCb, allowMonoStereo);
      LocateAt(decode, init, buf, LoadBuf(decode, init, buf, progressCb, allowMonoStereo).estimate);
  }

  /** Once Locate finds a frame, LoadBuf is the load from it. */
  lemma LoadBufFrom<S(!new)>(decode: (S, seq<byte>) -> Decoded<S>, init: S, buf: seq<byte>,
                             progressCb: bool, allowMonoStereo: bool)
    requires Honest(decode) && Locate(decode, init, buf).Some?
    ensures var s := Locate(decode, init, buf).value;
      LoadBuf(decode, init, buf, progressCb, allowMonoStereo) == LoadFrom(s.first, s.rest, s.pos, |buf|, progressCb, allowMonoStereo)
  {
  }

  /** A load from a first frame starts from the estimate for the bytes left after it. */
  lemma LoadFromEstimate<S>(d: Decoded<S>, calls: seq<Decoded<S>>, pos: nat, origSize: nat,
                            progressCb: bool, allowMonoStereo: bool)
    requires Sane(d) && d.samples > 0 && AllSane(calls) && pos <= origSize
    ensures LoadFrom(d, calls, pos, origSize, progressCb, allowMonoStereo).estimate == InitialCapacity(d, origSize - pos)
  {
  }

  /** A frame Locate finds is the first yielding call of the trace after the tag, and the load from it is estimated from there. */
  lemma LocateAt<S(!new)>(decode: (S, seq<byte>) -> Decoded<S>, init: S, buf: seq<byte>, estimate: nat)
    requires Honest(decode) && Locate(decode, init, buf).Some?
    requires estimate == InitialCapacity(Locate(decode, init, buf).value.first, |buf| - Locate(decode, init, buf).value.pos)
    ensures SkipId3v2(buf) <= |buf|
    ensures EstimatedFrom(Trace(decode, init, buf[SkipId3v2(buf)..]), |buf| - SkipId3v2(buf), estimate)
  {
    LocateTrace(decode, init, buf);
  }

  /**
    Lines 127-131: every pass after the first allocation doubles the capacity exactly when
    less than one maximal frame is free, so the final capacity is the estimate times a
    power of two and never falls short of the samples.
  */
  lemma LoadBufCapacity<S(!new)>(decode: (S, seq<byte>) -> Decoded<S>, init: S, buf: seq<byte>,
                                 progressCb: bool, allowMonoStereo: bool)
    requires Honest(decode)
    ensures var r := LoadBuf(decode, init, buf, progressCb, allowMonoStereo);
      r.accepted != [] ==>
        && r.growth != []
        && Chained(r.growth, r.estimate)
        && (forall k | 0 <= k < |r.growth| ::
              GrowthPolicy(r.growth[k]) && r.growth[k].after - r.growth[k].used >= MaxSamplesPerFrame)
        && r.capacity == r.estimate * Pow2(Doublings(r.growth))
        && r.info.samples <= r.capacity
  {
    match Locate(decode, init, buf)
    case None =>
    case Some(s) => LoadFromCapacity(s.first, s.rest, s.pos, |buf|, progressCb, allowMonoStereo);
  }

  /**
    The capacity checks of a load whose first frame is the first yielding call `i` of the
    trace `t`: one per pass over the calls after it, and check `j` sees the elements of
    that frame and of the yielding calls among the first `j` after it.
  */
  ghost predicate CheckedIn<S>(t: seq<Decoded<S>>, allowMonoStereo: bool, growth: seq<Growth>)
  {
    var i := FirstYield(t);
    && i < |t|
    && |growth| == Passes(t[i + 1..], t[i].info, allowMonoStereo)
    && forall j | 0 <= j < |growth| :: growth[j].used == Count(t[i]) + TotalSamples(Yielding(t[i + 1..][..j]))
  }

  /**
    Lines 125-131: once the first frame is found, the loop checks the capacity once per
    pass, through the pass of the call that breaks the stream or the call that consumes
    nothing, and each check sees the elements of the frames accepted before it.
  */
  lemma LoadBufChecks<S(!new)>(decode: (S, seq<byte>) -> Decoded<S>, init: S, buf: seq<byte>,
                               progressCb: bool, allowMonoStereo: bool)
    requires Honest(decode)
    ensures var r := LoadBuf(decode, init, buf, progressCb, allowMonoStereo);
      Locate(decode, init, buf).Some? ==>
        var s := Locate(decode, init, buf).value;
        && |r.growth| == Passes(s.rest, s.first.info, allowMonoStereo)
        && forall j | 0 <= j < |r.growth| :: r.growth[j].used == Count(s.first) + TotalSamples(Yielding(s.rest[..j]))
  {
    match Locate(decode, init, buf)
    case None =>
    case Some(s) =>
      LoadBufFrom(decode, init, buf, progressCb, allowMonoStereo);
      LoadFromChecks(s.first, s.rest, s.pos, |buf|, progressCb, allowMonoStereo);
  }

  /**
    Checks stated against the frame Locate finds are checks stated against the trace after
    the tag: the first frame is its first yielding call, and the passes run over the calls
    after it.
  */
  lemma LocateChecks<S(!new)>(decode: (S, seq<byte>) -> Decoded<S>, init: S, buf: seq<byte>, allowMonoStereo: bool,
                              growth: seq<Growth>)
    requires Honest(decode) && Locate(decode, init, buf).Some?
    requires var s := Locate(decode, init, buf).value;
      && |growth| == Passes(s.rest, s.first.info, allowMonoStereo)
      && forall j | 0 <= j < |growth| :: growth[j].used == Count(s.first) + TotalSamples(Yielding(s.rest[..j]))
    ensures SkipId3v2(buf) <= |buf|
    ensures CheckedIn(Trace(decode, init, buf[SkipId3v2(buf)..]), allowMonoStereo, growth)
  {
    LocateTrace(decode, init, buf);
  }

  /**
    Line 150: with a progress callback the loader reports once per frame accepted after
    the first, at strictly increasing byte positions that never pass the end of the
    buffer; without one, or with no audio, it reports nothing.
  */
  lemma LoadBufProgress<S(!new)>(decode: (S, seq<byte>) -> Decoded<S>, init: S, buf: seq<byte>,
                                 progressCb: bool, allowMonoStereo: bool)
    requires Honest(decode)
    ensures var r := LoadBuf(decode, init, buf, progressCb, allowMonoStereo);
      && ProgressLog(r.progress, |buf|)
      && |r.progress| == (if progressCb && r.accepted != [] then |r.accepted| - 1 else 0)
  {
    match Locate(decode, init, buf)
    case None =>
    case Some(s) =>
      LoadFromProgress(s.first, s.rest, s.pos, |buf|, progressCb, allowMonoStereo);
      ProgressWeaken(LoadFrom(s.first, s.rest, s.pos, |buf|, progressCb, allowMonoStereo).progress,
                     s.pos + Consumed(s.rest), |buf|);
  }

  /** Product is monotone in its first argument. */
  lemma {:induction false} ProductMonotone(a: nat, a': nat, b: nat)
    requires a <= a'
    ensures Product(a, b) <= Product(a', b)
  {
    if a < a' {
      ProductMonotone(a, a' - 1, b);
    }
  }

  /**
    Line 109: when `n` frames of the first frame's size fit in the bytes that remain, the
    first allocation holds `n` frames of the first frame's element count plus one maximal frame.
  */
  lemma InitialCapacityCovers<S>(d: Decoded<S>, remaining: nat, n: nat)
    requires d.info.frameBytes > 0 && Product(n, d.info.frameBytes) <= remaining
    ensures Product(n, Count(d)) + MaxSamplesPerFrame <= InitialCapacity(d, remaining)
  {
    var fb := d.info.frameBytes;
    var q := remaining / fb;
    ProductIsMul(q, fb);
    assert Product(q + 1, fb) == Product(q, fb) + fb;
    if q < n {
      ProductMonotone(q + 1, n, fb);
      assert false;
    }
    ProductMonotone(n, q, Count(d));
  }

  /** An empty buffer (what a failed open leaves mapped) yields no audio. */
  lemma LoadBufEmpty<S(!new)>(decode: (S, seq<byte>) -> Decoded<S>, init: S, progressCb: bool, allowMonoStereo: bool)
    requires Honest(decode)
    ensures var r := LoadBuf(decode, init, [], progressCb, allowMonoStereo);
      r.accepted == [] && r.info == NoAudio
  {
    var buf: seq<byte> := [];
    assert SkipId3v2(buf) == 0;
    assert buf[0..] == buf;
    var d := decode(init, buf);
    assert Fits(d, |buf|);
    var t := Trace(decode, init, buf);
    assert t == [d];
    assert FirstYield(t) == 1 by {
      assert t[1..] == [];
    }
  }
}
