/**
  `mp3dec_iterate_buf`: walk the frames of an in-memory stream without decoding them,
  handing each frame header to a user callback.
*/
module FrameIterator {
  import opened Common
  import opened Id3v2
  import opened FrameDecoder

  /**
    The answer of `mp3d_find_frame` (minimp3.h) on the bytes that remain: how many bytes
    precede the sync point it settled on, and the size of the frame there (0: none found).
  */
  datatype Sync = Sync(skip: nat, frameSize: nat)

  /** The two bits `HDR_GET_LAYER` reads from a frame header. */
  type LayerBits = x: nat | x < 4

  /** The header fields the `HDR_*` macros and `hdr_*` helpers of minimp3.h read. */
  datatype Header = Header(mono: bool, layerBits: LayerBits, hz: nat, bitrateKbps: nat)

  /** The finder never skips past the end of the bytes it is given. */
  ghost predicate FindBounded(find: seq<byte> -> Sync)
  {
    forall input: seq<byte> :: find(input).skip <= |input|
  }

  /** Also, a frame it reports lies inside the bytes it is given. */
  ghost predicate FindFits(find: seq<byte> -> Sync)
  {
    && FindBounded(find)
    && forall input: seq<byte> :: find(input).skip + find(input).frameSize <= |input|
  }

  /** A frame found in the buffer: its distance from the start of the buffer, and its size. */
  datatype Found = Found(offset: nat, frameSize: nat)

  /** One call of the callback: the frame's offset from the start of the buffer, its size, its information. */
  datatype Visit = Visit(offset: nat, frameSize: nat, info: FrameInfo)

  /**
    Lines 182-188 from byte `pos` on: ask the finder, move past the bytes it skipped, and
    ask again as long as it skipped bytes without finding a frame.
  */
  function NextSync(find: seq<byte> -> Sync, buf: seq<byte>, pos: nat): (r: Option<Found>)
    requires FindBounded(find) && pos <= |buf|
    ensures r.Some? ==> pos <= r.value.offset <= |buf| && r.value.frameSize > 0
    ensures r.Some? && FindFits(find) ==> r.value.offset + r.value.frameSize <= |buf|
    decreases |buf| - pos
  {
    var s := find(buf[pos..]);
    if s.skip > 0 && s.frameSize == 0 then NextSync(find, buf, pos + s.skip)
    else if s.frameSize == 0 then None
    else Some(Found(pos + s.skip, s.frameSize))
  }

  /** Lines 190-194: the frame information read off the header at the sync point. */
  function InfoAt(parse: seq<byte> -> Header, buf: seq<byte>, f: Found): (info: FrameInfo)
    requires f.offset <= |buf|
    ensures info.frameBytes == f.frameSize && 1 <= info.channels <= 2 && 1 <= info.layer <= 4
  {
    var h := parse(buf[f.offset..]);
    FrameInfo(f.frameSize, if h.mono then 1 else 2, h.hz, 4 - h.layerBits, h.bitrateKbps)
  }

  /** The callback's arguments for the frame `f`. */
  function VisitAt(parse: seq<byte> -> Header, buf: seq<byte>, f: Found): Visit
    requires f.offset <= |buf|
  {
    Visit(f.offset, f.frameSize, InfoAt(parse, buf, f))
  }

  /**
    The callbacks the function makes as written: none when the ID3v2 tag claims more bytes
    than the buffer has or no frame is found, otherwise one, for the first frame found.
  */
  function FirstVisit(find: seq<byte> -> Sync, parse: seq<byte> -> Header, buf: seq<byte>): (vs: seq<Visit>)
    requires FindBounded(find)
    ensures |vs| <= 1
    ensures forall k | 0 <= k < |vs| :: SkipId3v2(buf) <= vs[k].offset <= |buf| && vs[k].frameSize > 0
  {
    var skip := SkipId3v2(buf);
    if skip > |buf| then []
    else match NextSync(find, buf, skip)
      case None => []
      case Some(f) => [VisitAt(parse, buf, f)]
  }

  /**
    `mp3dec_iterate_buf` (lines 166-208) as written: the callback (None for a null
    pointer) answers true for a nonzero return. The unconditional `break` at line 206 ends
    the loop after the first callback, whatever the callback answers.
  */
  method IterateBuf(find: seq<byte> -> Sync, parse: seq<byte> -> Header, buf: seq<byte>,
                    callback: Option<Visit -> bool>) returns (visits: seq<Visit>)
    requires FindBounded(find)
    ensures callback.None? ==> visits == []
    ensures callback.Some? ==> visits == FirstVisit(find, parse, buf)
    ensures |visits| <= 1
    ensures forall k | 0 <= k < |visits| :: SkipId3v2(buf) <= visits[k].offset
  {
    visits := [];
    if callback.None? {
      return;
    }
    var skip := SkipId3v2(buf);
    if skip > |buf| {
      return;
    }
    var pos := skip;
    while true
      invariant skip <= pos <= |buf|
      invariant NextSync(find, buf, pos) == NextSync(find, buf, skip)
      invariant visits == []
      decreases |buf| - pos
    {
      var s := find(buf[pos..]);
      pos := pos + s.skip;
      if s.skip > 0 && s.frameSize == 0 {
        continue;
      }
      if s.frameSize == 0 {
        break;
      }
      var v := VisitAt(parse, buf, Found(pos, s.frameSize));
      visits := [v];
      if callback.value(v) {
        break;
      }
      pos := pos + s.frameSize;
      break;
    }
  }

  /**
    The frame walk the function evidently intends, from byte `pos` on: a callback for
    every frame found, each search resuming right after the previous frame, until the
    finder finds none or the callback answers nonzero.
  */
  function Visits(find: seq<byte> -> Sync, parse: seq<byte> -> Header, buf: seq<byte>, pos: nat,
                  stop: Visit -> bool): (vs: seq<Visit>)
    requires FindFits(find) && pos <= |buf|
    decreases |buf| - pos
  {
    match NextSync(find, buf, pos)
    case None => []
    case Some(f) =>
      var v := VisitAt(parse, buf, f);
      if stop(v) then [v] else [v] + Visits(find, parse, buf, f.offset + f.frameSize, stop)
  }

  /** The intended walk over the whole buffer, after the ID3v2 tag. */
  function AllVisits(find: seq<byte> -> Sync, parse: seq<byte> -> Header, buf: seq<byte>,
                     stop: Visit -> bool): seq<Visit>
    requires FindFits(find)
  {
    var skip := SkipId3v2(buf);
    if skip > |buf| then [] else Visits(find, parse, buf, skip, stop)
  }

  /**
    The shape of a walk from byte `pos` of a buffer of `size` bytes: frames in buffer
    order, each after the previous one ends and inside the buffer, and only the last
    visit may be one the callback stopped at.
  */
  ghost predicate WalkShape(vs: seq<Visit>, pos: nat, size: nat, stop: Visit -> bool)
  {
    && (forall k | 0 <= k < |vs| :: pos <= vs[k].offset && vs[k].offset + vs[k].frameSize <= size)
    && (forall k | 0 < k < |vs| :: vs[k - 1].offset + vs[k - 1].frameSize <= vs[k].offset)
    && (forall k | 0 <= k < |vs| - 1 :: !stop(vs[k]))
  }

  /** A visit the callback did not stop at, ahead of a walk that starts after it, makes a walk. */
  lemma WalkCons(v: Visit, rest: seq<Visit>, pos: nat, size: nat, stop: Visit -> bool)
    requires pos <= v.offset && v.offset + v.frameSize <= size && !stop(v)
    requires WalkShape(rest, v.offset + v.frameSize, size, stop)
    ensures WalkShape([v] + rest, pos, size, stop)
  {
    var vs := [v] + rest;
    forall k | 0 < k < |vs|
      ensures vs[k - 1].offset + vs[k - 1].frameSize <= vs[k].offset
    {
      assert vs[k] == rest[k - 1];
      if k > 1 {
        assert vs[k - 1] == rest[k - 2];
      }
    }
  }

  /** The intended walk has the shape of WalkShape. */
  lemma {:induction false} VisitsOrdered(find: seq<byte> -> Sync, parse: seq<byte> -> Header, buf: seq<byte>,
                                         pos: nat, stop: Visit -> bool)
    requires FindFits(find) && pos <= |buf|
    ensures WalkShape(Visits(find, parse, buf, pos, stop), pos, |buf|, stop)
    decreases |buf| - pos
  {
    match NextSync(find, buf, pos)
    case None =>
      assert Visits(find, parse, buf, pos, stop) == [];
    case Some(f) =>
      var v := VisitAt(parse, buf, f);
      if stop(v) {
        assert Visits(find, parse, buf, pos, stop) == [v];
      } else {
        var p := f.offset + f.frameSize;
        var rest := Visits(find, parse, buf, p, stop);
        assert Visits(find, parse, buf, pos, stop) == [v] + rest;
        VisitsOrdered(find, parse, buf, p, stop);
        WalkCons(v, rest, pos, |buf|, stop);
      }
  }

  /** Lines 183-186: a search that skipped bytes without finding a frame is followed by another from past them. */
  lemma VisitsSkip(find: seq<byte> -> Sync, parse: seq<byte> -> Header, buf: seq<byte>, pos: nat, stop: Visit -> bool,
                   next: nat)
    requires FindFits(find) && pos <= |buf|
    requires find(buf[pos..]).skip > 0 && find(buf[pos..]).frameSize == 0 && next == pos + find(buf[pos..]).skip
    ensures pos < next <= |buf|
    ensures Visits(find, parse, buf, pos, stop) == Visits(find, parse, buf, next, stop)
  {
    assert NextSync(find, buf, pos) == NextSync(find, buf, next);
  }

  /** Lines 187-188: a search that neither skipped nor found ends the walk. */
  lemma VisitsEnd(find: seq<byte> -> Sync, parse: seq<byte> -> Header, buf: seq<byte>, pos: nat, stop: Visit -> bool)
    requires FindFits(find) && pos <= |buf|
    requires find(buf[pos..]).skip == 0 && find(buf[pos..]).frameSize == 0
    ensures Visits(find, parse, buf, pos, stop) == []
  {
  }

  /** Lines 189-199: a frame found is visited, and the walk goes on after it unless the callback stops it. */
  lemma VisitsFound(find: seq<byte> -> Sync, parse: seq<byte> -> Header, buf: seq<byte>, pos: nat, stop: Visit -> bool,
                    f: Found)
    requires FindFits(find) && pos <= |buf|
    requires f.frameSize > 0 && f == Found(pos + find(buf[pos..]).skip, find(buf[pos..]).frameSize)
    ensures f.offset + f.frameSize <= |buf|
    ensures stop(VisitAt(parse, buf, f)) ==> Visits(find, parse, buf, pos, stop) == [VisitAt(parse, buf, f)]
    ensures !stop(VisitAt(parse, buf, f)) ==>
      Visits(find, parse, buf, pos, stop) == [VisitAt(parse, buf, f)] + Visits(find, parse, buf, f.offset + f.frameSize, stop)
  {
  }

  /**
    `mp3dec_iterate_buf` as evidently intended (the loop of lines 178-207 without the
    `break` of line 206): the callbacks are exactly the intended walk.
  */
  method IterateAll(find: seq<byte> -> Sync, parse: seq<byte> -> Header, buf: seq<byte>,
                    callback: Option<Visit -> bool>) returns (visits: seq<Visit>)
    requires FindFits(find)
    ensures callback.None? ==> visits == []
    ensures callback.Some? ==> visits == AllVisits(find, parse, buf, callback.value)
  {
    visits := [];
    if callback.None? {
      return;
    }
    var stop := callback.value;
    var skip := SkipId3v2(buf);
    if skip > |buf| {
      return;
    }
    ghost var all := Visits(find, parse, buf, skip, stop);
    var pos := skip;
    while true
      invariant skip <= pos <= |buf|
      invariant visits + Visits(find, parse, buf, pos, stop) == all
      decreases |buf| - pos
    {
      var s := find(buf[pos..]);
      if s.skip > 0 && s.frameSize == 0 {
        ghost var p0 := pos;
        pos := pos + s.skip;
        SkipStep(find, parse, buf, p0, stop, pos, visits, all);
        continue;
      }
      if s.frameSize == 0 {
        EndStep(find, parse, buf, pos, stop, visits, all);
        break;
      }
      var f := Found(pos + s.skip, s.frameSize);
      var v := VisitAt(parse, buf, f);
      ghost var before := visits;
      visits := visits + [v];
      if stop(v) {
        StopStep(find, parse, buf, pos, stop, f, before, all, visits);
        break;
      }
      ghost var p0 := pos;
      pos := f.offset + f.frameSize;
      FoundStep(find, parse, buf, p0, stop, f, before, all, visits, pos);
    }
  }

  /** The loop of IterateAll after a search that skipped bytes without finding a frame. */
  lemma SkipStep(find: seq<byte> -> Sync, parse: seq<byte> -> Header, buf: seq<byte>, pos: nat, stop: Visit -> bool,
                 next: nat, visits: seq<Visit>, all: seq<Visit>)
    requires FindFits(find) && pos <= |buf|
    requires find(buf[pos..]).skip > 0 && find(buf[pos..]).frameSize == 0 && next == pos + find(buf[pos..]).skip
    requires visits + Visits(find, parse, buf, pos, stop) == all
    ensures pos < next <= |buf| && visits + Visits(find, parse, buf, next, stop) == all
  {
    VisitsSkip(find, parse, buf, pos, stop, next);
  }

  /** The loop of IterateAll after a search that found nothing. */
  lemma EndStep(find: seq<byte> -> Sync, parse: seq<byte> -> Header, buf: seq<byte>, pos: nat, stop: Visit -> bool,
                visits: seq<Visit>, all: seq<Visit>)
    requires FindFits(find) && pos <= |buf|
    requires find(buf[pos..]).skip == 0 && find(buf[pos..]).frameSize == 0
    requires visits + Visits(find, parse, buf, pos, stop) == all
    ensures visits == all
  {
    VisitsEnd(find, parse, buf, pos, stop);
    assert visits + [] == visits;
  }

  /** The loop of IterateAll after a search that found the frame `f` and a callback that asked to stop. */
  lemma StopStep(find: seq<byte> -> Sync, parse: seq<byte> -> Header, buf: seq<byte>, pos: nat, stop: Visit -> bool,
                 f: Found, visits: seq<Visit>, all: seq<Visit>, visits': seq<Visit>)
    requires FindFits(find) && pos <= |buf|
    requires f.frameSize > 0 && f == Found(pos + find(buf[pos..]).skip, find(buf[pos..]).frameSize)
    requires visits + Visits(find, parse, buf, pos, stop) == all
    requires stop(VisitAt(parse, buf, f)) && visits' == visits + [VisitAt(parse, buf, f)]
    ensures visits' == all
  {
    VisitsFound(find, parse, buf, pos, stop, f);
  }

  /** The loop of IterateAll after a search that found the frame `f` and a callback that did not ask to stop. */
  lemma FoundStep(find: seq<byte> -> Sync, parse: seq<byte> -> Header, buf: seq<byte>, pos: nat, stop: Visit -> bool,
                  f: Found, visits: seq<Visit>, all: seq<Visit>, visits': seq<Visit>, pos': nat)
    requires FindFits(find) && pos <= |buf|
    requires f.frameSize > 0 && f == Found(pos + find(buf[pos..]).skip, find(buf[pos..]).frameSize)
    requires visits + Visits(find, parse, buf, pos, stop) == all
    requires !stop(VisitAt(parse, buf, f)) && visits' == visits + [VisitAt(parse, buf, f)]
    requires pos' == f.offset + f.frameSize
    ensures pos < pos' <= |buf| && visits' + Visits(find, parse, buf, pos', stop) == all
  {
    VisitsFound(find, parse, buf, pos, stop, f);
    AppendAssoc(visits, [VisitAt(parse, buf, f)], Visits(find, parse, buf, pos', stop));
  }

  /**
    As written, the callbacks are the first callback of the intended walk: the full walk
    cut down to at most its first visit.
  */
  lemma FirstVisitIsPrefix(find: seq<byte> -> Sync, parse: seq<byte> -> Header, buf: seq<byte>,
                           stop: Visit -> bool)
    requires FindFits(find)
    ensures var all := AllVisits(find, parse, buf, stop);
      FirstVisit(find, parse, buf) == if all == [] then [] else all[..1]
  {
  }

  /** A finder that sees a 4-byte frame at the start of any input of 4 bytes or more. */
  function FourByteFrames(input: seq<byte>): Sync
  {
    if |input| >= 4 then Sync(0, 4) else Sync(0, 0)
  }

  /** A header parser that reads every frame as a stereo layer-3 frame at 44100 Hz and 128 kbps. */
  function StereoHeader(header: seq<byte>): Header
  {
    Header(false, 1, 44100, 128)
  }

  /**
    An eight-byte buffer holding two frames and a callback that never asks to stop: the
    function as written calls back for the first frame only, the intended walk for both.
  */
  lemma OneCallbackForTwoFrames()
    ensures FindFits(FourByteFrames)
    ensures var buf: seq<byte> := [0, 0, 0, 0, 0, 0, 0, 0];
      && |FirstVisit(FourByteFrames, StereoHeader, buf)| == 1
      && |AllVisits(FourByteFrames, StereoHeader, buf, (v: Visit) => false)| == 2
  {
    var buf: seq<byte> := [0, 0, 0, 0, 0, 0, 0, 0];
    var stop := (v: Visit) => false;
    assert SkipId3v2(buf) == 0;
    assert buf[8..] == [];
    assert NextSync(FourByteFrames, buf, 8) == None;
    assert NextSync(FourByteFrames, buf, 4) == Some(Found(4, 4));
    assert NextSync(FourByteFrames, buf, 0) == Some(Found(0, 4));
    assert |Visits(FourByteFrames, StereoHeader, buf, 4, stop)| == 1;
  }
}
