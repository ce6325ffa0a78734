/**
  The entry points around the loaders: `mp3dec_load` and `mp3dec_iterate` (open, run, close,
  answer), and the `mp3dec_ex_t` handle's open and close, which start from and return to
  the all-zero handle.
*/
module StreamHandle {
  import opened Common
  import opened FrameDecoder
  import opened BufferLoader
  import opened FrameIterator
  import opened ChunkedFile

  /**
    `mp3dec_ex_t`: the decoder state (None while zeroed, before `mp3dec_init`), the
    mapping, the seek method and whether the mapping came from a file.
  */
  datatype ExHandle<S> = ExHandle(decoder: Option<S>, file: MapInfo, seekMethod: int, isFile: bool)

  /** The all-zero handle `memset` leaves. */
  function ExZero<S>(): ExHandle<S>
  {
    ExHandle(None, Unmapped, 0, false)
  }

  /** An opener's answer and the handle it leaves. */
  datatype ExOpened<S> = ExOpened(code: int, handle: ExHandle<S>)

  /**
    `mp3dec_ex_open_buf` (lines 210-218): a zeroed handle reading the caller's buffer, with
    the seek method recorded and the decoder in its initial state `init`; it always answers 0.
  */
  function ExOpenBuf<S>(buf: seq<byte>, seekMethod: int, init: S): (r: ExOpened<S>)
    ensures r.code == 0 && !r.handle.isFile && r.handle.decoder == Some(init)
    ensures r.handle.file == MapInfo(Some(buf), |buf|) && r.handle.seekMethod == seekMethod
  {
    ExOpened(0, ExHandle(Some(init), MapInfo(Some(buf), |buf|), seekMethod, false))
  }

  /**
    `mp3dec_ex_open` (lines 447-457) after `mp3dec_open_file` answered `openCode` and left
    the mapping `mapping`: a nonzero answer is passed on with the handle zeroed apart from
    the mapping; on 0 the handle is marked as a file with the seek method recorded and
    the decoder initialised.
  */
  function ExOpen<S>(openCode: int, mapping: MapInfo, seekMethod: int, init: S): (r: ExOpened<S>)
    ensures r.handle.file == mapping
    ensures r.code == openCode
    ensures r.handle.isFile <==> openCode == 0
    ensures openCode != 0 ==> r.handle == ExZero().(file := mapping)
  {
    if openCode != 0 then ExOpened(openCode, ExZero().(file := mapping))
    else ExOpened(0, ExHandle(Some(init), mapping, seekMethod, true))
  }

  /** What `mp3dec_ex_close` releases: a file mapping through `mp3dec_close_file`, or a buffer through `free`. */
  datatype Release = ClosedFile(closed: Closed) | FreedBuffer(buffer: Option<seq<byte>>)

  /** The handle `mp3dec_ex_close` leaves and what it released. */
  datatype ExClosed<S> = ExClosed(handle: ExHandle<S>, release: Release)

  /**
    `mp3dec_ex_close` (lines 438-445): release the mapping as a file or as a buffer, as the
    handle says, with the chunked reader's variables `reader`, and zero the handle.
  */
  function ExClose<S>(h: ExHandle<S>, reader: Reader): (r: ExClosed<S>)
    ensures r.handle == ExZero()
    ensures r.release.ClosedFile? <==> h.isFile
  {
    var release := if h.isFile then ClosedFile(CloseFile(h.file, reader)) else FreedBuffer(h.file.buffer);
    ExClosed(ExZero(), release)
  }

  /**
    Opening a buffer and closing it returns to the zeroed handle, and the close frees the
    very buffer the caller passed in.
  */
  lemma ExOpenBufClose<S>(buf: seq<byte>, seekMethod: int, init: S, reader: Reader)
    ensures var h := ExOpenBuf(buf, seekMethod, init).handle;
      ExClose(h, reader) == ExClosed(ExZero(), FreedBuffer(Some(buf)))
  {
  }

  /**
    Opening a file successfully and closing it returns to the zeroed handle, closing the
    reader's descriptor and freeing the window when the mapping had one.
  */
  lemma ExOpenClose<S>(mapping: MapInfo, seekMethod: int, init: S, reader: Reader)
    ensures var h := ExOpen(0, mapping, seekMethod, init).handle;
      ExClose(h, reader) == ExClosed(ExZero(), ClosedFile(Closed(Unmapped, reader.fd, mapping.buffer.Some?)))
  {
  }

  /**
    `mp3dec_load`'s answer, the file information it leaves (None: left untouched) and what
    the `mp3dec_close_file` of line 423 released (None: it was not reached).
  */
  datatype LoadResult = LoadResult(code: int, info: Option<FileInfo>, release: Option<Closed>)

  /** The bytes a mapping exposes: its buffer up to the size it reports, as far as the buffer reaches. */
  function Exposed(m: MapInfo): (bs: seq<byte>)
    ensures m.buffer.None? ==> bs == []
    ensures m.buffer.Some? ==> bs == m.buffer.value[..if m.size <= |m.buffer.value| then m.size else |m.buffer.value|]
    ensures m.buffer.Some? && m.size >= |m.buffer.value| ==> bs == m.buffer.value
  {
    match m.buffer
    case None => []
    case Some(b) => if m.size <= |b| then b[..m.size] else b
  }

  /**
    `mp3dec_load` (lines 415-425) after `mp3dec_open_file` answered `openCode` and left the
    mapping `mapping` and the reader `reader`: a nonzero answer is passed on without
    loading or closing; otherwise the exposed bytes are loaded, the file is closed, and
    the answer is 0 when the load yielded samples, -1 when not.
  */
  function LoadFile<S(!new)>(openCode: int, mapping: MapInfo, reader: Reader, decode: (S, seq<byte>) -> Decoded<S>, init: S,
                             progressCb: bool, allowMonoStereo: bool): (r: LoadResult)
    requires Honest(decode)
    ensures openCode != 0 ==> r == LoadResult(openCode, None, None)
    ensures openCode == 0 ==>
      && r.info == Some(LoadBuf(decode, init, Exposed(mapping), progressCb, allowMonoStereo).info)
      && r.release == Some(CloseFile(mapping, reader))
  {
    if openCode != 0 then LoadResult(openCode, None, None)
    else
      var info := LoadBuf(decode, init, Exposed(mapping), progressCb, allowMonoStereo).info;
      LoadResult(if info.samples != 0 then 0 else -1, Some(info), Some(CloseFile(mapping, reader)))
  }

  /**
    `mp3dec_load` answers 0 exactly when the open answered 0 and the buffer yielded samples;
    an open that answered 0 on a buffer without audio gives -1 and the all-zero information.
    The file is closed exactly when the open answered 0.
  */
  lemma LoadFileCode<S(!new)>(openCode: int, mapping: MapInfo, reader: Reader, decode: (S, seq<byte>) -> Decoded<S>, init: S,
                              progressCb: bool, allowMonoStereo: bool)
    requires Honest(decode)
    ensures var r := LoadFile(openCode, mapping, reader, decode, init, progressCb, allowMonoStereo);
      r.code == 0 <==> openCode == 0 && r.info.Some? && r.info.value.samples > 0
    ensures var r := LoadFile(openCode, mapping, reader, decode, init, progressCb, allowMonoStereo);
      var l := LoadBuf(decode, init, Exposed(mapping), progressCb, allowMonoStereo);
      openCode == 0 && l.accepted == [] ==> r.code == -1 && r.info == Some(NoAudio)
    ensures var r := LoadFile(openCode, mapping, reader, decode, init, progressCb, allowMonoStereo);
      r.release.Some? <==> openCode == 0
  {
  }

  /**
    `mp3dec_load` in the PS4 chunked build as written: the open answers 1 on success, so
    the load stops there; on failure it answers 0 and the empty mapping is loaded and closed.
  */
  function LoadFileAsWritten<S(!new)>(fd: int, fileSize: int, before: Reader, data0: seq<byte>, data1: seq<byte>,
                                      decode: (S, seq<byte>) -> Decoded<S>, init: S,
                                      progressCb: bool, allowMonoStereo: bool): (r: LoadResult)
    requires |data0| <= ChunkSize && |data1| <= ChunkSize
    requires Honest(decode)
    ensures r.info.Some? <==> !OpenMapping(fd, fileSize, before, data0, data1).ok
    ensures r.release.Some? <==> !OpenMapping(fd, fileSize, before, data0, data1).ok
  {
    var o := OpenMapping(fd, fileSize, before, data0, data1);
    LoadFile(OpenFileAsWritten(fd, fileSize, before, data0, data1), o.mapping, o.reader, decode, init,
             progressCb, allowMonoStereo)
  }

  /**
    As written, `mp3dec_load` in the PS4 chunked build never answers 0. When the file
    opens it answers 1 without decoding and releases nothing: the window is never freed
    and the descriptor never closed. When the open fails it answers -1 with no audio and
    closes the descriptor after the empty load; if the descriptor was positive, the size
    gate had already closed it, so it is closed twice.
  */
  lemma LoadNeverSucceeds<S(!new)>(fd: int, fileSize: int, before: Reader, data0: seq<byte>, data1: seq<byte>,
                                   decode: (S, seq<byte>) -> Decoded<S>, init: S,
                                   progressCb: bool, allowMonoStereo: bool)
    requires |data0| <= ChunkSize && |data1| <= ChunkSize
    requires Honest(decode)
    ensures var r := LoadFileAsWritten(fd, fileSize, before, data0, data1, decode, init, progressCb, allowMonoStereo);
      && r.code != 0
      && (fd > 0 && fileSize >= WindowSize ==> r == LoadResult(1, None, None))
      && (fd <= 0 || fileSize < WindowSize ==>
            r == LoadResult(-1, Some(NoAudio), Some(Closed(Unmapped, fd, false))))
    ensures fd > 0 && fileSize < WindowSize ==> OpenMapping(fd, fileSize, before, data0, data1).gateClosed
  {
    OpenGate(fd, fileSize, before, data0, data1);
    LoadBufEmpty(decode, init, progressCb, allowMonoStereo);
  }

  /**
    `mp3dec_load` in the PS4 chunked build with the open answering as its callers expect
    and reporting the size of the window it filled (OpenWindowed), so that the load reads
    exactly the window, and the file is closed once after it.
  */
  function LoadFileChunked<S(!new)>(fd: int, fileSize: int, before: Reader, data0: seq<byte>, data1: seq<byte>,
                                    decode: (S, seq<byte>) -> Decoded<S>, init: S,
                                    progressCb: bool, allowMonoStereo: bool): (r: LoadResult)
    requires |data0| <= ChunkSize && |data1| <= ChunkSize
    requires Honest(decode)
    ensures var o := OpenWindowed(fd, fileSize, before, data0, data1);
      && (r.info.Some? <==> o.ok)
      && (o.ok ==> Exposed(o.mapping) == o.mapping.buffer.value)
      && (o.ok ==> r.info == Some(LoadBuf(decode, init, Exposed(o.mapping), progressCb, allowMonoStereo).info))
      && (r.release.Some? <==> o.ok)
      && (o.ok ==> r.release == Some(Closed(Unmapped, fd, true)))
  {
    var o := OpenWindowed(fd, fileSize, before, data0, data1);
    LoadFile(OpenFile(fd, fileSize, before, data0, data1), o.mapping, o.reader, decode, init,
             progressCb, allowMonoStereo)
  }

  /**
    With the corrected open, `mp3dec_load` answers 0 exactly when the file passes the size
    gate and its window yields samples, -1 otherwise.
  */
  lemma LoadFileChunkedCode<S(!new)>(fd: int, fileSize: int, before: Reader, data0: seq<byte>, data1: seq<byte>,
                                     decode: (S, seq<byte>) -> Decoded<S>, init: S,
                                     progressCb: bool, allowMonoStereo: bool)
    requires |data0| <= ChunkSize && |data1| <= ChunkSize
    requires Honest(decode)
    ensures var r := LoadFileChunked(fd, fileSize, before, data0, data1, decode, init, progressCb, allowMonoStereo);
      var o := OpenWindowed(fd, fileSize, before, data0, data1);
      && (r.code == 0 || r.code == -1)
      && (r.code == 0 <==>
            fd > 0 && fileSize >= WindowSize && LoadBuf(decode, init, Exposed(o.mapping), progressCb, allowMonoStereo).info.samples > 0)
  {
    OpenWindowedFits(fd, fileSize, before, data0, data1);
  }

  /**
    `mp3dec_ex_open` over the PS4 chunked open as written: a file that opens is answered
    with 1, the handle is left unmarked as a file and without a decoder, and closing it
    then frees the window as if it were a caller's buffer and never closes the descriptor.
  */
  lemma ExOpenAsWritten<S>(fd: int, fileSize: int, before: Reader, data0: seq<byte>, data1: seq<byte>,
                           seekMethod: int, init: S, reader: Reader)
    requires |data0| <= ChunkSize && |data1| <= ChunkSize
    requires fd > 0 && fileSize >= WindowSize
    ensures var o := OpenMapping(fd, fileSize, before, data0, data1);
      var e := ExOpen(OpenFileAsWritten(fd, fileSize, before, data0, data1), o.mapping, seekMethod, init);
      && e.code == 1 && !e.handle.isFile && e.handle.decoder.None?
      && ExClose(e.handle, reader).release == FreedBuffer(o.mapping.buffer)
  {
    OpenGate(fd, fileSize, before, data0, data1);
  }

  /**
    `mp3dec_ex_open` over the PS4 chunked open as written, when the open fails: it answers
    0, so the handle is marked as a file, with the seek method recorded and the decoder
    initialised, over the empty mapping; closing it then closes the descriptor, which the
    size gate had already closed when it was positive.
  */
  lemma ExOpenFailsAsWritten<S>(fd: int, fileSize: int, before: Reader, data0: seq<byte>, data1: seq<byte>,
                                seekMethod: int, init: S)
    requires |data0| <= ChunkSize && |data1| <= ChunkSize
    ensures var o := OpenMapping(fd, fileSize, before, data0, data1);
      var e := ExOpen(OpenFileAsWritten(fd, fileSize, before, data0, data1), o.mapping, seekMethod, init);
      fd <= 0 || fileSize < WindowSize ==>
        && e == ExOpened(0, ExHandle(Some(init), Unmapped, seekMethod, true))
        && ExClose(e.handle, o.reader).release == ClosedFile(Closed(Unmapped, fd, false))
        && (o.gateClosed <==> fd > 0)
  {
    OpenGate(fd, fileSize, before, data0, data1);
  }

  /**
    `mp3dec_iterate` (lines 427-437) after `mp3dec_open_file` answered `openCode` and left
    the mapping `mapping` and the reader `reader`: a nonzero answer is passed on without
    iterating or closing; otherwise the exposed bytes are iterated, the file is closed
    (line 434) and the answer is 0.
  */
  method IterateFile(openCode: int, mapping: MapInfo, reader: Reader, find: seq<byte> -> Sync, parse: seq<byte> -> Header,
                     callback: Option<Visit -> bool>) returns (code: int, visits: seq<Visit>, release: Option<Closed>)
    requires FindBounded(find)
    ensures openCode != 0 ==> code == openCode && visits == [] && release == None
    ensures openCode == 0 ==> code == 0 && |visits| <= 1
    ensures openCode == 0 && callback.Some? ==> visits == FirstVisit(find, parse, Exposed(mapping))
    ensures openCode == 0 ==> release == Some(Closed(Unmapped, reader.fd, mapping.buffer.Some?))
  {
    if openCode != 0 {
      return openCode, [], None;
    }
    visits := IterateBuf(find, parse, Exposed(mapping), callback);
    release := Some(CloseFile(mapping, reader));
    code := 0;
  }

  /**
    `mp3dec_iterate` in the PS4 chunked build as written: when the file opens the answer
    1 is passed on and nothing is closed, so the window is never freed and the descriptor
    never closed; when the open fails the empty mapping is iterated, the answer is 0 and
    the descriptor is closed at line 434, a second time when it was positive, since the
    size gate had closed it at line 318.
  */
  method IterateFileAsWritten(fd: int, fileSize: int, before: Reader, data0: seq<byte>, data1: seq<byte>,
                              find: seq<byte> -> Sync, parse: seq<byte> -> Header, callback: Option<Visit -> bool>)
    returns (code: int, visits: seq<Visit>, release: Option<Closed>)
    requires |data0| <= ChunkSize && |data1| <= ChunkSize
    requires FindBounded(find)
    ensures fd > 0 && fileSize >= WindowSize ==> code == 1 && visits == [] && release == None
    ensures fd <= 0 || fileSize < WindowSize ==>
      && code == 0
      && release == Some(Closed(Unmapped, fd, false))
      && (OpenMapping(fd, fileSize, before, data0, data1).gateClosed <==> fd > 0)
  {
    var o := OpenMapping(fd, fileSize, before, data0, data1);
    OpenGate(fd, fileSize, before, data0, data1);
    code, visits, release := IterateFile(OpenFileAsWritten(fd, fileSize, before, data0, data1), o.mapping, o.reader,
                                         find, parse, callback);
  }
}
