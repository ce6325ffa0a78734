/**
  The chunked file reader of the PS4 build (`CHUNKED_READS`): `mp3dec_open_file` opens the
  file, checks its size, allocates a window of two chunks and fills it with two calls of
  `mp3dec_read_chunk`; `mp3dec_close_file` releases it. The operating system's answers
  (descriptor, size, bytes read) are parameters.
*/
module ChunkedFile {
  import opened Common

  /** `SIZE`: the chunk size in bytes. */
  const ChunkSize: nat := 32768

  /** The window `mp3dec_open_file` allocates and fills: two chunks. */
  const WindowSize: nat := 2 * ChunkSize

  /** `mp3dec_map_info_t`: the buffer (None for a null pointer) and the size the loaders read from it. */
  datatype MapInfo = MapInfo(buffer: Option<seq<byte>>, size: nat)

  /** The zeroed `mp3dec_map_info_t`. */
  const Unmapped: MapInfo := MapInfo(None, 0)

  /**
    The reader's file-scope variables: the descriptor `pFile`, the count `num` of full
    chunks read, and the count `readed` of bytes read.
  */
  datatype Reader = Reader(fd: int, num: nat, readed: nat)

  /** The mapping and the reader together. */
  datatype Chunked = Chunked(mapping: MapInfo, reader: Reader)

  /**
    `mp3dec_read_chunk` (lines 262-283): unless every byte of the file has been read, read
    up to one chunk into the buffer at `pos`. The read answers `data`, the bytes it
    delivered; `readed` grows by their number and `num` counts the read only when it
    delivered a full chunk.
  */
  function ReadChunk(c: Chunked, pos: nat, data: seq<byte>): (r: Chunked)
    requires c.mapping.buffer.Some? && pos + ChunkSize <= |c.mapping.buffer.value|
    requires |data| <= ChunkSize
    ensures r.mapping.size == c.mapping.size && r.reader.fd == c.reader.fd
    ensures r.mapping.buffer.Some? && |r.mapping.buffer.value| == |c.mapping.buffer.value|
  {
    if c.reader.readed == c.mapping.size then c
    else
      var buf := c.mapping.buffer.value;
      var buf' := buf[..pos] + data + buf[pos + |data|..];
      Chunked(c.mapping.(buffer := Some(buf')),
              c.reader.(readed := c.reader.readed + |data|,
                        num := if |data| < ChunkSize then c.reader.num else c.reader.num + 1))
  }

  /**
    The counters agree with each other and with the file: every full chunk counted was
    read, and no more bytes were read than the file has.
  */
  ghost predicate Counted(c: Chunked)
  {
    c.reader.num * ChunkSize <= c.reader.readed <= c.mapping.size
  }

  /** A read that delivers no more bytes than remain in the file. */
  ghost predicate WithinFile(c: Chunked, data: seq<byte>)
  {
    c.reader.readed + |data| <= c.mapping.size
  }

  /**
    Lines 265-274: once every byte has been read a read changes nothing; otherwise it adds
    the bytes delivered to `readed`, counts a full chunk in `num`, and places the bytes at
    `pos`, leaving the rest of the buffer as it was.
  */
  lemma ReadChunkEffect(c: Chunked, pos: nat, data: seq<byte>)
    requires c.mapping.buffer.Some? && pos + ChunkSize <= |c.mapping.buffer.value|
    requires |data| <= ChunkSize
    ensures c.reader.readed == c.mapping.size ==> ReadChunk(c, pos, data) == c
    ensures c.reader.readed != c.mapping.size ==>
      var r := ReadChunk(c, pos, data);
      && r.reader.readed == c.reader.readed + |data|
      && r.reader.num == c.reader.num + (if |data| == ChunkSize then 1 else 0)
      && r.mapping.buffer.value[pos..pos + |data|] == data
      && r.mapping.buffer.value[..pos] == c.mapping.buffer.value[..pos]
      && r.mapping.buffer.value[pos + |data|..] == c.mapping.buffer.value[pos + |data|..]
  {
  }

  /** A read within the file keeps the counters consistent. */
  lemma ReadChunkCounted(c: Chunked, pos: nat, data: seq<byte>)
    requires c.mapping.buffer.Some? && pos + ChunkSize <= |c.mapping.buffer.value|
    requires |data| <= ChunkSize
    requires Counted(c) && WithinFile(c, data)
    ensures Counted(ReadChunk(c, pos, data))
  {
  }

  /** Reading is a no-op from the moment the whole file has been read: the next read changes nothing, whatever the system answers. */
  lemma ReadChunkAtEnd(c: Chunked, pos: nat, data: seq<byte>, pos': nat, data': seq<byte>)
    requires c.mapping.buffer.Some? && pos + ChunkSize <= |c.mapping.buffer.value| && pos' + ChunkSize <= |c.mapping.buffer.value|
    requires |data| <= ChunkSize && |data'| <= ChunkSize
    requires c.reader.readed + |data| == c.mapping.size
    ensures var r := ReadChunk(c, pos, data);
      ReadChunk(r, pos', data') == r
  {
  }

  /**
    What the open leaves behind: whether it succeeded, the mapping, the reader, and
    whether it closed the descriptor itself on the way out (line 318).
  */
  datatype Opened = Opened(ok: bool, mapping: MapInfo, reader: Reader, gateClosed: bool)

  /** `calloc(SIZE * 2, 1)`: a zero-filled window. */
  function ZeroWindow(): (w: seq<byte>)
    ensures |w| == WindowSize && forall i | 0 <= i < |w| :: w[i] == 0
  {
    Repeat(0, WindowSize)
  }

  /**
    Lines 304-339 (the `__PS4__` and `CHUNKED_READS` branch) with the system answering the
    open with descriptor `fd`, the size query with `fileSize` and the two reads with
    `data0` and `data1`; `before` holds the reader's variables before the call. The
    mapping starts zeroed (line 302); a descriptor that is not positive fails; a size that
    is negative or under two chunks closes the descriptor and fails; otherwise the window
    is allocated, the size is the file's, the counters restart and the window is filled
    chunk by chunk.
  */
  function OpenMapping(fd: int, fileSize: int, before: Reader, data0: seq<byte>, data1: seq<byte>): (o: Opened)
    requires |data0| <= ChunkSize && |data1| <= ChunkSize
    ensures !o.ok ==> o.mapping == Unmapped
    ensures o.ok ==> o.mapping.buffer.Some? && |o.mapping.buffer.value| == WindowSize
    ensures o.reader.fd == fd
    ensures o.gateClosed <==> fd > 0 && !o.ok
  {
    if fd <= 0 then Opened(false, Unmapped, before.(fd := fd), false)
    else if fileSize < 0 || fileSize < ChunkSize * 2 then Opened(false, Unmapped, before.(fd := fd), true)
    else
      var c0 := Chunked(MapInfo(Some(ZeroWindow()), fileSize), Reader(fd, 0, 0));
      var c1 := ReadChunk(c0, 0, data0);
      var c2 := ReadChunk(c1, ChunkSize, data1);
      Opened(true, c2.mapping, c2.reader, false)
  }

  /**
    The size gate: the open succeeds exactly when the descriptor is positive and the file
    holds at least two chunks, and closes the descriptor itself exactly when the
    descriptor is positive and the file is shorter. On success the reported size is the file's, the window holds the
    bytes of the two reads each followed by the zeros of the part the read left unfilled,
    and the counters count those reads.
  */
  lemma OpenGate(fd: int, fileSize: int, before: Reader, data0: seq<byte>, data1: seq<byte>)
    requires |data0| <= ChunkSize && |data1| <= ChunkSize
    ensures var o := OpenMapping(fd, fileSize, before, data0, data1);
      o.ok <==> fd > 0 && fileSize >= WindowSize
    ensures OpenMapping(fd, fileSize, before, data0, data1).gateClosed <==> fd > 0 && fileSize < WindowSize
    ensures var o := OpenMapping(fd, fileSize, before, data0, data1);
      o.ok ==>
        && o.mapping.size == fileSize
        && o.mapping.buffer.value ==
             data0 + ZeroWindow()[|data0|..ChunkSize] + data1 + ZeroWindow()[ChunkSize + |data1|..]
        && o.reader == Reader(fd, (if |data0| == ChunkSize then 1 else 0) + (if |data1| == ChunkSize then 1 else 0),
                              |data0| + |data1|)
  {
    var o := OpenMapping(fd, fileSize, before, data0, data1);
    if o.ok {
      var w := ZeroWindow();
      var c0 := Chunked(MapInfo(Some(w), fileSize), Reader(fd, 0, 0));
      var c1 := ReadChunk(c0, 0, data0);
      ReadChunkEffect(c0, 0, data0);
      ReadChunkEffect(c1, ChunkSize, data1);
      var w1 := c1.mapping.buffer.value;
      var w2 := o.mapping.buffer.value;
      assert w1 == data0 + w[|data0|..];
      assert w2 == w1[..ChunkSize] + data1 + w1[ChunkSize + |data1|..];
      assert w1[..ChunkSize] == data0 + w[|data0|..ChunkSize];
      assert w1[ChunkSize + |data1|..] == w[ChunkSize + |data1|..];
    }
  }

  /**
    After a successful open the counters are consistent whenever the system delivered no
    more bytes than the file has, and the window is shorter than the reported size as
    soon as the file exceeds two chunks: the loaders, which read `size` bytes from the
    buffer, would read past the window.
  */
  lemma OpenWindow(fd: int, fileSize: int, before: Reader, data0: seq<byte>, data1: seq<byte>)
    requires |data0| <= ChunkSize && |data1| <= ChunkSize
    requires |data0| + |data1| <= fileSize
    ensures var o := OpenMapping(fd, fileSize, before, data0, data1);
      o.ok ==> Counted(Chunked(o.mapping, o.reader))
    ensures var o := OpenMapping(fd, fileSize, before, data0, data1);
      o.ok && fileSize > WindowSize ==> |o.mapping.buffer.value| < o.mapping.size
  {
    var o := OpenMapping(fd, fileSize, before, data0, data1);
    if o.ok {
      var c0 := Chunked(MapInfo(Some(ZeroWindow()), fileSize), Reader(fd, 0, 0));
      ReadChunkCounted(c0, 0, data0);
      var c1 := ReadChunk(c0, 0, data0);
      ReadChunkEffect(c0, 0, data0);
      ReadChunkCounted(c1, ChunkSize, data1);
    }
  }

  /**
    The open with the size it reports cut to the window it filled. The loaders read `size`
    bytes from the buffer, so the size must not exceed the window.
  */
  function OpenWindowed(fd: int, fileSize: int, before: Reader, data0: seq<byte>, data1: seq<byte>): (o: Opened)
    requires |data0| <= ChunkSize && |data1| <= ChunkSize
    ensures o.ok ==> o.mapping.buffer.Some? && o.mapping.size == |o.mapping.buffer.value|
  {
    var o := OpenMapping(fd, fileSize, before, data0, data1);
    if o.ok then o.(mapping := o.mapping.(size := WindowSize)) else o
  }

  /**
    The corrected open succeeds under the same gate and fills the same window and counters
    as the open as written; it reports a size different from the file's exactly when the
    file is longer than the window, the case where the open as written overstates it.
  */
  lemma OpenWindowedFits(fd: int, fileSize: int, before: Reader, data0: seq<byte>, data1: seq<byte>)
    requires |data0| <= ChunkSize && |data1| <= ChunkSize
    ensures var o := OpenMapping(fd, fileSize, before, data0, data1);
      var w := OpenWindowed(fd, fileSize, before, data0, data1);
      && (w.ok <==> fd > 0 && fileSize >= WindowSize)
      && w.ok == o.ok && w.reader == o.reader && w.mapping.buffer == o.mapping.buffer
      && (w.ok ==> w.mapping.size <= |w.mapping.buffer.value|)
      && (w.mapping.size != o.mapping.size <==> w.ok && fileSize > WindowSize)
  {
    OpenGate(fd, fileSize, before, data0, data1);
  }

  /**
    `mp3dec_open_file` as written (lines 309, 319 and 346-347): it answers 0 on failure and
    1 on success, the reverse of what every caller (lines 419, 431 and 451) takes it to mean.
  */
  function OpenFileAsWritten(fd: int, fileSize: int, before: Reader, data0: seq<byte>, data1: seq<byte>): (code: int)
    requires |data0| <= ChunkSize && |data1| <= ChunkSize
    ensures code == 0 || code == 1
  {
    if OpenMapping(fd, fileSize, before, data0, data1).ok then 1 else 0
  }

  /**
    `mp3dec_open_file` as its callers read it, and as the other builds of the function
    answer (lines 354-373): 0 on success, -1 on failure.
  */
  function OpenFile(fd: int, fileSize: int, before: Reader, data0: seq<byte>, data1: seq<byte>): (code: int)
    requires |data0| <= ChunkSize && |data1| <= ChunkSize
    ensures code == 0 || code == -1
  {
    if OpenMapping(fd, fileSize, before, data0, data1).ok then 0 else -1
  }

  /** The two answers, against the size gate: as written a success reads as an error, corrected it reads as success. */
  lemma OpenCodes(fd: int, fileSize: int, before: Reader, data0: seq<byte>, data1: seq<byte>)
    requires |data0| <= ChunkSize && |data1| <= ChunkSize
    ensures OpenFile(fd, fileSize, before, data0, data1) == 0 <==> fd > 0 && fileSize >= WindowSize
    ensures OpenFileAsWritten(fd, fileSize, before, data0, data1) != 0 <==> fd > 0 && fileSize >= WindowSize
  {
    OpenGate(fd, fileSize, before, data0, data1);
  }

  /** What `mp3dec_close_file` releases: the descriptor it closes and whether it frees a buffer. */
  datatype Closed = Closed(mapping: MapInfo, closedFd: int, freed: bool)

  /**
    `mp3dec_close_file` (lines 287-298): close the reader's descriptor, free the buffer if
    there is one, and leave the mapping zeroed. The reader's counters are left as they are.
  */
  function CloseFile(m: MapInfo, reader: Reader): (r: Closed)
    ensures r.mapping == Unmapped && r.closedFd == reader.fd
    ensures r.freed <==> m.buffer.Some?
  {
    Closed(Unmapped, reader.fd, m.buffer.Some?)
  }

  /**
    Closing a second time frees nothing more and leaves the same zeroed mapping, but it
    closes the reader's descriptor again: line 290 closes `pFile` whatever the mapping holds.
  */
  lemma CloseTwice(m: MapInfo, reader: Reader)
    ensures var once := CloseFile(m, reader);
      var twice := CloseFile(once.mapping, reader);
      && twice.mapping == once.mapping && !twice.freed
      && twice.closedFd == once.closedFd == reader.fd
  {
  }
}
