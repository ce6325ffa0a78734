# minimp3_ex.h bookkeeping, modelled in Dafny

This project models the sequential bookkeeping of `minimp3_ex.h`, the convenience layer the
PS4 port of minimp3 puts around the MPEG audio frame decoder of `minimp3.h`:

- `mp3dec_skip_id3v2` (module `Id3v2`, `id3v2.dfy`). It locates the leading ID3v2 tag and reads
  its four-byte synchsafe size (sections 3.1 and 6.2 of the ID3v2.4.0 structure document).
- `mp3dec_load_buf` (module `BufferLoader`, `load_buf.dfy`). It decodes a whole buffer into one
  growable PCM buffer. The work is: find the first frame that yields samples; size the buffer
  by it; keep one maximal frame of headroom before every decode, doubling when short; accept
  frames while rate, layer and channel count match the first (or, with mono/stereo transitions
  allowed, mark a mix with channel count 0); sum bitrates; report progress; shrink to the
  samples at the end.
- `mp3dec_iterate_buf` (module `FrameIterator`, `iterate_buf.dfy`), as written. It makes at most
  one callback. The module also holds the full frame walk it evidently intends.
- The chunked reader of the PS4 build (module `ChunkedFile`, `chunked_file.dfy`). It covers the
  `mp3dec_read_chunk` counters, the size gate and return codes of `mp3dec_open_file`, and
  `mp3dec_close_file`.
- The entry points (module `StreamHandle`, `stream_handle.dfy`). These are `mp3dec_load` and
  `mp3dec_iterate` with their return codes, plus `mp3dec_ex_open_buf`, `mp3dec_ex_open` and
  `mp3dec_ex_close` on the `mp3dec_ex_t` handle.

The frame decoder `mp3dec_decode_frame` is a function parameter over an opaque decoder state
(module `FrameDecoder`, `frame_decoder.dfy`). The predicate `Honest` is all the loops assume of
it:
- a frame never extends past the input;
- samples times channels is at most `MINIMP3_MAX_SAMPLES_PER_FRAME` (2304);
- the PCM has one element per sample and channel;
- a call that yields samples consumes bytes.

`Trace` lists every call a loop makes when it advances by the reported frame length until a
call consumes nothing. The loader is a fold over that trace, and `TraceEnds` shows the loops
stop exactly at its last call. `mp3d_find_frame` and the `HDR_*` macros are function parameters
too. So are the operating system's answers: the descriptor, the file size and the bytes each
read delivers. Buffer capacities are counted in samples, not bytes.

## Model

| member | source | states |
|---|---|---|
| Id3v2.SkipId3v2 | samples/minimp3/include/minimp3_ex.h:68-76 | 0 unless the buffer has more than 10 bytes and starts with "ID3"; otherwise the 7-bits-per-byte big-endian value of bytes 6..9 plus 10, which lies in [10, 2^28 - 1 + 10] |
| Id3v2.DecodeEncode | samples/minimp3/include/minimp3_ex.h:72-73 | reading the k-byte synchsafe encoding of any n below 128^k gives back n |
| Id3v2.EncodeDecode | samples/minimp3/include/minimp3_ex.h:72-73 | encoding the value read from bytes that are all below 0x80 gives back those bytes |
| Id3v2.SynchsafeValueBound | samples/minimp3/include/minimp3_ex.h:72-73 | a synchsafe field of k bytes holds less than 128^k |
| Id3v2.SkipEncodedTag | samples/minimp3/include/minimp3_ex.h:68-76 | a tag header carrying size n, followed by at least one byte, is skipped as exactly n + 10 bytes |
| Id3v2.SkipIgnoresTopBits | samples/minimp3/include/minimp3_ex.h:72-73 | the top bit of each size byte is masked away: buffers that differ only there skip the same number of bytes |
| FrameDecoder.Trace | samples/minimp3/include/minimp3_ex.h:96-105 | with an honest decoder every call of the advancing loop keeps the per-call contract, and together they consume no more bytes than the input has |
| FrameDecoder.TraceEnds | samples/minimp3/include/minimp3_ex.h:125-157 | the call that consumes nothing is the last one, so both decode loops terminate exactly there |
| BufferLoader.LoadBuf | samples/minimp3/include/minimp3_ex.h:78-163 | with nothing accepted the information is all-zero; otherwise the buffer is shrunk to exactly the sample count, which never exceeds the capacity |
| BufferLoader.LoadBufAccepts | samples/minimp3/include/minimp3_ex.h:86-157 | a tag claiming more bytes than the buffer gives nothing. Otherwise the accepted frames are the first yielding frame and every later yielding frame up to the first whose rate, layer or (without transitions) channel count differs. That frame is not counted, and with no such frame the loader runs to the call that consumes nothing |
| BufferLoader.LoadBufSummary | samples/minimp3/include/minimp3_ex.h:115-161 | the reported buffer is the accepted frames' PCM back to back. The sample count is its length; rate and layer are the first frame's; the channel count is the common one or 0 for a mix; the bitrate is the integer average over exactly the accepted frames |
| BufferLoader.Locate | samples/minimp3/include/minimp3_ex.h:86-106 | when the search finds a frame after the tag, it yielded samples and keeps the per-call contract, more calls follow it, and the bytes consumed through it plus those after it stay within the buffer |
| BufferLoader.LoadBufEstimate | samples/minimp3/include/minimp3_ex.h:109-110 | the first allocation is sized from the first yielding frame and the bytes left after it: room for as many frames like it as those bytes could hold, plus one maximal frame |
| BufferLoader.LoadBufCapacity | samples/minimp3/include/minimp3_ex.h:127-131 | with audio, the capacity checks are chained from the first allocation, each doubles exactly when less than one maximal frame is free and leaves at least one maximal frame free; the final capacity is the first allocation times 2^doublings and holds all the samples |
| BufferLoader.LoadBufChecks | samples/minimp3/include/minimp3_ex.h:125-131 | once the first frame is found, the loop checks the capacity exactly once per pass: one per call after the first frame, up to and including the call that breaks the stream (or all of them). Check j sees in use exactly the elements of the first frame and of the yielding calls among the j calls before it |
| BufferLoader.LocateChecks | samples/minimp3/include/minimp3_ex.h:96-131 | the same checks, stated against the trace of decoder calls after the tag: the first frame is its first yielding call (lines 96-106) and the passes run over the calls after it |
| BufferLoader.LoadBufProgress | samples/minimp3/include/minimp3_ex.h:149-150 | with a callback, one report per frame accepted after the first, at strictly increasing offsets within the buffer; without one, none |
| BufferLoader.LoadBufEmpty | samples/minimp3/include/minimp3_ex.h:96-106 | an empty buffer yields the all-zero information |
| BufferLoader.InitialCapacityCovers | samples/minimp3/include/minimp3_ex.h:109-110 | when n frames of the first frame's size fit in the bytes left, the first allocation holds n such frames plus one maximal frame |
| BufferLoader.CapacityDoubles | samples/minimp3/include/minimp3_ex.h:127-131 | a chain of checks that follow the doubling policy ends at the initial capacity times 2 to the number of doublings |
| BufferLoader.Reserve | samples/minimp3/include/minimp3_ex.h:127-131 | the capacity doubles exactly when less than one maximal frame is free, the contents are kept, and afterwards one maximal frame fits |
| BufferLoader.PassAccepts | samples/minimp3/include/minimp3_ex.h:136-148 | one pass accepts the frame exactly when it yielded samples and matches rate, layer and (without transitions) channel count, and breaks exactly when it yielded samples that do not match |
| BufferLoader.ContinueAccepts | samples/minimp3/include/minimp3_ex.h:125-157 | the loop accepts exactly the yielding calls before the first mismatching one |
| BufferLoader.ContinueAccumulates | samples/minimp3/include/minimp3_ex.h:125-157 | throughout the loop the used part of the buffer is the accepted frames' PCM back to back, the count is their samples times channels, the bitrate sum is theirs, and the channel mark is their common count or 0 once two differ |
| BufferLoader.ContinueGrowth | samples/minimp3/include/minimp3_ex.h:127-131 | every capacity check the loop logs follows the doubling policy, is chained to the one before and keeps the headroom |
| BufferLoader.ContinueChecks | samples/minimp3/include/minimp3_ex.h:125-157 | the loop logs exactly one check per pass, through the pass of the call that breaks the stream, after the checks already logged; check j sees the elements in use before the loop plus those of the yielding calls among the first j |
| BufferLoader.ContinueProgress | samples/minimp3/include/minimp3_ex.h:149-150 | progress reports come once per accepted frame, at increasing offsets bounded by the bytes consumed |
| BufferLoader.FirstYieldSpec | samples/minimp3/include/minimp3_ex.h:96-106 | no call before the first yielding call yields samples, and that call does |
| BufferLoader.StopIndexSpec | samples/minimp3/include/minimp3_ex.h:138-145 | every yielding call before the stop matches the first frame, and the call at the stop yields samples that do not |
| FrameIterator.IterateBuf | samples/minimp3/include/minimp3_ex.h:166-208 | no callback when the callback is null or the tag claims more bytes than the buffer; otherwise at most one, for the first frame found, at its distance from the buffer start, which is at least the tag size |
| FrameIterator.NextSync | samples/minimp3/include/minimp3_ex.h:180-188 | repeated searches that skip bytes without a frame end at a frame inside the buffer, at or after the starting position, or at none |
| FrameIterator.InfoAt | samples/minimp3/include/minimp3_ex.h:190-194 | the callback's frame information has the found frame size, 1 or 2 channels and a layer from 1 to 4 |
| FrameIterator.IterateAll | samples/minimp3/include/minimp3_ex.h:178-207 | without the break of line 206, the callbacks are exactly the frame walk: every frame found, each search resuming after the previous frame, until none is found or the callback answers nonzero |
| FrameIterator.VisitsOrdered | samples/minimp3/include/minimp3_ex.h:178-207 | the full walk visits frames in buffer order, each inside the buffer and after the previous one ends, and only the last visit can be one the callback stopped at |
| FrameIterator.FirstVisitIsPrefix | samples/minimp3/include/minimp3_ex.h:206 | the callbacks as written are the full walk cut to at most its first visit |
| FrameIterator.OneCallbackForTwoFrames | samples/minimp3/include/minimp3_ex.h:196-206 | on a buffer with two frames and a callback that never stops, the function as written calls back once and the full walk twice |
| ChunkedFile.ReadChunk | samples/minimp3/include/minimp3_ex.h:262-283 | a read keeps the reported size, the descriptor and the window's length |
| ChunkedFile.ReadChunkEffect | samples/minimp3/include/minimp3_ex.h:265-274 | once every byte has been read a read changes nothing; otherwise `readed` grows by the bytes delivered, `num` grows by one exactly for a full chunk, and the bytes land at `pos` with the rest of the window untouched |
| ChunkedFile.ReadChunkCounted | samples/minimp3/include/minimp3_ex.h:262-274 | a read delivering no more than the rest of the file keeps full chunks counted times SIZE at most the bytes read, and those at most the file size |
| ChunkedFile.ReadChunkAtEnd | samples/minimp3/include/minimp3_ex.h:265 | once a read brings the byte count to the file size, any further read changes nothing |
| ChunkedFile.OpenMapping | samples/minimp3/include/minimp3_ex.h:302-339 | a failed open leaves the mapping zeroed; a successful one leaves a window of 2 * SIZE bytes; the reader keeps the descriptor, and the open closes it itself exactly when it was positive and the open failed |
| ChunkedFile.OpenGate | samples/minimp3/include/minimp3_ex.h:302-333 | the open succeeds exactly when the descriptor is positive and the file has at least 2 * SIZE bytes, and closes the descriptor at line 318 exactly when it is positive and the file shorter. On success the size is the file's, the window holds the two reads' bytes (zeros where a read fell short), and the counters restart and count them |
| ChunkedFile.OpenWindow | samples/minimp3/include/minimp3_ex.h:324-325 | after a successful open the counters are consistent, and for a file over 2 * SIZE bytes the window is shorter than the reported size |
| ChunkedFile.OpenWindowed | samples/minimp3/include/minimp3_ex.h:324-325 | corrected open: after success the reported size is exactly the window's length |
| ChunkedFile.OpenWindowedFits | samples/minimp3/include/minimp3_ex.h:324-325 | the corrected open passes the same size gate and fills the same window and counters as the open as written; its size never exceeds the window, and differs from the file's exactly when the file is longer than the window |
| ChunkedFile.OpenCodes | samples/minimp3/include/minimp3_ex.h:346-347 | as written the open answers nonzero exactly on success; corrected it answers 0 exactly on success |
| ChunkedFile.OpenFileAsWritten | samples/minimp3/include/minimp3_ex.h:309-347 | the open as written answers only 0 or 1 |
| ChunkedFile.OpenFile | samples/minimp3/include/minimp3_ex.h:350-373 | the corrected open answers only 0 or -1, the convention of the other builds and of every caller |
| ChunkedFile.CloseFile | samples/minimp3/include/minimp3_ex.h:287-298 | closing leaves the mapping zeroed, closes the reader's descriptor and frees exactly when there was a buffer |
| ChunkedFile.CloseTwice | samples/minimp3/include/minimp3_ex.h:287-298 | a second close frees nothing and leaves the same zeroed mapping, but closes the reader's descriptor again, since line 290 closes it unconditionally |
| StreamHandle.ExOpenBuf | samples/minimp3/include/minimp3_ex.h:210-218 | answers 0 with a handle that reads the caller's whole buffer, is not a file, records the seek method and has an initialised decoder |
| StreamHandle.ExOpen | samples/minimp3/include/minimp3_ex.h:447-457 | passes on the open's answer; the handle is marked as a file exactly when the open answered 0, and is otherwise zero apart from the mapping |
| StreamHandle.ExClose | samples/minimp3/include/minimp3_ex.h:438-445 | any handle returns to the all-zero handle, releasing its mapping as a file exactly when it was marked as one |
| StreamHandle.ExOpenBufClose | samples/minimp3/include/minimp3_ex.h:438-445 | opening a buffer and closing the handle returns to the zero handle and frees the very buffer the caller passed in |
| StreamHandle.ExOpenClose | samples/minimp3/include/minimp3_ex.h:438-457 | opening a file and closing the handle returns to the zero handle, closing the descriptor and freeing the window |
| StreamHandle.LoadFile | samples/minimp3/include/minimp3_ex.h:415-425 | a nonzero open answer is passed on with the information untouched and nothing closed; otherwise the information is the loader's over the exposed bytes and the file is closed once (line 423) |
| StreamHandle.LoadFileCode | samples/minimp3/include/minimp3_ex.h:415-425 | the answer is 0 exactly when the open answered 0 and the load yielded samples; a buffer without audio gives -1 and all-zero information; the file is closed exactly when the open answered 0 |
| StreamHandle.LoadFileAsWritten | samples/minimp3/include/minimp3_ex.h:415-425 | with the PS4 chunked open as written, the loader runs, information is written and the file is closed exactly when the open failed |
| StreamHandle.LoadNeverSucceeds | samples/minimp3/include/minimp3_ex.h:415-425 | with the PS4 chunked open as written, the load never answers 0. When the file opened it answers 1 without decoding and releases nothing, so the window is never freed and the descriptor never closed. When it did not, it answers -1 with no audio and closes the descriptor, which the size gate had already closed when it was positive |
| StreamHandle.LoadFileChunked | samples/minimp3/include/minimp3_ex.h:415-425 | with the corrected open, information is written and the file closed exactly when the open succeeds; the information is the loader's over the whole window the open filled, and the close frees the window and closes the descriptor once |
| StreamHandle.LoadFileChunkedCode | samples/minimp3/include/minimp3_ex.h:415-424 | with the corrected open, the load answers 0 exactly when the file passes the size gate and its window yields samples, -1 otherwise |
| StreamHandle.ExOpenAsWritten | samples/minimp3/include/minimp3_ex.h:447-457 | with the PS4 chunked open as written, a file that opens makes `mp3dec_ex_open` answer 1 with the handle unmarked as a file and no decoder, so `mp3dec_ex_close` frees the window and never closes the descriptor |
| StreamHandle.ExOpenFailsAsWritten | samples/minimp3/include/minimp3_ex.h:447-457 | with the PS4 chunked open as written, an open that fails makes `mp3dec_ex_open` answer 0 with the handle marked as a file over the empty mapping, so `mp3dec_ex_close` closes the descriptor, which the size gate had already closed at line 318 when it was positive |
| StreamHandle.IterateFile | samples/minimp3/include/minimp3_ex.h:427-437 | a nonzero open answer is passed on without callbacks or close; otherwise the answer is 0 after at most one callback, for the first frame, and the file is closed once (line 434) |
| StreamHandle.IterateFileAsWritten | samples/minimp3/include/minimp3_ex.h:427-437 | with the PS4 chunked open as written, a file that opens makes `mp3dec_iterate` answer 1 with no callback and nothing closed; an open that fails makes it answer 0 and close the descriptor at line 434, a second close when it was positive |

## Left out

- The internals of `mp3dec_decode_frame`, `mp3d_find_frame`, `mp3dec_init` and the `HDR_*`/`hdr_*`
  macros: minimp3.h is not part of this model. They are function parameters constrained by
  `Honest`, `FindBounded` and `FindFits`.
- The operating system: `orbisOpen`, `orbisLseek`, `orbisRead`, `orbisClose`, `open`, `fstat`,
  `mmap` with their retry loops, `fopen`/`fread`, `orbisFileGetFileContent` and `sleep`. Their
  answers are parameters.
- The two other builds of the file functions: the mmap build, which is the non-PS4 branch of
  `mp3dec_open_file` (lines 349-372), and the stdio build (`mp3dec_open_file2`,
  `mp3dec_close_file2`, lines 378-412). No member models them. Only their convention of
  answering 0 on success and -1 on failure appears, as the answer of ChunkedFile.OpenFile,
  the corrected PS4 open.
- ChunkedFile.ReadChunk: a negative answer from `orbisRead` (an error) is not modelled; the bytes
  delivered are a sequence of at most SIZE bytes.
- Allocation failure of `malloc`, `calloc` and `realloc`: capacities are abstract. The `realloc`
  results at lines 130 and 160 are never checked, so a failed growth would lose the buffer and
  write through a null pointer. The model assumes every allocation succeeds.
- Byte-size arithmetic (`sizeof`) and fixed integer widths: counts are unbounded naturals.
  `size_t` wrap-around of `buf_size -= frame_bytes` cannot happen under the decoder contract.
- `debugNetPrintf` logging, including the floating-point percentage of line 281.
- `mp3dec_ex_seek` and `mp3dec_ex_read`: their bodies are commented out.
- The callbacks' own effects: a callback is modelled only by its stop/continue answer (iterate)
  or by the position it is handed (progress).
- BufferLoader.LoadBuf: the loop is a fold over the trace of decoder calls, which lists calls past
  the one that ends the loop. Those calls are never looked at.
- StreamHandle.LoadFileChunkedCode: states the answer of a load over the window only, through the
  corrected open ChunkedFile.OpenWindowed. With the open's return code also corrected, a load
  that kept the reported size would read past the window for every file over two chunks (see
  Findings). That out-of-bounds read is undefined behaviour in C, and no member states what
  it would load.
- StreamHandle.Exposed: a mapping whose reported size exceeds its buffer exposes the whole
  buffer and no more, so the bytes past the window that C would read are cut off rather than
  modelled.

## Findings

| source | as written | input that shows it | evidently intended | confidence | as-written member | corrected member |
|---|---|---|---|---|---|---|
| samples/minimp3/include/minimp3_ex.h:309-347 | the PS4 chunked `mp3dec_open_file` returns 0 on failure and 1 on success, while `mp3dec_load`, `mp3dec_iterate` and `mp3dec_ex_open` (lines 419, 431, 451) treat nonzero as an error and pass it on | a file of 65536 bytes opened with a positive descriptor: the open answers 1, so `mp3dec_load` answers 1 without decoding and never frees the window or closes the descriptor; a file of 100 bytes with a positive descriptor is closed at line 318, the open answers 0, the load runs on the empty mapping, answers -1 and closes the same descriptor again at line 290; on the same 100-byte file `mp3dec_iterate` answers 0 and closes it again at line 434, and `mp3dec_ex_open` answers 0 with the handle marked as a file over the empty mapping | 0 on success and -1 on failure, as the other builds of the same function answer | high, not executed | ChunkedFile.OpenFileAsWritten, StreamHandle.LoadNeverSucceeds, StreamHandle.ExOpenAsWritten, StreamHandle.ExOpenFailsAsWritten, StreamHandle.IterateFileAsWritten | ChunkedFile.OpenFile, StreamHandle.LoadFileChunkedCode |
| samples/minimp3/include/minimp3_ex.h:206 | an unconditional `break` ends the frame loop of `mp3dec_iterate_buf` after the first callback, whatever the callback answers | an 8-byte buffer holding two 4-byte frames and a callback that always answers 0: one callback | a callback for every frame until the callback answers nonzero or no frame is found | medium (the break is flagged `// !!!` and may be a debugging aid), not executed | FrameIterator.IterateBuf, FrameIterator.OneCallbackForTwoFrames | FrameIterator.IterateAll, FrameIterator.VisitsOrdered |
| samples/minimp3/include/minimp3_ex.h:324-325 | the PS4 chunked open allocates a window of 2 * SIZE bytes but sets `map_info->size` to the file's size. The return code of the first row masks this: after a successful open `mp3dec_load`, `mp3dec_iterate` and `mp3dec_ex_open` return at lines 419-420, 431-432 and 451-452 before using the mapping, so the defect is latent | any file over 65536 bytes once the open answers 0 on success: `mp3dec_load` (line 422) then hands `mp3dec_load_buf` the file's size with a 65536-byte allocation, and the decoder may read past it | a reported size no larger than the window (or a window refilled as the loader advances) | high, not executed | ChunkedFile.OpenWindow | ChunkedFile.OpenWindowed, ChunkedFile.OpenWindowedFits, StreamHandle.LoadFileChunked |
