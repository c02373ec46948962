# Bounded media buffers of FFMPEGExample, in Dafny

This project models the part of `wrapper.cpp` that has behaviour of its own:
the circular buffer `CircBuf` that holds decoded audio samples and decoded
video frames, the backpressure gate `_IsContextFillable`, the producer's
packet loop and enqueue step in `_DecodeRoutine`, the consumers
`Med_PollVideo` and `Med_PollAudio`, the stream choice and buffer sizing in
`Med_CreateContext`, and `correct_for_deprecated_pixel_format`.
Everything is written as immutable datatypes and pure functions; the one
loop whose shape matters (the `Med_PollVideo` scan over slot indices) is a
method proved equal to a functional reference.

Files:

- `wrappers.dfy`: `Option`, `Result`, `Min`.
- `circbuf.dfy` (module `CircBuf`): the ring: `Init`, `Free`, `Read`,
  `Write`, `Available`, `Size`, `GetIndex`, and the FIFO history lemma.
- `video.dfy` (module `Video`): the video ring of (picture, timestamp) slots,
  the producer's one-slot enqueue and the timestamp-driven frame selection.
- `pixfmt.dfy` (module `PixelFormats`): the deprecated-format correction.
- `media.dfy` (module `Media`): the media context, the gate, the audio pull,
  the stream selection loop and context creation.
- `producer.dfy` (module `Producer`): the packet loop, the enqueue step, one
  pass of the decode routine, and interleavings with the consumers.

How the model reads the source:

- A ring of N slots is `CircBuf(data, curWrite, curRead)` with `|data| == N`.
  Its queued elements (`Contents`) run from the read cursor to the write
  cursor, wrapping at the array end. Cursors range over [0, N]. The value N
  denotes slot 0: a contiguous write or read that ends exactly at the array
  end leaves a cursor there (wrapper.cpp:76, 85, 112). The one pair the
  count arithmetic would misread, write cursor N with read cursor 0, is never
  produced, and `Valid` excludes it. A ring with no storage (freed, or never
  initialised because no decoder was found) has both cursors at 0.
- `Available` counts the slot that is never filled, so an empty ring of N
  slots reports N. A write of k elements is accepted exactly when
  `k <= Available - 1`.
- The timestamp array `video_pts_buf` is indexed by the same slots as the
  video ring, so the model keeps one ring of `Slot(picture, pts)` pairs.
- The decoder and demuxer are abstract: the demuxer is a sequence of
  packets and the position of the next one to read; a packet carries its
  stream index, the status of sending it, the status of receiving a frame
  for it, and what the shared output frame holds afterwards.

Behaviour of `wrapper.cpp` worth knowing:

- The video scan selects the last queued frame whose timestamp is strictly
  below the target (wrapper.cpp:405).
- The read cursor moves onto the selected slot (wrapper.cpp:416). The returned frame stays queued and is returned again
  by the next poll with the same target (`Video.PollIsIdempotent`). For frames
  stamped 10, 20, 30 and target 25, the frames stamped 20 and 30 both stay
  queued (`Video.PollExample`).
- Audio cursors can equal N (see above).
- Any decoder status other than -1 leads to an enqueue, including a send or
  receive error and a trailing "try again"; only -1 requests shutdown
  (wrapper.cpp:233-236, 244-247, 256). The audio flag is never cleared inside
  the packet loop (wrapper.cpp:213, 223), so a video frame that follows an
  audio packet answered with "try again" is written to the audio ring
  (`Producer.VideoFrameAfterAudioRetryIsTakenForAudio`). That write copies
  the frame's sample count of samples (wrapper.cpp:262); the model takes the
  frame's `samples` as given, so for a video frame that count alone decides
  whether anything is written.
- The stream selection loop stops as soon as both kinds are found; when only
  one kind is present it never stops early and keeps the last stream of that
  kind (wrapper.cpp:308-321).
- Routing a packet reads the video stream's index first and the audio
  stream's index only for a packet that is not video (wrapper.cpp:217, 221).
  An audio-only session therefore dereferences the missing video stream on
  its first packet. A video-only session decodes normally while every packet
  belongs to the video stream, and dereferences the missing audio stream on
  the first packet of any other stream.
- A video stream whose decoder is not found leaves the video ring without
  storage. The gate then never opens (`Media.MissingVideoDecoderStallsGate`).

## Model

| member | source | states |
|---|---|---|
| CircBuf.Init | wrapper.cpp:30-37 | a fresh ring has the requested slot count, valid cursors and an empty queue |
| CircBuf.Free | wrapper.cpp:38-46 | a freed ring has no storage, valid zero cursors and an empty queue |
| CircBuf.Available | wrapper.cpp:125-134 | the branchy cursor difference equals capacity minus queue length, and lies in [1, N] for a ring with storage |
| CircBuf.Size | wrapper.cpp:135-138 | the size is the queue length, size plus available is N, and at most N-1 elements are ever queued |
| CircBuf.SizeIsCursorDistance | wrapper.cpp:125-138 | the size equals (curWrite - curRead) mod N for every valid cursor pair, including cursors at N |
| CircBuf.GetIndex | wrapper.cpp:139-143 | a slot lookup succeeds exactly for indices below N and returns that slot whether or not it is queued (the producer asks for the write slot), and slot (curRead + k) mod N holds the k-th queued element |
| CircBuf.ContentsAt | wrapper.cpp:400-403 | the k-th queued element sits in slot (curRead + k) mod N |
| CircBuf.Write | wrapper.cpp:88-124 | a write is rejected exactly when it exceeds available - 1, and then nothing changes; otherwise the queue becomes old queue followed by the written elements, the read cursor and capacity stay, and the ring stays valid |
| CircBuf.WrapWrite | wrapper.cpp:98-108 | the tail segment of toEnd elements and the head segment of remaining elements of a wrapping write land right behind the queue, with no gap or overlap |
| CircBuf.Read | wrapper.cpp:47-87 | a read hands out min(requested, queued) elements, which are the front of the queue, leaves the rest queued, keeps the write cursor and storage, and leaves an empty ring unchanged |
| CircBuf.AdvanceRead | wrapper.cpp:412-417 | moving the read cursor k slots forward modulo N drops exactly the first k queued elements |
| CircBuf.RunIsFifo | wrapper.cpp:47-124 | over any history of writes and reads, queued elements plus accepted writes equal delivered reads plus what remains queued, in order |
| CircBuf.RunFromInitDeliversPrefix | wrapper.cpp:30-124 | from a fresh ring, reads deliver a prefix of the accepted writes in the same order |
| CircBuf.WriteThenReadRoundTrip | wrapper.cpp:47-124 | writing fewer than N elements into an empty ring and reading that many back returns them and empties the ring |
| Video.EnqueueVideo | wrapper.cpp:266-269 | stamping at the write cursor and advancing it by one modulo N appends the frame when the ring holds fewer than N-1 frames, makes the ring look empty when it holds N-1, and never moves the read cursor |
| Video.LastDueIsLastBelow | wrapper.cpp:399-410 | the selected index holds a timestamp below the target and every later one is at or above it; none is selected exactly when no timestamp is below the target |
| Video.Poll | wrapper.cpp:389-421 | a poll keeps the ring valid and never touches its storage or its write cursor |
| Video.PollPicksLastDue | wrapper.cpp:389-421 | a ring with no due frame yields nothing and is unchanged; otherwise the frame is the last due one, the read cursor lands on it and the queue keeps it and everything after it |
| Video.ScanDue | wrapper.cpp:399-410 | the scan over slot indices (curRead + i) mod N remembers the slot of the last due queued frame, or -1 when none is due |
| Video.PollVideo | wrapper.cpp:389-420 | the method built on the scan returns exactly the selection of `Video.Poll` |
| Video.PollIsIdempotent | wrapper.cpp:412-418 | polling again with the same target returns the same frame and the same ring |
| Video.PollExample | wrapper.cpp:399-418 | frames stamped 10, 20, 30 and target 25 give the frame stamped 20, and frames 20 and 30 stay queued |
| PixelFormats.CorrectForDeprecatedPixelFormat | wrapper.cpp:172-182 | the result is never a deprecated full-range format, keeps the chroma layout, and equals the input when the input is not deprecated |
| PixelFormats.CorrectionIsUnique | wrapper.cpp:172-182 | any format meeting that contract is the corrected one, and correcting twice equals correcting once |
| Media.IsContextFillable | wrapper.cpp:184-204 | the gate is open exactly when some stream is present and each present stream's queue is short of capacity by more than its margin (1 frame, 2000 samples) |
| Media.GateLeavesRoom | wrapper.cpp:187-201 | while the gate is open, an enqueued video frame is appended behind the queue and an audio write of up to 2000 samples is accepted |
| Media.PollAudio | wrapper.cpp:380-383 | the audio pull copies out the first min(count, queued) samples, leaves the rest queued and changes nothing but the audio read cursor |
| Media.SelectFrom | wrapper.cpp:306-321 | a chosen audio or video index is in range and names a stream of that kind |
| Media.SelectFromFindsPresent | wrapper.cpp:306-321 | from any point of the scan, a kind ends up chosen exactly when some stream has it |
| Media.SelectFromKeepsLast | wrapper.cpp:308-321 | when the scan does not find both kinds, it runs to the end and each index it keeps is the last stream of its kind, or -1 when there is none |
| Media.SelectFromAudioThenVideo | wrapper.cpp:306-321 | when audio is chosen before video, no audio stream lies between them and the video stream is the first video stream |
| Media.SelectFromVideoThenAudio | wrapper.cpp:306-321 | when video is chosen before audio, no video stream lies between them and the audio stream is the first audio stream |
| Media.SelectStreams | wrapper.cpp:306-321 | a kind is chosen exactly when present, chosen indices have the right kind, with both present the later choice is the first of its kind and the earlier the last of its kind before it, and with one kind present the choice is the last stream of that kind |
| Media.CreateContext | wrapper.cpp:288-377 | creation fails to open exactly when the container or its stream info fails, fails for no stream exactly when no stream is audio or video, fails on the decoder exactly when a chosen stream's decoder is found but does not open, and succeeds in every other case; a created context holds the streams `Media.SelectStreams` chose, valid empty rings of 20 and 60000 slots for the chosen streams with a decoder, and the corrected pixel format when the video ring has storage |
| Media.MissingVideoDecoderStallsGate | wrapper.cpp:328-347 | a video stream without a decoder keeps the gate closed |
| Producer.FetchFrame | wrapper.cpp:212-252 | the loop only moves the demuxer position forward and never past the last packet |
| Producer.FetchFrameStops | wrapper.cpp:214-252 | every packet the loop consumed before its last one was skipped or answered "try again" or "end of stream"; the loop stopped on a packet whose send failed or whose receive status was anything else, or the demuxer ran out |
| Producer.FetchFrameResult | wrapper.cpp:212-252 | the status is the send status (when negative) or receive status of the last consumed packet that reached a decoder, or the incoming status when none did; the frame is the one decoded for the last consumed packet whose send succeeded, or the incoming frame |
| Producer.Fetch | wrapper.cpp:212-256 | the routine's loop reports "nothing decoded", its shutdown signal, exactly when no consumed packet reached a decoder or the last one that did left status -1 |
| Producer.FetchFrameAudioFlag | wrapper.cpp:213-230 | the audio flag comes out set exactly when it went in set or some consumed packet was routed to the audio decoder |
| Producer.FetchFrameStatus | wrapper.cpp:232-252 | a non-negative status from a loop started without one is the receive status of the last consumed packet, a routed packet whose send succeeded, and the frame is that packet's decoded frame |
| Producer.Enqueue | wrapper.cpp:256-279 | status -1 requests shutdown and changes no ring; otherwise audio samples are appended or dropped whole, or one video frame with its timestamp is appended; the fetched frame stays in the context as the shared frame, capacities are kept and read cursors never move |
| Producer.DecodeIteration | wrapper.cpp:206-286 | a pass keeps the context valid, only ever appends to each queue (video by at most one), moves the demuxer position forward, does nothing when closed or when the gate is shut, and otherwise leaves the fetched frame in the context and the demuxer where the packet loop stopped |
| Producer.EndOfStreamCloses | wrapper.cpp:276-279 | with no packets left an open gate leads to the shutdown request, after which passes do nothing |
| Producer.VideoFrameAfterAudioRetryIsTakenForAudio | wrapper.cpp:213-243 | an audio packet answered with "try again" followed by a decoded video packet yields that video frame with the audio flag set |
| Producer.RefusedPacketStillEnqueues | wrapper.cpp:232-272 | a refused packet does not close the routine; the previous shared frame is enqueued again |
| Producer.Simulate | wrapper.cpp:206-421 | any interleaving of producer passes, audio pulls and video polls keeps the context valid and the capacities fixed |

## Left out

- Threads and lifecycle: the producer thread, the 1 ms idle sleep, `Med_IsFinished`, `Med_FreeContext` and its joins are not modelled; a producer pass and a poll are atomic steps. Cross-thread visibility of the cursors and the conversion that runs after the video write cursor has advanced (wrapper.cpp:269-272) only matter under concurrency.
- `Med_PollVideo` converts the time in seconds to ticks with floating point and ignores the time base numerator (wrapper.cpp:397); the model takes the target tick as an integer, and does not keep the `pts_timer` field that this conversion writes.
- Bytes, `malloc`, `memcpy` and `elementSize`: elements are abstract values; an uninitialised ring slot holds a caller-chosen blank value. The failure of the timestamp array allocation (wrapper.cpp:353-357) is not modelled.
- FFmpeg calls (opening, stream info, decoder lookup and opening, reading packets, sending and receiving, scaling) are inputs: `Media.Source`, `Media.StreamInfo` and `Producer.Packet`. The colour conversion is the `picture` of the decoded frame.
- `Med_GetVideoDimensions` reads codec fields only and is not modelled.
- Producer.DecodeIteration: the decode pass, `Enqueue` and `Simulate` are stated for sessions with both an audio and a video stream. Video-only sessions, which the source decodes normally as long as every packet belongs to the video stream, are left out, and so are audio-only sessions, for which the source dereferences the missing video stream at wrapper.cpp:217. `FetchFrame` itself takes plain stream indices and is stated for any pair.
- CircBuf.Read: counts are natural numbers; negative counts, which no caller passes, are not modelled.
- `Med_PollAudio` discards the copied count; the model returns the copied samples, and the caller's buffer beyond them is not modelled.
- main.cpp and wrapper.h are not part of this model: the first is device and window I/O, the second only declarations.
