/** The media context: one video ring, one audio ring, the stream choice made
    when the context is created, the backpressure gate and the audio pull. */
module Media {
  import opened Wrappers
  import opened CircBuf
  import opened Video
  import opened PixelFormats

  /** One decoded audio sample as raw decoder bytes. */
  type Sample = seq<bv8>

  const AUDIO_BUFFER_SIZE: nat := 60000
  const MIN_AVAILABLE_AUDIO: int := 2000
  const MIN_AVAILABLE_VIDEO: int := 1

  /** Timestamp of a frame that carries none (the value FFmpeg uses). */
  const AV_NOPTS_VALUE: int := -0x8000_0000_0000_0000

  /** The decoder's output frame, reused across decode calls: its samples
      (audio), its converted pixels (video) and its timestamp. */
  datatype DecodedFrame = DecodedFrame(samples: seq<Sample>, picture: Picture, pts: int)

  /** The media context. A stream is present when its index was found; its
      ring has storage only when a decoder was found for it. */
  datatype Session = Session(
    videoStream: Option<nat>,
    audioStream: Option<nat>,
    video: CircBuf<Slot>,
    audio: CircBuf<Sample>,
    scalerSource: Option<PixelFormat>,
    frame: DecodedFrame,
    shouldClose: bool)

  predicate SessionValid(s: Session)
  {
    VideoValid(s.video) && Valid(s.audio)
  }

  /** Backpressure gate: the producer may decode another unit only when every
      present stream's ring keeps more than its margin free, and never when
      no stream is present. Free space here is counted by queue length. */
  function IsContextFillable(s: Session): (fillable: bool)
    requires SessionValid(s)
    ensures fillable <==>
      && (s.videoStream.Some? || s.audioStream.Some?)
      && (s.videoStream.Some? ==> |Contents(s.video)| < |s.video.data| - MIN_AVAILABLE_VIDEO)
      && (s.audioStream.Some? ==> |Contents(s.audio)| < |s.audio.data| - MIN_AVAILABLE_AUDIO)
  {
    if s.videoStream.Some? && s.audioStream.Some? then
      Available(s.video) > MIN_AVAILABLE_VIDEO && Available(s.audio) > MIN_AVAILABLE_AUDIO
    else if s.videoStream.Some? then
      Available(s.video) > MIN_AVAILABLE_VIDEO
    else if s.audioStream.Some? then
      Available(s.audio) > MIN_AVAILABLE_AUDIO
    else
      false
  }

  /** What the gate buys: while it is open, a video frame enqueued without any
      capacity check still lands behind the queued frames, and an audio
      write of up to the audio margin is accepted. */
  lemma GateLeavesRoom(s: Session, picture: Picture, pts: int, samples: seq<Sample>)
    requires SessionValid(s) && IsContextFillable(s)
    ensures s.videoStream.Some? ==>
      |s.video.data| > 0 && Contents(EnqueueVideo(s.video, picture, pts)) == Contents(s.video) + [Slot(picture, pts)]
    ensures s.audioStream.Some? && |samples| <= MIN_AVAILABLE_AUDIO ==>
      Write(s.audio, samples).ok && Contents(Write(s.audio, samples).buf) == Contents(s.audio) + samples
  {
  }

  datatype AudioPoll = AudioPoll(session: Session, samples: seq<Sample>)

  /** The audio render callback's pull: copies out up to `num` queued samples
      and never waits; an empty ring yields nothing. Nothing but the audio
      read cursor moves. */
  function PollAudio(s: Session, num: nat): (r: AudioPoll)
    requires SessionValid(s)
    ensures SessionValid(r.session)
    ensures r.samples == Contents(s.audio)[..Min(num, |Contents(s.audio)|)]
    ensures Contents(r.session.audio) == Contents(s.audio)[|r.samples|..]
    ensures r.session == s.(audio := r.session.audio)
    ensures r.session.audio.data == s.audio.data && r.session.audio.curWrite == s.audio.curWrite
  {
    var rd := Read(s.audio, num);
    AudioPoll(s.(audio := rd.buf), rd.out)
  }

  /** Media type of a stream as reported by its codec parameters. */
  datatype MediaType = AudioMedia | VideoMedia | OtherMedia

  /** Stream indices chosen by the selection loop; -1 means none. */
  datatype StreamSelection = StreamSelection(audio: int, video: int)

  /** `idx` is the last stream of `kind` among the first `end` streams, or -1
      when there is none. */
  predicate IsLastBefore(types: seq<MediaType>, kind: MediaType, idx: int, end: int)
    requires 0 <= end <= |types|
  {
    if idx == -1 then forall j :: 0 <= j < end ==> types[j] != kind
    else 0 <= idx < end && types[idx] == kind && forall j :: idx < j < end ==> types[j] != kind
  }

  /** The selection loop from stream `i` on, with the indices found so far:
      each audio stream replaces the audio choice, each video stream the
      video choice, and the scan stops as soon as both are chosen. */
  function SelectFrom(types: seq<MediaType>, i: nat, audio: int, video: int): (sel: StreamSelection)
    requires i <= |types|
    requires IsLastBefore(types, AudioMedia, audio, i) && IsLastBefore(types, VideoMedia, video, i)
    requires audio == -1 || video == -1
    ensures sel.audio != -1 ==> 0 <= sel.audio < |types| && types[sel.audio] == AudioMedia
    ensures sel.video != -1 ==> 0 <= sel.video < |types| && types[sel.video] == VideoMedia
    decreases |types| - i
  {
    if i == |types| then StreamSelection(audio, video)
    else
      var audio' := if types[i] == AudioMedia then i else audio;
      var video' := if types[i] == AudioMedia then video else if types[i] == VideoMedia then i else video;
      if audio' != -1 && video' != -1 then StreamSelection(audio', video')
      else SelectFrom(types, i + 1, audio', video')
  }

  /** The loop finds a kind exactly when some stream has it. */
  lemma {:induction false} SelectFromFindsPresent(types: seq<MediaType>, i: nat, audio: int, video: int)
    requires i <= |types|
    requires IsLastBefore(types, AudioMedia, audio, i) && IsLastBefore(types, VideoMedia, video, i)
    requires audio == -1 || video == -1
    ensures SelectFrom(types, i, audio, video).audio == -1 <==> forall j :: 0 <= j < |types| ==> types[j] != AudioMedia
    ensures SelectFrom(types, i, audio, video).video == -1 <==> forall j :: 0 <= j < |types| ==> types[j] != VideoMedia
    decreases |types| - i
  {
    if i < |types| {
      var audio' := if types[i] == AudioMedia then i else audio;
      var video' := if types[i] == AudioMedia then video else if types[i] == VideoMedia then i else video;
      if audio' == -1 || video' == -1 {
        SelectFromFindsPresent(types, i + 1, audio', video');
      }
    }
  }

  /** When the loop does not find both kinds it never stops early, so each
      index it keeps is the last stream of its kind. */
  lemma {:induction false} SelectFromKeepsLast(types: seq<MediaType>, i: nat, audio: int, video: int)
    requires i <= |types|
    requires IsLastBefore(types, AudioMedia, audio, i) && IsLastBefore(types, VideoMedia, video, i)
    requires audio == -1 || video == -1
    ensures var sel := SelectFrom(types, i, audio, video);
      sel.audio == -1 || sel.video == -1 ==>
        IsLastBefore(types, AudioMedia, sel.audio, |types|) && IsLastBefore(types, VideoMedia, sel.video, |types|)
    decreases |types| - i
  {
    if i < |types| {
      var audio' := if types[i] == AudioMedia then i else audio;
      var video' := if types[i] == AudioMedia then video else if types[i] == VideoMedia then i else video;
      if audio' == -1 || video' == -1 {
        SelectFromKeepsLast(types, i + 1, audio', video');
      }
    }
  }

  /** When both kinds are found, the loop stopped at the later one: that one
      is the first of its kind and the earlier is the last of its kind
      before it. Audio found first: */
  lemma {:induction false} SelectFromAudioThenVideo(types: seq<MediaType>, i: nat, audio: int, video: int)
    requires i <= |types|
    requires IsLastBefore(types, AudioMedia, audio, i) && IsLastBefore(types, VideoMedia, video, i)
    requires audio == -1 || video == -1
    ensures var sel := SelectFrom(types, i, audio, video);
      sel.audio != -1 && sel.video != -1 && sel.audio < sel.video ==>
        (forall j :: sel.audio < j <= sel.video ==> types[j] != AudioMedia)
        && (forall j :: 0 <= j < sel.video ==> types[j] != VideoMedia)
    decreases |types| - i
  {
    if i < |types| {
      var audio' := if types[i] == AudioMedia then i else audio;
      var video' := if types[i] == AudioMedia then video else if types[i] == VideoMedia then i else video;
      if audio' == -1 || video' == -1 {
        SelectFromAudioThenVideo(types, i + 1, audio', video');
      }
    }
  }

  /** Video found first: */
  lemma {:induction false} SelectFromVideoThenAudio(types: seq<MediaType>, i: nat, audio: int, video: int)
    requires i <= |types|
    requires IsLastBefore(types, AudioMedia, audio, i) && IsLastBefore(types, VideoMedia, video, i)
    requires audio == -1 || video == -1
    ensures var sel := SelectFrom(types, i, audio, video);
      sel.audio != -1 && sel.video != -1 && sel.video < sel.audio ==>
        (forall j :: sel.video < j <= sel.audio ==> types[j] != VideoMedia)
        && (forall j :: 0 <= j < sel.audio ==> types[j] != AudioMedia)
    decreases |types| - i
  {
    if i < |types| {
      var audio' := if types[i] == AudioMedia then i else audio;
      var video' := if types[i] == AudioMedia then video else if types[i] == VideoMedia then i else video;
      if audio' == -1 || video' == -1 {
        SelectFromVideoThenAudio(types, i + 1, audio', video');
      }
    }
  }

  /** `Med_CreateContext`'s stream choice: an audio stream is chosen exactly
      when there is one, and likewise video; once both are found the later of
      the two is the first stream of its kind and the earlier is the last
      stream of its kind before it. When only one kind is present, the loop
      never stops early and keeps the last stream of that kind. */
  function SelectStreams(types: seq<MediaType>): (sel: StreamSelection)
    ensures sel.audio == -1 <==> AudioMedia !in types
    ensures sel.video == -1 <==> VideoMedia !in types
    ensures sel.audio != -1 ==> 0 <= sel.audio < |types| && types[sel.audio] == AudioMedia
    ensures sel.video != -1 ==> 0 <= sel.video < |types| && types[sel.video] == VideoMedia
    ensures sel.audio != -1 && sel.video != -1 && sel.audio < sel.video ==>
      (forall j :: sel.audio < j <= sel.video ==> types[j] != AudioMedia) && VideoMedia !in types[..sel.video]
    ensures sel.audio != -1 && sel.video != -1 && sel.video < sel.audio ==>
      (forall j :: sel.video < j <= sel.audio ==> types[j] != VideoMedia) && AudioMedia !in types[..sel.audio]
    ensures sel.video == -1 ==> IsLastBefore(types, AudioMedia, sel.audio, |types|)
    ensures sel.audio == -1 ==> IsLastBefore(types, VideoMedia, sel.video, |types|)
  {
    SelectFromFindsPresent(types, 0, -1, -1);
    SelectFromKeepsLast(types, 0, -1, -1);
    SelectFromAudioThenVideo(types, 0, -1, -1);
    SelectFromVideoThenAudio(types, 0, -1, -1);
    SelectFrom(types, 0, -1, -1)
  }

  /** What the decoder collaborator reports about one stream. */
  datatype StreamInfo = StreamInfo(kind: MediaType, decoderFound: bool, decoderOpens: bool, pixelFormat: PixelFormat)

  /** What opening a media source reports: whether the container opened,
      whether stream information was found, and the streams. */
  datatype Source = Source(opens: bool, streamInfoFound: bool, streams: seq<StreamInfo>)

  datatype CreateError = SourceOpenFailure | NoDecodableStream | DecoderInitFailure

  function Kinds(streams: seq<StreamInfo>): (types: seq<MediaType>)
    ensures |types| == |streams|
    ensures forall i :: 0 <= i < |streams| ==> types[i] == streams[i].kind
  {
    seq(|streams|, i requires 0 <= i < |streams| => streams[i].kind)
  }

  /** The context before any decode: no frame decoded yet, no close request. */
  const EmptyFrame: DecodedFrame := DecodedFrame([], [], AV_NOPTS_VALUE)

  /** The stream chosen at `idx` (-1 for none) has a decoder that was found
      but does not open. */
  predicate DecoderFailsToOpen(src: Source, idx: int)
  {
    0 <= idx < |src.streams| && src.streams[idx].decoderFound && !src.streams[idx].decoderOpens
  }

  /** Opens a media context. Fails when the container or its stream
      information cannot be read, when there is neither an audio nor a video
      stream, or when a found decoder does not open. Otherwise both rings are
      empty, the video ring has 20 slots when a video decoder was found and
      the audio ring 60000 when an audio decoder was found. */
  function CreateContext(src: Source): (r: Result<Session, CreateError>)
    ensures r == Failure(SourceOpenFailure) <==> !src.opens || !src.streamInfoFound
    ensures r == Failure(NoDecodableStream) <==>
      src.opens && src.streamInfoFound && forall i :: 0 <= i < |src.streams| ==> src.streams[i].kind == OtherMedia
    ensures var sel := SelectStreams(Kinds(src.streams));
      r == Failure(DecoderInitFailure) <==>
        && src.opens && src.streamInfoFound && (sel.audio != -1 || sel.video != -1)
        && (DecoderFailsToOpen(src, sel.video) || DecoderFailsToOpen(src, sel.audio))
    ensures var sel := SelectStreams(Kinds(src.streams));
      r.Success? <==>
        && src.opens && src.streamInfoFound && (sel.audio != -1 || sel.video != -1)
        && !DecoderFailsToOpen(src, sel.video) && !DecoderFailsToOpen(src, sel.audio)
    ensures r.Success? ==>
      var s := r.value;
      var sel := SelectStreams(Kinds(src.streams));
      && SessionValid(s)
      && Contents(s.video) == [] && Contents(s.audio) == []
      && !s.shouldClose
      && s.videoStream == (if sel.video != -1 then Some(sel.video) else None)
      && s.audioStream == (if sel.audio != -1 then Some(sel.audio) else None)
      && (s.videoStream.Some? <==> VideoMedia in Kinds(src.streams))
      && (s.audioStream.Some? <==> AudioMedia in Kinds(src.streams))
      && (s.videoStream.Some? ==> s.videoStream.value < |src.streams| && src.streams[s.videoStream.value].kind == VideoMedia)
      && (s.audioStream.Some? ==> s.audioStream.value < |src.streams| && src.streams[s.audioStream.value].kind == AudioMedia)
      && |s.video.data| == (if s.videoStream.Some? && src.streams[s.videoStream.value].decoderFound then NUM_VIDEO_FRAME_BUFFERS else 0)
      && |s.audio.data| == (if s.audioStream.Some? && src.streams[s.audioStream.value].decoderFound then AUDIO_BUFFER_SIZE else 0)
      && s.scalerSource == (if |s.video.data| > 0 then Some(CorrectForDeprecatedPixelFormat(src.streams[s.videoStream.value].pixelFormat)) else None)
  {
    if !src.opens || !src.streamInfoFound then Failure(SourceOpenFailure)
    else
      var sel := SelectStreams(Kinds(src.streams));
      if sel.audio == -1 && sel.video == -1 then Failure(NoDecodableStream)
      else
        var videoDecoder := sel.video != -1 && src.streams[sel.video].decoderFound;
        var audioDecoder := sel.audio != -1 && src.streams[sel.audio].decoderFound;
        if videoDecoder && !src.streams[sel.video].decoderOpens then Failure(DecoderInitFailure)
        else if audioDecoder && !src.streams[sel.audio].decoderOpens then Failure(DecoderInitFailure)
        else
          Success(Session(
            if sel.video != -1 then Some(sel.video) else None,
            if sel.audio != -1 then Some(sel.audio) else None,
            if videoDecoder then Init(NUM_VIDEO_FRAME_BUFFERS, Slot([], 0)) else CircBuf([], 0, 0),
            if audioDecoder then Init(AUDIO_BUFFER_SIZE, []) else CircBuf([], 0, 0),
            if videoDecoder then Some(CorrectForDeprecatedPixelFormat(src.streams[sel.video].pixelFormat)) else None,
            EmptyFrame,
            false))
  }

  /** A video stream without a decoder leaves the video ring without storage,
      so the gate never opens and the producer idles for good. */
  lemma MissingVideoDecoderStallsGate(src: Source)
    requires CreateContext(src).Success?
    requires CreateContext(src).value.videoStream.Some?
    requires !src.streams[CreateContext(src).value.videoStream.value].decoderFound
    ensures !IsContextFillable(CreateContext(src).value)
  {
  }
}
