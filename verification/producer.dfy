/** The background decode routine: gate, fetch one decoded unit, enqueue it. */
module Producer {
  import opened Wrappers
  import opened CircBuf
  import opened Video
  import opened Media

  /** Decoder status codes the routine tests for: AVERROR(EAGAIN) and
      AVERROR_EOF (the negated tag 'E','O','F',' '). -1 is the routine's own
      "nothing decoded" marker. */
  const AVERROR_EAGAIN: int := -11
  const AVERROR_EOF: int := -0x2046_4F45
  const NOTHING_DECODED: int := -1

  /** One packet as the demuxer delivers it, with what the decoder answers
      for it: the result of sending it, the result of asking for a frame, and
      the contents of the shared output frame after that request. */
  datatype Packet = Packet(streamIndex: int, sendResult: int, receiveResult: int, received: DecodedFrame)

  /** Outcome of the packet loop: the last status, whether an audio packet
      was routed, the shared output frame and the position of the first
      packet not yet read. */
  datatype Fetched = Fetched(frameFinished: int, isAudio: bool, frame: DecodedFrame, next: nat)

  predicate Routed(p: Packet, videoIndex: int, audioIndex: int)
  {
    p.streamIndex == videoIndex || p.streamIndex == audioIndex
  }

  predicate RoutedToAudio(p: Packet, videoIndex: int, audioIndex: int)
  {
    p.streamIndex != videoIndex && p.streamIndex == audioIndex
  }

  /** The packet loop, reading the demuxer's packets from position `i` on.
      Packets of other streams are skipped; a failed send stops the loop with
      the send status; "try again" and "end of stream" from the decoder move
      on to the next packet; any other receive status, a frame or an error,
      stops the loop. The audio flag is set by every routed audio packet and
      never cleared. */
  function FetchFrame(packets: seq<Packet>, i: nat, videoIndex: int, audioIndex: int,
                      frameFinished: int, isAudio: bool, frame: DecodedFrame): (f: Fetched)
    requires i <= |packets|
    ensures i <= f.next <= |packets|
    decreases |packets| - i
  {
    if i == |packets| then Fetched(frameFinished, isAudio, frame, i)
    else
      var p := packets[i];
      if !Routed(p, videoIndex, audioIndex) then
        FetchFrame(packets, i + 1, videoIndex, audioIndex, frameFinished, isAudio, frame)
      else
        var isAudio' := if p.streamIndex == videoIndex then isAudio else true;
        if p.sendResult < 0 then Fetched(p.sendResult, isAudio', frame, i + 1)
        else if p.receiveResult == AVERROR_EAGAIN || p.receiveResult == AVERROR_EOF then
          FetchFrame(packets, i + 1, videoIndex, audioIndex, p.receiveResult, isAudio', p.received)
        else Fetched(p.receiveResult, isAudio', p.received, i + 1)
  }

  /** The audio flag comes out set exactly when it went in set or some
      consumed packet was routed to the audio decoder. */
  lemma {:induction false} FetchFrameAudioFlag(packets: seq<Packet>, i: nat, videoIndex: int, audioIndex: int,
                                               frameFinished: int, isAudio: bool, frame: DecodedFrame)
    requires i <= |packets|
    ensures var f := FetchFrame(packets, i, videoIndex, audioIndex, frameFinished, isAudio, frame);
      f.isAudio <==> isAudio || exists j :: i <= j < f.next && RoutedToAudio(packets[j], videoIndex, audioIndex)
    decreases |packets| - i
  {
    if i < |packets| {
      var p := packets[i];
      var isAudio' := if Routed(p, videoIndex, audioIndex) && p.streamIndex != videoIndex then true else isAudio;
      if !Routed(p, videoIndex, audioIndex) {
        FetchFrameAudioFlag(packets, i + 1, videoIndex, audioIndex, frameFinished, isAudio', frame);
      } else if p.sendResult >= 0 && (p.receiveResult == AVERROR_EAGAIN || p.receiveResult == AVERROR_EOF) {
        FetchFrameAudioFlag(packets, i + 1, videoIndex, audioIndex, p.receiveResult, isAudio', p.received);
      }
    }
  }

  /** A non-negative status from a loop that started without one was the
      receive result of the last consumed packet, a routed packet whose send
      succeeded, and the frame is that packet's decoded frame. */
  lemma {:induction false} FetchFrameStatus(packets: seq<Packet>, i: nat, videoIndex: int, audioIndex: int,
                                            frameFinished: int, isAudio: bool, frame: DecodedFrame)
    requires i <= |packets| && frameFinished < 0
    ensures var f := FetchFrame(packets, i, videoIndex, audioIndex, frameFinished, isAudio, frame);
      f.frameFinished >= 0 ==>
        && i < f.next
        && var p := packets[f.next - 1];
        && Routed(p, videoIndex, audioIndex) && p.sendResult >= 0
        && p.receiveResult == f.frameFinished && f.frame == p.received
    decreases |packets| - i
  {
    if i < |packets| {
      var p := packets[i];
      var isAudio' := if Routed(p, videoIndex, audioIndex) && p.streamIndex != videoIndex then true else isAudio;
      if !Routed(p, videoIndex, audioIndex) {
        FetchFrameStatus(packets, i + 1, videoIndex, audioIndex, frameFinished, isAudio', frame);
      } else if p.sendResult >= 0 && (p.receiveResult == AVERROR_EAGAIN || p.receiveResult == AVERROR_EOF) {
        FetchFrameStatus(packets, i + 1, videoIndex, audioIndex, p.receiveResult, isAudio', p.received);
      }
    }
  }

  /** The packet loop goes on past `p`: it belongs to no chosen stream, or the
      decoder took it and answered "try again" or "end of stream". */
  predicate Continues(p: Packet, videoIndex: int, audioIndex: int)
  {
    !Routed(p, videoIndex, audioIndex)
    || (p.sendResult >= 0 && (p.receiveResult == AVERROR_EAGAIN || p.receiveResult == AVERROR_EOF))
  }

  /** The status a routed packet leaves behind: the send status when the send
      failed, the receive status otherwise. */
  function StatusOf(p: Packet): int
  {
    if p.sendResult < 0 then p.sendResult else p.receiveResult
  }

  /** Position of the last packet in [i, end) that reaches a decoder, when
      `sent` also of those whose send succeeded. */
  function LastRouted(packets: seq<Packet>, i: nat, end: nat, videoIndex: int, audioIndex: int, sent: bool): (k: Option<nat>)
    requires i <= end <= |packets|
    ensures k.Some? ==>
      && i <= k.value < end && Routed(packets[k.value], videoIndex, audioIndex)
      && (sent ==> packets[k.value].sendResult >= 0)
    decreases end - i
  {
    if i == end then None
    else
      var rest := LastRouted(packets, i + 1, end, videoIndex, audioIndex, sent);
      if rest.Some? then rest
      else if Routed(packets[i], videoIndex, audioIndex) && (!sent || packets[i].sendResult >= 0) then Some(i)
      else None
  }

  /** Where the loop stops: every packet it consumed before the last one let
      it go on, and it stopped either on a packet that did not, or because
      the demuxer ran out with every packet letting it go on. */
  lemma {:induction false} FetchFrameStops(packets: seq<Packet>, i: nat, videoIndex: int, audioIndex: int,
                                           frameFinished: int, isAudio: bool, frame: DecodedFrame)
    requires i <= |packets|
    ensures var f := FetchFrame(packets, i, videoIndex, audioIndex, frameFinished, isAudio, frame);
      && (forall j :: i <= j < f.next - 1 ==> Continues(packets[j], videoIndex, audioIndex))
      && ((i < f.next && !Continues(packets[f.next - 1], videoIndex, audioIndex))
          || (f.next == |packets| && forall j :: i <= j < f.next ==> Continues(packets[j], videoIndex, audioIndex)))
    decreases |packets| - i
  {
    if i < |packets| {
      var p := packets[i];
      var isAudio' := if Routed(p, videoIndex, audioIndex) && p.streamIndex != videoIndex then true else isAudio;
      if !Routed(p, videoIndex, audioIndex) {
        FetchFrameStops(packets, i + 1, videoIndex, audioIndex, frameFinished, isAudio', frame);
      } else if p.sendResult >= 0 && (p.receiveResult == AVERROR_EAGAIN || p.receiveResult == AVERROR_EOF) {
        FetchFrameStops(packets, i + 1, videoIndex, audioIndex, p.receiveResult, isAudio', p.received);
      }
    }
  }

  /** What the loop returns: the status is that of the last consumed packet
      that reached a decoder, or the incoming status when none did; the frame
      is the one decoded for the last consumed packet whose send succeeded,
      or the incoming frame when there is none. */
  lemma {:induction false} FetchFrameResult(packets: seq<Packet>, i: nat, videoIndex: int, audioIndex: int,
                                            frameFinished: int, isAudio: bool, frame: DecodedFrame)
    requires i <= |packets|
    ensures var f := FetchFrame(packets, i, videoIndex, audioIndex, frameFinished, isAudio, frame);
      && f.frameFinished == (match LastRouted(packets, i, f.next, videoIndex, audioIndex, false)
                             case None => frameFinished
                             case Some(k) => StatusOf(packets[k]))
      && f.frame == (match LastRouted(packets, i, f.next, videoIndex, audioIndex, true)
                     case None => frame
                     case Some(k) => packets[k].received)
    decreases |packets| - i
  {
    if i < |packets| {
      var p := packets[i];
      var isAudio' := if Routed(p, videoIndex, audioIndex) && p.streamIndex != videoIndex then true else isAudio;
      if !Routed(p, videoIndex, audioIndex) {
        FetchFrameResult(packets, i + 1, videoIndex, audioIndex, frameFinished, isAudio', frame);
      } else if p.sendResult >= 0 && (p.receiveResult == AVERROR_EAGAIN || p.receiveResult == AVERROR_EOF) {
        FetchFrameResult(packets, i + 1, videoIndex, audioIndex, p.receiveResult, isAudio', p.received);
      }
    }
  }

  /** The loop as `_DecodeRoutine` starts it: no status yet, not audio. It
      reports "nothing decoded", the routine's shutdown signal, exactly when
      no consumed packet reached a decoder or the last one that did left -1
      as its status. */
  function Fetch(packets: seq<Packet>, i: nat, videoIndex: int, audioIndex: int, frame: DecodedFrame): (f: Fetched)
    requires i <= |packets|
    ensures i <= f.next <= |packets|
    ensures f.frameFinished == NOTHING_DECODED <==>
      match LastRouted(packets, i, f.next, videoIndex, audioIndex, false)
      case None => true
      case Some(k) => StatusOf(packets[k]) == NOTHING_DECODED
  {
    FetchFrameResult(packets, i, videoIndex, audioIndex, NOTHING_DECODED, false, frame);
    FetchFrame(packets, i, videoIndex, audioIndex, NOTHING_DECODED, false, frame)
  }

  /** The enqueue step, taken after the gate opened. A status other than the
      "nothing decoded" marker enqueues the shared frame, into the audio ring
      when the audio flag is set (a rejected write drops the samples) and
      into the video ring otherwise (stamp, then advance by one slot). The
      marker instead requests shutdown. Read cursors never move. */
  function Enqueue(s: Session, f: Fetched): (s': Session)
    requires SessionValid(s) && IsContextFillable(s)
    requires s.videoStream.Some? && s.audioStream.Some?
    ensures SessionValid(s')
    ensures s'.videoStream == s.videoStream && s'.audioStream == s.audioStream && s'.scalerSource == s.scalerSource
    ensures s'.frame == f.frame
    ensures |s'.video.data| == |s.video.data| && |s'.audio.data| == |s.audio.data|
    ensures s'.video.curRead == s.video.curRead && s'.audio.curRead == s.audio.curRead
    ensures f.frameFinished == NOTHING_DECODED ==> s' == s.(frame := f.frame, shouldClose := true)
    ensures f.frameFinished != NOTHING_DECODED && f.isAudio ==>
      && s'.video == s.video && s'.shouldClose == s.shouldClose
      && (|f.frame.samples| < Available(s.audio) ==> Contents(s'.audio) == Contents(s.audio) + f.frame.samples)
      && (|f.frame.samples| >= Available(s.audio) ==> s'.audio == s.audio)
    ensures f.frameFinished != NOTHING_DECODED && !f.isAudio ==>
      && s'.audio == s.audio && s'.shouldClose == s.shouldClose
      && Contents(s'.video) == Contents(s.video) + [Slot(f.frame.picture, f.frame.pts)]
  {
    var s := s.(frame := f.frame);
    if f.frameFinished != NOTHING_DECODED then
      if f.isAudio then
        s.(audio := Write(s.audio, f.frame.samples).buf)
      else
        s.(video := EnqueueVideo(s.video, f.frame.picture, f.frame.pts))
    else
      s.(shouldClose := true)
  }

  /** The context after a pass and the position of the next unread packet. */
  datatype Iteration = Iteration(session: Session, next: nat)

  /** One pass of the routine's outer loop, the demuxer standing at packet
      `i`: a closed context does nothing, a closed gate idles, an open gate
      fetches and enqueues. The producer never overruns a ring: each ring's
      queue only grows at its end, the video queue by at most one frame. */
  function DecodeIteration(s: Session, packets: seq<Packet>, i: nat): (it: Iteration)
    requires SessionValid(s) && s.videoStream.Some? && s.audioStream.Some?
    requires i <= |packets|
    ensures SessionValid(it.session)
    ensures it.session.videoStream == s.videoStream && it.session.audioStream == s.audioStream
    ensures it.session.video.curRead == s.video.curRead && it.session.audio.curRead == s.audio.curRead
    ensures Contents(s.video) <= Contents(it.session.video)
    ensures |Contents(it.session.video)| <= |Contents(s.video)| + 1
    ensures Contents(s.audio) <= Contents(it.session.audio)
    ensures i <= it.next <= |packets|
    ensures s.shouldClose ==> it.session.shouldClose
    ensures s.shouldClose || !IsContextFillable(s) ==> it == Iteration(s, i)
    ensures !s.shouldClose && IsContextFillable(s) ==>
      var f := Fetch(packets, i, s.videoStream.value, s.audioStream.value, s.frame);
      it.session.frame == f.frame && it.next == f.next
  {
    if s.shouldClose || !IsContextFillable(s) then Iteration(s, i)
    else
      var f := Fetch(packets, i, s.videoStream.value, s.audioStream.value, s.frame);
      Iteration(Enqueue(s, f), f.next)
  }

  /** Once the demuxer has nothing left, an open gate leads to the shutdown
      request, after which the routine does nothing more. */
  lemma EndOfStreamCloses(s: Session, packets: seq<Packet>)
    requires SessionValid(s) && s.videoStream.Some? && s.audioStream.Some?
    requires !s.shouldClose && IsContextFillable(s)
    ensures DecodeIteration(s, packets, |packets|).session.shouldClose
    ensures var s' := DecodeIteration(s, packets, |packets|).session;
      DecodeIteration(s', packets, |packets|) == Iteration(s', |packets|)
  {
  }

  /** The audio flag is sticky: an audio packet the decoder answers with
      "try again", followed by a video packet that yields a frame, sends that
      video frame to the audio ring. */
  lemma VideoFrameAfterAudioRetryIsTakenForAudio(videoIndex: int, audioIndex: int,
                                                 stale: DecodedFrame, a: DecodedFrame, v: DecodedFrame)
    requires videoIndex != audioIndex
    ensures var f := Fetch([Packet(audioIndex, 0, AVERROR_EAGAIN, a), Packet(videoIndex, 0, 0, v)], 0, videoIndex, audioIndex, stale);
      f.frameFinished == 0 && f.isAudio && f.frame == v
  {
    var ps := [Packet(audioIndex, 0, AVERROR_EAGAIN, a), Packet(videoIndex, 0, 0, v)];
    assert FetchFrame(ps, 1, videoIndex, audioIndex, AVERROR_EAGAIN, true, a) == Fetched(0, true, v, 2);
  }

  /** Any status other than the marker enqueues: a packet the decoder refuses
      leads to the shared frame left from before being enqueued again,
      instead of a shutdown. */
  lemma RefusedPacketStillEnqueues(s: Session, refusal: int, received: DecodedFrame)
    requires SessionValid(s) && s.videoStream.Some? && s.audioStream.Some?
    requires !s.shouldClose && IsContextFillable(s)
    requires refusal < 0 && refusal != NOTHING_DECODED
    ensures var it := DecodeIteration(s, [Packet(s.videoStream.value, refusal, 0, received)], 0);
      && !it.session.shouldClose
      && Contents(it.session.video) == Contents(s.video) + [Slot(s.frame.picture, s.frame.pts)]
  {
  }

  /** A schedule of the three actors: a producer pass, an audio pull of some
      count, a video poll at some tick. */
  datatype Event = Produce | PullAudio(count: nat) | PresentVideo(target: int)

  /** Every state reachable from a valid context by any interleaving of
      producer passes and consumer polls is valid; the producer never touches
      the read cursors and the consumers never touch the write cursors. */
  function Simulate(s: Session, packets: seq<Packet>, i: nat, events: seq<Event>): (r: Iteration)
    requires SessionValid(s) && s.videoStream.Some? && s.audioStream.Some?
    requires i <= |packets|
    ensures SessionValid(r.session)
    ensures r.session.videoStream == s.videoStream && r.session.audioStream == s.audioStream
    ensures |r.session.video.data| == |s.video.data| && |r.session.audio.data| == |s.audio.data|
    ensures i <= r.next <= |packets|
    decreases |events|
  {
    if |events| == 0 then Iteration(s, i)
    else
      var step := match events[0]
        case Produce => DecodeIteration(s, packets, i)
        case PullAudio(count) => Iteration(PollAudio(s, count).session, i)
        case PresentVideo(target) => Iteration(s.(video := Poll(s.video, target).buf), i);
      Simulate(step.session, packets, step.next, events[1..])
  }
}
