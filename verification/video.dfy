/** The video frame ring: decoded frames in ring slots, each paired with its
    presentation timestamp (`video_buf` together with `video_pts_buf`). */
module Video {
  import opened Wrappers
  import opened CircBuf

  /** Raw converted pixel bytes of one frame. */
  type Picture = seq<bv8>

  /** One ring slot: the frame's pixels and the timestamp stamped beside it,
      in ticks of the stream's time base. */
  datatype Slot = Slot(picture: Picture, pts: int)

  const NUM_VIDEO_FRAME_BUFFERS: nat := 20

  /** The video ring never goes through the element-count write, so its
      cursors stay strictly inside the storage. */
  predicate VideoValid(v: CircBuf<Slot>)
  {
    && Valid(v)
    && (|v.data| > 0 ==> v.curWrite < |v.data| && v.curRead < |v.data|)
  }

  /** Producer side: stamp the frame at the write cursor, then advance the
      write cursor by one slot modulo N. There is no capacity check here: on
      a ring that is already holding N-1 frames the cursor lands on the read
      cursor and every queued frame is lost. */
  function EnqueueVideo(v: CircBuf<Slot>, picture: Picture, pts: int): (v': CircBuf<Slot>)
    requires VideoValid(v) && |v.data| > 0
    ensures VideoValid(v')
    ensures |v'.data| == |v.data| && v'.curRead == v.curRead
    ensures |Contents(v)| < |v.data| - 1 ==> Contents(v') == Contents(v) + [Slot(picture, pts)]
    ensures |Contents(v)| == |v.data| - 1 ==> Contents(v') == []
  {
    var n := |v.data|;
    var w := v.curWrite;
    var v' := CircBuf(v.data[w := Slot(picture, pts)], (w + 1) % n, v.curRead);
    EnqueueEffect(v, picture, pts, v');
    v'
  }

  lemma EnqueueEffect(v: CircBuf<Slot>, picture: Picture, pts: int, v': CircBuf<Slot>)
    requires VideoValid(v) && |v.data| > 0
    requires v' == CircBuf(v.data[v.curWrite := Slot(picture, pts)], (v.curWrite + 1) % |v.data|, v.curRead)
    ensures VideoValid(v')
    ensures |Contents(v)| < |v.data| - 1 ==> Contents(v') == Contents(v) + [Slot(picture, pts)]
    ensures |Contents(v)| == |v.data| - 1 ==> Contents(v') == []
  {
    var n := |v.data|;
    var w, r := v.curWrite, v.curRead;
    var d' := v'.data;
    if w + 1 < n {
      ModBelow(w + 1, n);
      if r <= w {
        assert d'[r..w + 1] == v.data[r..w] + [Slot(picture, pts)];
      } else if r == w + 1 {
        assert |Contents(v)| == n - 1;
      } else {
        assert d'[r..] == v.data[r..];
        assert d'[..w + 1] == v.data[..w] + [Slot(picture, pts)];
      }
    } else {
      ModOnce(w + 1, n);
      if r == 0 {
        assert |Contents(v)| == n - 1;
      } else {
        assert d'[r..] == v.data[r..w] + [Slot(picture, pts)];
      }
    }
  }

  /** Index of the last element, in queue order, whose timestamp is strictly
      below `target`. */
  function LastDue(q: seq<Slot>, target: int): (k: Option<nat>)
    ensures k.Some? ==> k.value < |q|
  {
    LastDueBefore(q, |q|, target)
  }

  /** The same search restricted to the first `i` elements. */
  function LastDueBefore(q: seq<Slot>, i: nat, target: int): (k: Option<nat>)
    requires i <= |q|
    ensures k.Some? ==> k.value < i
  {
    if i == 0 then None
    else if q[i - 1].pts < target then Some(i - 1)
    else LastDueBefore(q, i - 1, target)
  }

  /** LastDue finds a due element, no later element is due, and it finds
      nothing exactly when no element is due. */
  lemma LastDueIsLastBelow(q: seq<Slot>, target: int)
    ensures LastDue(q, target).Some? ==> q[LastDue(q, target).value].pts < target
    ensures LastDue(q, target).Some? ==> forall j :: LastDue(q, target).value < j < |q| ==> q[j].pts >= target
    ensures LastDue(q, target).None? <==> forall j :: 0 <= j < |q| ==> q[j].pts >= target
  {
    LastDueBeforeIsLastBelow(q, |q|, target);
  }

  lemma {:induction false} LastDueBeforeIsLastBelow(q: seq<Slot>, i: nat, target: int)
    requires i <= |q|
    ensures LastDueBefore(q, i, target).Some? ==> q[LastDueBefore(q, i, target).value].pts < target
    ensures LastDueBefore(q, i, target).Some? ==>
      forall j :: LastDueBefore(q, i, target).value < j < i ==> q[j].pts >= target
    ensures LastDueBefore(q, i, target).None? <==> forall j :: 0 <= j < i ==> q[j].pts >= target
    decreases i
  {
    if i > 0 && q[i - 1].pts >= target {
      LastDueBeforeIsLastBelow(q, i - 1, target);
    }
  }

  datatype PollResult = PollResult(frame: Option<Picture>, buf: CircBuf<Slot>)

  /** Consumer side, as a function of the queue: among the queued frames
      pick the last one stamped strictly before `target`, hand out a copy,
      and move the read cursor onto that frame's slot (not past it). */
  function Poll(v: CircBuf<Slot>, target: int): (p: PollResult)
    requires VideoValid(v)
    ensures VideoValid(p.buf)
    ensures p.buf.data == v.data && p.buf.curWrite == v.curWrite
  {
    if Size(v) <= 0 then PollResult(None, v)
    else match LastDue(Contents(v), target)
      case None => PollResult(None, v)
      case Some(k) =>
        var slot := (v.curRead + k) % |v.data|;
        PollResult(Some(v.data[slot].picture), v.(curRead := slot))
  }

  /** What Poll selects: nothing (and the ring untouched) exactly when no
      queued frame is due; otherwise the last due frame in queue order, with
      the frames before it dropped and that frame still at the front. */
  lemma PollPicksLastDue(v: CircBuf<Slot>, target: int)
    requires VideoValid(v)
    ensures var p := Poll(v, target);
      && (p.frame.None? <==> forall j :: 0 <= j < |Contents(v)| ==> Contents(v)[j].pts >= target)
      && (p.frame.None? ==> p.buf == v)
      && (p.frame.Some? ==>
        var k := |Contents(v)| - |Contents(p.buf)|;
        && 0 <= k < |Contents(v)|
        && Contents(p.buf) == Contents(v)[k..]
        && p.frame.value == Contents(v)[k].picture
        && Contents(v)[k].pts < target
        && (forall j :: k < j < |Contents(v)| ==> Contents(v)[j].pts >= target))
  {
    var q := Contents(v);
    LastDueIsLastBelow(q, target);
    if Size(v) > 0 && LastDue(q, target).Some? {
      PollAt(v, target, LastDue(q, target).value);
    }
  }

  /** Poll when the last due frame sits at queue offset k. */
  lemma PollAt(v: CircBuf<Slot>, target: int, k: nat)
    requires VideoValid(v) && Size(v) > 0 && LastDue(Contents(v), target) == Some(k)
    ensures Poll(v, target).frame == Some(Contents(v)[k].picture)
    ensures Contents(Poll(v, target).buf) == Contents(v)[k..]
  {
    var slot := (v.curRead + k) % |v.data|;
    assert Poll(v, target) == PollResult(Some(v.data[slot].picture), v.(curRead := slot));
    ContentsAt(v, k);
    AdvanceRead(v, k);
  }

  /** `Med_PollVideo`'s scan over slot indices: for every occupied offset i,
      look at slot (curRead + i) mod N and remember it when its timestamp is
      below the target; the last remembered slot wins. */
  method PollVideo(v: CircBuf<Slot>, target: int) returns (p: PollResult)
    requires VideoValid(v)
    ensures p == Poll(v, target)
  {
    var sz := Size(v);
    if sz <= 0 {
      return PollResult(None, v);
    }
    var reading := ScanDue(v, target);
    PollBySlot(v, target, LastDue(Contents(v), target));
    if reading != -1 {
      return PollResult(Some(v.data[reading].picture), v.(curRead := reading));
    }
    return PollResult(None, v);
  }

  /** The scan loop itself: the slot of the last due frame in queue order,
      or -1 when none is due. */
  method ScanDue(v: CircBuf<Slot>, target: int) returns (reading: int)
    requires VideoValid(v) && Size(v) > 0
    ensures LastDue(Contents(v), target).None? ==> reading == -1
    ensures LastDue(Contents(v), target).Some? ==>
      reading == (v.curRead + LastDue(Contents(v), target).value) % |v.data|
  {
    var sz := Size(v);
    var n := |v.data|;
    ghost var q := Contents(v);
    ghost var found: Option<nat> := None;
    reading := -1;
    var i := 0;
    while i < sz
      invariant 0 <= i <= sz == |q|
      invariant found == LastDueBefore(q, i, target)
      invariant found.None? ==> reading == -1
      invariant found.Some? ==> reading == (v.curRead + found.value) % n
    {
      var curRead := (v.curRead + i) % n;
      ContentsAt(v, i);
      if v.data[curRead].pts < target {
        reading := curRead;
        found := Some(i);
        assert reading == (v.curRead + found.value) % n;
      }
      i := i + 1;
    }
  }

  /** Poll in terms of the slot the scan remembered. */
  lemma PollBySlot(v: CircBuf<Slot>, target: int, found: Option<nat>)
    requires VideoValid(v) && Size(v) > 0
    requires found == LastDue(Contents(v), target)
    ensures found.None? ==> Poll(v, target) == PollResult(None, v)
    ensures found.Some? ==>
      var slot := (v.curRead + found.value) % |v.data|;
      Poll(v, target) == PollResult(Some(v.data[slot].picture), v.(curRead := slot))
  {
  }

  /** The chosen frame is not consumed: polling again with the same target
      returns the same frame and leaves the ring as the first poll left it. */
  lemma PollIsIdempotent(v: CircBuf<Slot>, target: int)
    requires VideoValid(v)
    ensures Poll(Poll(v, target).buf, target) == Poll(v, target)
  {
    var p := Poll(v, target);
    PollPicksLastDue(v, target);
    if p.frame.Some? {
      var q := Contents(v);
      var q1 := Contents(p.buf);
      var k := |q| - |q1|;
      assert q1 == q[k..];
      forall j | 0 < j < |q1|
        ensures q1[j].pts >= target
      {
        assert q1[j] == q[k + j];
      }
      PollFrontDue(p.buf, target, p.frame.value);
    } else {
      assert p.buf == v;
    }
  }

  /** A ring whose first queued frame is the only due one polls to that
      frame and stays as it is. */
  lemma PollFrontDue(v: CircBuf<Slot>, target: int, picture: Picture)
    requires VideoValid(v) && |Contents(v)| > 0
    requires Contents(v)[0].pts < target && Contents(v)[0].picture == picture
    requires forall j :: 0 < j < |Contents(v)| ==> Contents(v)[j].pts >= target
    ensures Poll(v, target) == PollResult(Some(picture), v)
  {
    LastDueAtFront(Contents(v), target);
    ModBelow(v.curRead, |v.data|);
    ContentsAt(v, 0);
    PollBySlot(v, target, Some(0));
    assert v.(curRead := v.curRead) == v;
  }

  /** When only the first element is due, it is the last due one. */
  lemma LastDueAtFront(q: seq<Slot>, target: int)
    requires |q| > 0 && q[0].pts < target
    requires forall j :: 0 < j < |q| ==> q[j].pts >= target
    ensures LastDue(q, target) == Some(0)
  {
    LastDueBeforeNone(q, |q|, target);
  }

  /** Scanning down from i, nothing after offset 0 is due, so the search
      falls through to offset 0. */
  lemma {:induction false} LastDueBeforeNone(q: seq<Slot>, i: nat, target: int)
    requires 0 < i <= |q| && q[0].pts < target
    requires forall j :: 0 < j < |q| ==> q[j].pts >= target
    ensures LastDueBefore(q, i, target) == Some(0)
    decreases i
  {
    if i > 1 {
      LastDueBeforeNone(q, i - 1, target);
    }
  }

  /** Worked example: frames stamped 10, 20 and 30 and a target of 25 give
      the frame stamped 20; it and the frame stamped 30 stay queued. */
  lemma PollExample(p10: Picture, p20: Picture, p30: Picture, spare: Slot)
    ensures var v := CircBuf([Slot(p10, 10), Slot(p20, 20), Slot(p30, 30), spare], 3, 0);
      && Poll(v, 25).frame == Some(p20)
      && Poll(v, 25).buf.curRead == 1
      && Contents(Poll(v, 25).buf) == [Slot(p20, 20), Slot(p30, 30)]
  {
    var v := CircBuf([Slot(p10, 10), Slot(p20, 20), Slot(p30, 30), spare], 3, 0);
    var q := Contents(v);
    assert q == [Slot(p10, 10), Slot(p20, 20), Slot(p30, 30)];
    assert LastDueBefore(q, 2, 25) == Some(1);
    assert LastDue(q, 25) == Some(1);
    ModBelow(1, 4);
  }
}
