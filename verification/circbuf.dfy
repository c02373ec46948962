/** The fixed-capacity circular queue that stores both decoded audio samples
    and decoded video frames (`CircBuf` in wrapper.cpp). */
module CircBuf {
  import opened Wrappers

  /** A ring of `|data|` slots (`numElements`) with a write cursor and a read
      cursor. One slot is always left unused so that equal cursors mean
      "empty". A cursor may hold the value `|data|` after a transfer that ends
      exactly at the array end; that value denotes slot 0. */
  datatype CircBuf<T> = CircBuf(data: seq<T>, curWrite: int, curRead: int)

  /** The states the buffer operations can reach: both cursors in [0, N], and
      never the write cursor at N while the read cursor is at 0 (the one pair
      on which the cursor arithmetic would read an empty ring as holding N
      elements). A buffer with no storage (freed, or never initialised) has
      both cursors at 0. */
  predicate Valid<T>(b: CircBuf<T>)
  {
    && 0 <= b.curWrite <= |b.data|
    && 0 <= b.curRead <= |b.data|
    && !(|b.data| > 0 && b.curWrite == |b.data| && b.curRead == 0)
  }

  /** The queued elements, oldest first: from the read cursor up to the write
      cursor, wrapping past the end of the storage when needed. */
  function Contents<T>(b: CircBuf<T>): seq<T>
    requires Valid(b)
  {
    if b.curRead <= b.curWrite then b.data[b.curRead..b.curWrite]
    else b.data[b.curRead..] + b.data[..b.curWrite]
  }

  /** A buffer with `numElements` slots and nothing queued. The storage of a
      fresh buffer is uninitialised; `blank` stands for whatever it holds. */
  function Init<T>(numElements: nat, blank: T): (b: CircBuf<T>)
    ensures Valid(b)
    ensures |b.data| == numElements
    ensures Contents(b) == []
  {
    CircBuf(seq(numElements, _ => blank), 0, 0)
  }

  /** Releases the storage: no slots, both cursors back to 0. */
  function Free<T>(b: CircBuf<T>): (e: CircBuf<T>)
    ensures Valid(e)
    ensures |e.data| == 0
    ensures Contents(e) == []
  {
    CircBuf([], 0, 0)
  }

  /** Number of free slots, counting the slot that is never filled; so an
      empty buffer of N slots reports N. */
  function Available<T>(b: CircBuf<T>): (avail: int)
    requires Valid(b)
    ensures avail == |b.data| - |Contents(b)|
    ensures |b.data| > 0 ==> 1 <= avail <= |b.data|
  {
    var dist := b.curRead - b.curWrite;
    if dist <= 0 then |b.data| - b.curWrite + b.curRead else dist
  }

  /** Number of queued elements. */
  function Size<T>(b: CircBuf<T>): (size: int)
    requires Valid(b)
    ensures size == |Contents(b)|
    ensures size + Available(b) == |b.data|
    ensures |b.data| > 0 ==> 0 <= size <= |b.data| - 1
  {
    |b.data| - Available(b)
  }

  /** The element at absolute slot `idx`, or nothing when `idx` is past the
      storage (the source returns a null pointer then). */
  function GetIndex<T>(b: CircBuf<T>, idx: nat): (e: Option<T>)
    requires Valid(b)
    ensures e.Some? <==> idx < |b.data|
    ensures idx < |b.data| ==> e == Some(b.data[idx])
    ensures forall k :: 0 <= k < |Contents(b)| && idx == (b.curRead + k) % |b.data| ==> e == Some(Contents(b)[k])
  {
    ContentsIndexing(b);
    if idx < |b.data| then Some(b.data[idx]) else None
  }

  /** `memcpy` of `src` into `data` starting at slot `at`. */
  function CopyIn<T>(data: seq<T>, at: nat, src: seq<T>): (d: seq<T>)
    requires at + |src| <= |data|
    ensures |d| == |data|
    ensures d[..at] == data[..at]
    ensures d[at..at + |src|] == src
    ensures d[at + |src|..] == data[at + |src|..]
  {
    data[..at] + src + data[at + |src|..]
  }

  lemma ModBelow(x: int, n: int)
    requires 0 <= x < n
    ensures x % n == x
  {
  }

  lemma ModOnce(x: int, n: int)
    requires 0 < n <= x < 2 * n
    ensures x % n == x - n
  {
    ModBelow(x - n, n);
    assert (x - n) % n == x % n;
  }

  lemma ModNeg(x: int, n: int)
    requires 0 < n && -n <= x < 0
    ensures x % n == x + n
  {
  }

  lemma SliceSplit<T>(s: seq<T>, i: int, j: int, k: int)
    requires 0 <= i <= j <= k <= |s|
    ensures s[i..k] == s[i..j] + s[j..k]
  {
  }

  lemma DropSplit<T>(s: seq<T>, i: int, k: int)
    requires 0 <= i && 0 <= k && i + k <= |s|
    ensures s[i..] == s[i..i + k] + s[i + k..]
  {
  }

  lemma PrefixAgree<T>(s: seq<T>, t: seq<T>, i: int, j: int)
    requires 0 <= i <= j <= |s| && j <= |t| && s[..j] == t[..j]
    ensures s[i..j] == t[i..j]
  {
    assert s[i..j] == s[..j][i..];
    assert t[i..j] == t[..j][i..];
  }

  lemma SuffixAgree<T>(s: seq<T>, t: seq<T>, i: int, j: int)
    requires 0 <= i <= j <= |s| && |s| == |t| && s[i..] == t[i..]
    ensures s[j..] == t[j..]
  {
    assert s[j..] == s[i..][j - i..];
    assert t[j..] == t[i..][j - i..];
  }

  lemma DropConcat<T>(a: seq<T>, c: seq<T>, k: int)
    requires 0 <= k <= |a| + |c|
    ensures k <= |a| ==> (a + c)[k..] == a[k..] + c
    ensures k >= |a| ==> (a + c)[k..] == c[k - |a|..]
  {
  }

  lemma ConcatAssoc<T>(a: seq<T>, b: seq<T>, c: seq<T>)
    ensures a + (b + c) == (a + b) + c
  {
  }

  datatype WriteResult<T> = WriteResult(ok: bool, buf: CircBuf<T>)

  /** Appends all of `src` or nothing. A write that would wrap past the end of
      the storage is split into a tail segment of `toEnd` elements and a head
      segment of `remaining` elements. */
  function Write<T>(b: CircBuf<T>, src: seq<T>): (r: WriteResult<T>)
    requires Valid(b)
    ensures Valid(r.buf)
    ensures r.ok <==> |src| <= Available(b) - 1
    ensures !r.ok ==> r.buf == b
    ensures r.ok ==> Contents(r.buf) == Contents(b) + src
    ensures |r.buf.data| == |b.data| && r.buf.curRead == b.curRead
  {
    var n := |b.data|;
    var numWrite := |src|;
    var dist := b.curRead - b.curWrite;
    if dist <= 0 then
      var free := n - b.curWrite + b.curRead;
      if free - 1 < numWrite then WriteResult(false, b)
      else if n - (b.curWrite + numWrite) < 0 then WriteResult(true, PutWrapped(b, src))
      else WriteResult(true, PutContiguous(b, src))
    else if dist - 1 < numWrite then WriteResult(false, b)
    else WriteResult(true, PutContiguous(b, src))
  }

  /** The write of `src` in one copy at the write cursor, which then moves
      forward by `|src|`. */
  function PutContiguous<T>(b: CircBuf<T>, src: seq<T>): (b': CircBuf<T>)
    requires Valid(b) && b.curWrite + |src| <= |b.data|
    requires b.curRead <= b.curWrite ==> b.curWrite + |src| < |b.data| || b.curRead > 0
    requires b.curRead > b.curWrite ==> b.curWrite + |src| < b.curRead
    ensures Valid(b') && Contents(b') == Contents(b) + src
    ensures |b'.data| == |b.data| && b'.curRead == b.curRead
  {
    ContiguousWrite(b, src, CopyIn(b.data, b.curWrite, src));
    CircBuf(CopyIn(b.data, b.curWrite, src), b.curWrite + |src|, b.curRead)
  }

  /** The write of `src` in two copies: toEnd = |b.data| - b.curWrite
      elements up to the array end, the remaining ones from slot 0, where
      the write cursor then stands. */
  function PutWrapped<T>(b: CircBuf<T>, src: seq<T>): (b': CircBuf<T>)
    requires Valid(b) && b.curRead <= b.curWrite
    requires |b.data| < b.curWrite + |src| <= |b.data| + b.curRead - 1
    ensures Valid(b') && Contents(b') == Contents(b) + src
    ensures |b'.data| == |b.data| && b'.curRead == b.curRead
  {
    WrapWrite(b, src, CopyIn(b.data, b.curWrite, src[..|b.data| - b.curWrite]),
              CopyIn(CopyIn(b.data, b.curWrite, src[..|b.data| - b.curWrite]), 0, src[|b.data| - b.curWrite..]));
    CircBuf(CopyIn(CopyIn(b.data, b.curWrite, src[..|b.data| - b.curWrite]), 0, src[|b.data| - b.curWrite..]),
            b.curWrite + |src| - |b.data|, b.curRead)
  }

  /** A write that fits before the array end (and before the read cursor,
      when that lies ahead) lands right behind the queued elements. */
  lemma ContiguousWrite<T>(b: CircBuf<T>, src: seq<T>, d': seq<T>)
    requires Valid(b) && b.curWrite + |src| <= |b.data|
    requires b.curRead <= b.curWrite ==> b.curWrite + |src| < |b.data| || b.curRead > 0
    requires b.curRead > b.curWrite ==> b.curWrite + |src| < b.curRead
    requires |d'| == |b.data| && d'[..b.curWrite] == b.data[..b.curWrite]
    requires d'[b.curWrite..b.curWrite + |src|] == src
    requires d'[b.curWrite + |src|..] == b.data[b.curWrite + |src|..]
    ensures Valid(CircBuf(d', b.curWrite + |src|, b.curRead))
    ensures Contents(CircBuf(d', b.curWrite + |src|, b.curRead)) == Contents(b) + src
  {
    var w, r, e := b.curWrite, b.curRead, b.curWrite + |src|;
    var b' := CircBuf(d', e, r);
    if r <= w {
      assert Contents(b') == d'[r..e];
      SliceSplit(d', r, w, e);
      PrefixAgree(d', b.data, r, w);
    } else {
      assert Contents(b') == d'[r..] + d'[..e];
      SuffixAgree(d', b.data, e, r);
      SliceSplit(d', 0, w, e);
      PrefixAgree(d', b.data, 0, w);
      assert d'[..e] == b.data[..w] + src;
      ConcatAssoc(b.data[r..], b.data[..w], src);
    }
  }

  /** The two segments of a wrapping write land exactly after the queued
      elements: the tail fills the array end, the head restarts at slot 0. */
  lemma WrapWrite<T>(b: CircBuf<T>, src: seq<T>, tail: seq<T>, d': seq<T>)
    requires Valid(b) && b.curRead <= b.curWrite
    requires |b.data| < b.curWrite + |src| <= |b.data| + b.curRead - 1
    requires |tail| == |b.data| && tail[..b.curWrite] == b.data[..b.curWrite]
    requires tail[b.curWrite..|b.data|] == src[..|b.data| - b.curWrite]
    requires |d'| == |b.data|
    requires d'[0..b.curWrite + |src| - |b.data|] == src[|b.data| - b.curWrite..]
    requires d'[b.curWrite + |src| - |b.data|..] == tail[b.curWrite + |src| - |b.data|..]
    ensures Valid(CircBuf(d', b.curWrite + |src| - |b.data|, b.curRead))
    ensures Contents(CircBuf(d', b.curWrite + |src| - |b.data|, b.curRead)) == Contents(b) + src
  {
    var n, w, r := |b.data|, b.curWrite, b.curRead;
    var toEnd := n - w;
    var remaining := w + |src| - n;
    var b' := CircBuf(d', remaining, r);
    assert Contents(b') == d'[r..] + d'[..remaining];
    assert d'[..remaining] == src[toEnd..];
    SuffixAgree(d', tail, remaining, r);
    SliceSplit(tail, r, w, n);
    assert tail[r..] == tail[r..n];
    PrefixAgree(tail, b.data, r, w);
    assert d'[r..] == b.data[r..w] + src[..toEnd];
    ConcatAssoc(b.data[r..w], src[..toEnd], src[toEnd..]);
    assert src == src[..toEnd] + src[toEnd..];
  }

  datatype ReadResult<T> = ReadResult(buf: CircBuf<T>, out: seq<T>)

  /** Removes up to `numRead` elements from the front, copying them out. An
      empty buffer yields nothing and stays as it is; a request larger than
      the queue yields only what is queued. A read that wraps past the end of
      the storage is split into a tail segment and a head segment. */
  function Read<T>(b: CircBuf<T>, numRead: nat): (r: ReadResult<T>)
    requires Valid(b)
    ensures Valid(r.buf)
    ensures |r.out| == Min(numRead, |Contents(b)|)
    ensures Contents(b) == r.out + Contents(r.buf)
    ensures r.buf.data == b.data && r.buf.curWrite == b.curWrite
    ensures Contents(b) == [] ==> r.buf == b && r.out == []
  {
    var n := |b.data|;
    var dist := b.curWrite - b.curRead;
    if dist == 0 then ReadResult(b, [])
    else if dist < 0 then
      var dist := n - b.curRead + b.curWrite;
      var numToRead := if numRead > dist then dist else numRead;
      if n - (b.curRead + numToRead) < 0 then TakeWrapped(b, numToRead)
      else TakeContiguous(b, numToRead)
    else
      var numToRead := if numRead > dist then dist else numRead;
      TakeContiguous(b, numToRead)
  }

  /** The read of `k` queued elements that end at or before the array end:
      one copy, then the read cursor moves forward by `k`. */
  function TakeContiguous<T>(b: CircBuf<T>, k: nat): (r: ReadResult<T>)
    requires Valid(b) && k <= |Contents(b)| && b.curRead + k <= |b.data|
    ensures Valid(r.buf) && |r.out| == k
    ensures Contents(b) == r.out + Contents(r.buf)
    ensures r.buf.data == b.data && r.buf.curWrite == b.curWrite
  {
    ContiguousRead(b, k);
    ReadResult(b.(curRead := b.curRead + k), b.data[b.curRead..b.curRead + k])
  }

  /** The read of `k` queued elements past the array end: the tail segment up
      to the end, then the head segment from slot 0; the read cursor lands
      on the first slot after the head segment. */
  function TakeWrapped<T>(b: CircBuf<T>, k: nat): (r: ReadResult<T>)
    requires Valid(b) && b.curRead > b.curWrite
    requires k <= |Contents(b)| && b.curRead + k > |b.data|
    ensures Valid(r.buf) && |r.out| == k
    ensures Contents(b) == r.out + Contents(r.buf)
    ensures r.buf.data == b.data && r.buf.curWrite == b.curWrite
  {
    // toEnd = |b.data| - b.curRead elements from the tail, then
    // remaining = b.curRead + k - |b.data| from slot 0
    WrappedRead(b, k);
    ReadResult(b.(curRead := b.curRead + k - |b.data|),
               b.data[b.curRead..b.curRead + (|b.data| - b.curRead)] + b.data[..b.curRead + k - |b.data|])
  }

  /** Reading k queued elements that end at or before the array end takes
      them from one segment. */
  lemma ContiguousRead<T>(b: CircBuf<T>, k: nat)
    requires Valid(b) && k <= |Contents(b)| && b.curRead + k <= |b.data|
    ensures Valid(b.(curRead := b.curRead + k))
    ensures Contents(b) == b.data[b.curRead..b.curRead + k] + Contents(b.(curRead := b.curRead + k))
  {
    if b.curRead <= b.curWrite {
      assert Contents(b.(curRead := b.curRead + k)) == b.data[b.curRead + k..b.curWrite];
      SliceSplit(b.data, b.curRead, b.curRead + k, b.curWrite);
    } else {
      ContiguousReadFromTail(b, k);
    }
  }

  lemma ContiguousReadFromTail<T>(b: CircBuf<T>, k: nat)
    requires Valid(b) && b.curRead > b.curWrite && b.curRead + k <= |b.data|
    ensures Valid(b.(curRead := b.curRead + k))
    ensures Contents(b) == b.data[b.curRead..b.curRead + k] + Contents(b.(curRead := b.curRead + k))
  {
    DropSplit(b.data, b.curRead, k);
    ConcatAssoc(b.data[b.curRead..b.curRead + k], b.data[b.curRead + k..], b.data[..b.curWrite]);
  }

  /** Reading k queued elements past the array end takes the tail segment up
      to the end, then the head segment from slot 0. */
  lemma WrappedRead<T>(b: CircBuf<T>, k: nat)
    requires Valid(b) && b.curRead > b.curWrite
    requires k <= |Contents(b)| && b.curRead + k > |b.data|
    ensures Valid(b.(curRead := b.curRead + k - |b.data|))
    ensures Contents(b) == b.data[b.curRead..b.curRead + (|b.data| - b.curRead)] + b.data[..b.curRead + k - |b.data|]
                           + Contents(b.(curRead := b.curRead + k - |b.data|))
  {
    var n, w, r := |b.data|, b.curWrite, b.curRead;
    var remaining := r + k - n;
    var b' := b.(curRead := remaining);
    assert Contents(b') == b.data[remaining..w];
    SliceSplit(b.data, 0, remaining, w);
    assert b.data[..w] == b.data[0..w] && b.data[..remaining] == b.data[0..remaining];
    ConcatAssoc(b.data[r..], b.data[..remaining], b.data[remaining..w]);
    assert b.data[r..r + (n - r)] == b.data[r..];
  }

  /** Reference reading of the counts: the queue length is the cursor
      distance modulo the capacity, whichever side of the other each cursor is. */
  lemma SizeIsCursorDistance<T>(b: CircBuf<T>)
    requires Valid(b) && |b.data| > 0
    ensures Size(b) == (b.curWrite - b.curRead) % |b.data|
  {
    var n := |b.data|;
    var d := b.curWrite - b.curRead;
    if b.curRead <= b.curWrite {
      ModBelow(d, n);
    } else {
      ModNeg(d, n);
    }
  }

  /** Reference reading of the contents: the k-th queued element sits in slot
      (curRead + k) mod N. */
  lemma ContentsAt<T>(b: CircBuf<T>, k: nat)
    requires Valid(b) && k < |Contents(b)|
    ensures Contents(b)[k] == b.data[(b.curRead + k) % |b.data|]
  {
    var n, w, r := |b.data|, b.curWrite, b.curRead;
    if r <= w {
      assert Contents(b) == b.data[r..w];
      ModBelow(r + k, n);
    } else {
      assert Contents(b) == b.data[r..] + b.data[..w];
      if r + k < n {
        ModBelow(r + k, n);
      } else {
        ModOnce(r + k, n);
      }
    }
  }

  lemma ContentsIndexing<T>(b: CircBuf<T>)
    requires Valid(b)
    ensures forall k :: 0 <= k < |Contents(b)| ==> Contents(b)[k] == b.data[(b.curRead + k) % |b.data|]
  {
    forall k | 0 <= k < |Contents(b)|
      ensures Contents(b)[k] == b.data[(b.curRead + k) % |b.data|]
    {
      ContentsAt(b, k);
    }
  }

  /** Moving the read cursor k slots forward (modulo N) drops exactly the
      first k queued elements; this is how a consumer may skip elements
      without copying them. */
  lemma AdvanceRead<T>(b: CircBuf<T>, k: nat)
    requires Valid(b) && |b.data| > 0 && b.curWrite < |b.data|
    requires k <= |Contents(b)|
    ensures Valid(b.(curRead := (b.curRead + k) % |b.data|))
    ensures Contents(b.(curRead := (b.curRead + k) % |b.data|)) == Contents(b)[k..]
  {
    var n, r := |b.data|, b.curRead;
    if r + k < n {
      ModBelow(r + k, n);
      AdvanceWithin(b, k);
    } else {
      ModOnce(r + k, n);
      AdvancePastEnd(b, k);
    }
  }

  lemma AdvanceWithin<T>(b: CircBuf<T>, k: nat)
    requires Valid(b) && b.curWrite < |b.data|
    requires k <= |Contents(b)| && b.curRead + k < |b.data|
    ensures Valid(b.(curRead := b.curRead + k))
    ensures Contents(b.(curRead := b.curRead + k)) == Contents(b)[k..]
  {
    if b.curRead <= b.curWrite {
      AdvanceInSegment(b, k);
    } else {
      AdvanceInTail(b, k);
    }
  }

  lemma AdvanceInSegment<T>(b: CircBuf<T>, k: nat)
    requires Valid(b) && b.curRead <= b.curWrite && b.curRead + k <= b.curWrite
    ensures Contents(b.(curRead := b.curRead + k)) == Contents(b)[k..]
  {
    var w, r := b.curWrite, b.curRead;
    assert Contents(b) == b.data[r..w];
    assert Contents(b.(curRead := r + k)) == b.data[r + k..w];
    assert b.data[r + k..w] == b.data[r..w][k..];
  }

  lemma AdvanceInTail<T>(b: CircBuf<T>, k: nat)
    requires Valid(b) && b.curRead > b.curWrite && b.curRead + k < |b.data|
    ensures Contents(b.(curRead := b.curRead + k)) == Contents(b)[k..]
  {
    var w, r := b.curWrite, b.curRead;
    assert Contents(b) == b.data[r..] + b.data[..w];
    assert Contents(b.(curRead := r + k)) == b.data[r + k..] + b.data[..w];
    DropConcat(b.data[r..], b.data[..w], k);
    assert b.data[r..][k..] == b.data[r + k..];
  }

  lemma AdvancePastEnd<T>(b: CircBuf<T>, k: nat)
    requires Valid(b) && b.curWrite < |b.data|
    requires k <= |Contents(b)| && b.curRead + k >= |b.data|
    ensures Valid(b.(curRead := b.curRead + k - |b.data|))
    ensures Contents(b.(curRead := b.curRead + k - |b.data|)) == Contents(b)[k..]
  {
    var n, w, r := |b.data|, b.curWrite, b.curRead;
    assert r > w;
    assert Contents(b) == b.data[r..] + b.data[..w];
    assert Contents(b.(curRead := r + k - n)) == b.data[r + k - n..w];
    DropConcat(b.data[r..], b.data[..w], k);
    assert b.data[..w][r + k - n..] == b.data[r + k - n..w];
  }

  /** One step of a producer/consumer history: a write of some elements or a
      read of up to some count. */
  datatype Op<T> = Put(src: seq<T>) | Take(count: nat)

  /** The buffer after some operations, the elements the accepted writes
      put in, and the elements the reads handed out. */
  datatype Trace<T> = Trace(buf: CircBuf<T>, accepted: seq<T>, delivered: seq<T>)

  /** One operation: a write contributes its elements when it is accepted,
      a read contributes what it copies out. */
  function Step<T>(b: CircBuf<T>, op: Op<T>): (s: Trace<T>)
    requires Valid(b)
    ensures Valid(s.buf) && |s.buf.data| == |b.data|
    ensures Contents(b) + s.accepted == s.delivered + Contents(s.buf)
  {
    match op
    case Put(src) =>
      var w := Write(b, src);
      PutKeepsOrder(b, src);
      Trace(w.buf, if w.ok then src else [], [])
    case Take(count) =>
      var rd := Read(b, count);
      TakeKeepsOrder(b, count);
      Trace(rd.buf, [], rd.out)
  }

  lemma PutKeepsOrder<T>(b: CircBuf<T>, src: seq<T>)
    requires Valid(b)
    ensures Contents(b) + (if Write(b, src).ok then src else []) == [] + Contents(Write(b, src).buf)
  {
    var w := Write(b, src);
    if !w.ok {
      assert Contents(b) + [] == Contents(b);
    }
  }

  lemma TakeKeepsOrder<T>(b: CircBuf<T>, count: nat)
    requires Valid(b)
    ensures Contents(b) + [] == Read(b, count).out + Contents(Read(b, count).buf)
  {
    assert Contents(b) + [] == Contents(b);
  }

  function Run<T>(b: CircBuf<T>, ops: seq<Op<T>>): (t: Trace<T>)
    requires Valid(b)
    ensures Valid(t.buf) && |t.buf.data| == |b.data|
    decreases |ops|
  {
    if |ops| == 0 then Trace(b, [], [])
    else
      var s := Step(b, ops[0]);
      var t := Run(s.buf, ops[1..]);
      Trace(t.buf, s.accepted + t.accepted, s.delivered + t.delivered)
  }

  /** FIFO: over any history, what was queued plus what was accepted equals
      what was handed out plus what is still queued, in that order, however
      often the cursors wrapped. */
  lemma {:induction false} RunIsFifo<T>(b: CircBuf<T>, ops: seq<Op<T>>)
    requires Valid(b)
    ensures Contents(b) + Run(b, ops).accepted == Run(b, ops).delivered + Contents(Run(b, ops).buf)
    decreases |ops|
  {
    if |ops| > 0 {
      var s := Step(b, ops[0]);
      var t := Run(s.buf, ops[1..]);
      RunIsFifo(s.buf, ops[1..]);
      var x, y, f := Contents(b), Contents(s.buf), Contents(t.buf);
      ConcatAssoc(x, s.accepted, t.accepted);
      ConcatAssoc(s.delivered, y, t.accepted);
      ConcatAssoc(s.delivered, t.delivered, f);
    }
  }

  /** Starting from a fresh buffer, reads hand out a prefix of what the
      accepted writes put in, in the same order. */
  lemma RunFromInitDeliversPrefix<T>(numElements: nat, blank: T, ops: seq<Op<T>>)
    ensures Run(Init(numElements, blank), ops).accepted
         == Run(Init(numElements, blank), ops).delivered + Contents(Run(Init(numElements, blank), ops).buf)
    ensures Run(Init(numElements, blank), ops).delivered <= Run(Init(numElements, blank), ops).accepted
  {
    var b := Init(numElements, blank);
    var t := Run(b, ops);
    RunIsFifo(b, ops);
    assert Contents(b) + t.accepted == t.accepted;
  }

  /** Round trip: writing `src` into an empty buffer and reading as many
      elements back returns `src` and leaves the buffer empty. */
  lemma WriteThenReadRoundTrip<T>(b: CircBuf<T>, src: seq<T>)
    requires Valid(b) && Contents(b) == []
    requires |src| < |b.data|
    ensures Write(b, src).ok
    ensures Read(Write(b, src).buf, |src|).out == src
    ensures Contents(Read(Write(b, src).buf, |src|).buf) == []
  {
    var w := Write(b, src);
    var rd := Read(w.buf, |src|);
    assert rd.out + Contents(rd.buf) == src;
  }
}
