/** From one message buffer to the other: what the posted segments carry over, what the receiving object then finds,
    and that its one-pass look at a ring of the protocol is exact. */
module Delivery {
  import opened Frames
  import opened Rings
  import opened Counters
  import opened Wraparound
  import opened MessageBuffers
  import Inbox
  import Channel

  // ----- the network card -----

  lemma {:induction false} SliceInside(ring: seq<byte>, p: nat, data: seq<byte>, at: nat, len: nat)
    requires |ring| > 0 && Slice(ring, p, |data|) == data && at + len <= |data|
    ensures Slice(ring, p + at, len) == data[at..at + len]
  {
    var got, want := Slice(ring, p + at, len), data[at..at + len];
    forall j: nat | j < len ensures got[j] == want[j] {
      assert Slice(ring, p, |data|)[at + j] == data[at + j];
    }
  }

  /** The card copies local[begin..end) to the same place of the remote ring. */
  function Carry(local: seq<byte>, remote: seq<byte>, seg: Segment): (r: seq<byte>)
    requires |local| == |remote| && seg.begin <= seg.end <= |local|
    ensures |r| == |remote|
  {
    remote[..seg.begin] + local[seg.begin..seg.end] + remote[seg.end..]
  }

  lemma {:induction false} CarriedSegment(buf: seq<byte>, remote: seq<byte>, seg: Segment, p: nat, data: seq<byte>)
    requires |buf| == |remote| && Places(seg, |buf|, p) && |data| <= |buf|
    requires seg.prev + (seg.end - seg.begin) <= |data|
    ensures Carry(PutAll(buf, p, data), remote, seg) == Overwrite(remote, seg, data)
  {
    var local := PutAll(buf, p, data);
    var len := seg.end - seg.begin;
    SegmentSlice(local, p, seg);
    ReadBack(buf, p, data);
    SliceInside(local, p, data, seg.prev, len);
  }

  /** What the posted segments of one frame leave in the remote ring. */
  function CarryAll(local: seq<byte>, remote: seq<byte>, len: nat, p: nat): (r: seq<byte>)
    requires |local| == |remote| && PassesSizeCheck(|local|) && len <= |local|
    ensures |r| == |remote|
  {
    SegmentsAreExact(|local|, len, p);
    var s := Segments(|local|, len, p);
    if |s| == 1 then Carry(local, remote, s[0]) else Carry(local, Carry(local, remote, s[0]), s[1])
  }

  /** The writes that `Send` posts place the frame at the same stream position of the remote ring. */
  lemma {:induction false} CarriedFrame(buf: seq<byte>, remote: seq<byte>, p: nat, data: seq<byte>)
    requires |buf| == |remote| && PassesSizeCheck(|buf|) && |data| <= |buf|
    ensures CarryAll(PutAll(buf, p, data), remote, |data|, p) == PutAll(remote, p, data)
  {
    SegmentsAreExact(|buf|, |data|, p);
    CopyInIsPutAll(remote, p, data);
    var s := Segments(|buf|, |data|, p);
    CarriedSegment(buf, remote, s[0], p, data);
    if |s| == 2 {
      CarriedSegment(buf, Overwrite(remote, s[0], data), s[1], p, data);
    }
  }

  // ----- the receiving object -----

  /** A frame that lies in the ring is found, with its size and payload. */
  lemma {:induction false} FrameIsFound(ring: seq<byte>, p: nat, m: Message)
    requires |ring| > 0 && |m| < SIZE_LIMIT && Slice(ring, p, FrameSize(m)) == Frame(m)
    ensures LooksComplete(ring, p) && SizeSeen(ring, p) == |m| && Slice(ring, p + 8, |m|) == m
  {
    FrameParts(m);
    SizeWordValue(m);
    SliceInside(ring, p, Frame(m), 0, 8);
    SliceInside(ring, p, Frame(m), 8, |m|);
    SliceInside(ring, p, Frame(m), 8 + |m|, 8);
    assert Frame(m)[8 + |m|..8 + |m| + 8] == VALIDITY;
  }

  ghost predicate Blank(ring: seq<byte>, p: nat, len: nat) {
    |ring| > 0 && Slice(ring, p, len) == Zeros(len)
  }

  /** Clearing what was received restores the ring as it was before the frame was carried over. */
  lemma {:induction false} ClearingRestores(ring: seq<byte>, p: nat, data: seq<byte>)
    requires |data| <= |ring| && Blank(ring, p, |data|)
    ensures PutAll(PutAll(ring, p, data), p, Zeros(|data|)) == ring
  {
    PutAllAt(ring, p, p, data);
    PutAllAt(PutAll(ring, p, data), p, p, Zeros(|data|));
    var r := PutAll(PutAll(ring, p, data), p, Zeros(|data|));
    forall q: nat | p <= q < p + |ring| ensures At(r, q) == At(ring, q) {
      if q < p + |data| {
        assert Slice(ring, p, |data|)[q - p] == 0;
      }
    }
    SameRing(r, ring, p);
  }

  /** The card carries out the posted writes. */
  method Card(a: MessageBuffer, b: MessageBuffer, posts: seq<Segment>, ghost len: nat, ghost p: nat)
    requires a.Valid() && b.Valid() && a.size == b.size && len <= a.size && a.sendBuffer != b.receiveBuffer
    requires posts == Segments(a.size, len, p)
    modifies b.receiveBuffer
    ensures b.receiveBuffer[..] == CarryAll(a.sendBuffer[..], old(b.receiveBuffer[..]), len, p)
  {
    SegmentsAreExact(a.size, len, p);
    CopyArray(b.receiveBuffer, posts[0].begin, a.sendBuffer[posts[0].begin..posts[0].end]);
    assert a.sendBuffer[posts[0].begin..posts[0].end] == a.sendBuffer[..][posts[0].begin..posts[0].end];
    if |posts| == 2 {
      CopyArray(b.receiveBuffer, posts[1].begin, a.sendBuffer[posts[1].begin..posts[1].end]);
      assert a.sendBuffer[posts[1].begin..posts[1].end] == a.sendBuffer[..][posts[1].begin..posts[1].end];
    }
  }

  // ----- two objects, sends and receives in any order -----

  /** Positions lo to hi of the stream lie in the ring, everything else in it is zero; the stream starts at `base`. */
  ghost predicate Carries(ring: seq<byte>, wire: seq<byte>, base: nat, lo: nat, hi: nat) {
    && |ring| > 0 && lo <= hi <= |wire| && hi <= lo + |ring|
    && forall p: nat :: base + lo <= p < base + lo + |ring| ==> At(ring, p) == if p < base + hi then wire[p - base] else 0
  }

  lemma {:induction false} SendKeepsCarrying(ring: seq<byte>, wire: seq<byte>, base: nat, lo: nat, hi: nat, f: seq<byte>)
    requires Carries(ring, wire, base, lo, hi) && hi + |f| <= |wire| && wire[hi..hi + |f|] == f && hi + |f| <= lo + |ring|
    ensures Carries(PutAll(ring, base + hi, f), wire, base, lo, hi + |f|)
  {
    PutAllAt(ring, base + lo, base + hi, f);
    var r := PutAll(ring, base + hi, f);
    forall p: nat | base + lo <= p < base + lo + |ring| ensures At(r, p) == if p < base + hi + |f| then wire[p - base] else 0 {
      if base + hi <= p < base + hi + |f| {
        assert wire[hi..hi + |f|][p - (base + hi)] == wire[p - base];
      }
    }
  }

  lemma {:induction false} FrameLies(ring: seq<byte>, wire: seq<byte>, base: nat, lo: nat, hi: nat, f: seq<byte>)
    requires Carries(ring, wire, base, lo, hi) && lo + |f| <= hi && wire[lo..lo + |f|] == f
    ensures Slice(ring, base + lo, |f|) == f
  {
    var got := Slice(ring, base + lo, |f|);
    forall k: nat | k < |f| ensures got[k] == f[k] {
      assert wire[lo..lo + |f|][k] == wire[lo + k];
      assert At(ring, base + lo + k) == wire[base + lo + k - base];
    }
  }

  lemma {:induction false} ReceiveKeepsCarrying(ring: seq<byte>, wire: seq<byte>, base: nat, lo: nat, mid: nat, hi: nat)
    requires Carries(ring, wire, base, lo, hi) && lo <= mid <= hi
    ensures Carries(PutAll(ring, base + lo, Zeros(mid - lo)), wire, base, mid, hi)
  {
    var n, r := |ring|, PutAll(ring, base + lo, Zeros(mid - lo));
    PutAllAt(ring, base + lo, base + lo, Zeros(mid - lo));
    forall p: nat | base + mid <= p < base + mid + n ensures At(r, p) == if p < base + hi then wire[p - base] else 0 {
      if base + lo + n <= p {
        OneRoundLater(r, p - n);
      }
    }
  }

  ghost predicate Ends(a: MessageBuffer, b: MessageBuffer)
    reads a, b
  {
    a.Valid() && b.Valid() && a != b && a.size == b.size && a.sendBuffer != b.receiveBuffer
  }

  /** One message is sent and carried over; `position` is what an RDMA READ of the read position returns. */
  method Transmit(a: MessageBuffer, b: MessageBuffer, m: Message, position: nat)
    requires Ends(a, b) && Fits(m, a.size) && a.remote <= position <= a.sent && FrameSize(m) <= Free(a.size, a.sent, position)
    modifies a, a.sendBuffer, b.receiveBuffer
    ensures Ends(a, b) && a.sent == old(a.sent) + FrameSize(m) && a.remote <= position
    ensures b.receiveBuffer[..] == PutAll(old(b.receiveBuffer[..]), old(a.sent), Frame(m))
  {
    ghost var p := a.sent;
    CarriedFrame(a.sendBuffer[..], b.receiveBuffer[..], p, Frame(m));
    var r := a.Send(m, [position]);
    Card(a, b, r.posts, FrameSize(m), p);
  }

  /** A message that lies in the ring is received. */
  method Take(b: MessageBuffer, ghost m: Message, maxSize: nat) returns (got: Message)
    requires b.Valid() && Fits(m, b.size) && |m| <= maxSize && Slice(b.receiveBuffer[..], b.consumed, FrameSize(m)) == Frame(m)
    modifies b`readPos, b`consumed, b.receiveBuffer
    ensures b.Valid() && got == m && b.consumed == old(b.consumed) + FrameSize(m)
    ensures b.receiveBuffer[..] == PutAll(old(b.receiveBuffer[..]), old(b.consumed), Zeros(FrameSize(m)))
  {
    FrameIsFound(b.receiveBuffer[..], b.consumed, m);
    var r := b.Receive(maxSize);
    got := r.data;
  }

  /** The stream was sent up to hi and received up to lo. */
  ghost predicate Connected(a: MessageBuffer, b: MessageBuffer, wire: seq<byte>, base: nat, lo: nat, hi: nat)
    reads a, b, b.receiveBuffer
  {
    && Ends(a, b) && a.sent == base + hi && b.consumed == base + lo && a.remote <= b.consumed
    && Carries(b.receiveBuffer[..], wire, base, lo, hi)
  }

  method SendNext(a: MessageBuffer, b: MessageBuffer, m: Message, position: nat, ghost wire: seq<byte>, ghost base: nat, ghost lo: nat, ghost hi: nat)
    requires Connected(a, b, wire, base, lo, hi) && Fits(m, a.size) && position == b.consumed
    requires FrameSize(m) <= Free(a.size, a.sent, position)
    requires hi + FrameSize(m) <= |wire| && wire[hi..hi + FrameSize(m)] == Frame(m)
    modifies a, a.sendBuffer, b.receiveBuffer
    ensures Connected(a, b, wire, base, lo, hi + FrameSize(m))
  {
    ghost var ring := b.receiveBuffer[..];
    assert Carries(PutAll(ring, base + hi, Frame(m)), wire, base, lo, hi + FrameSize(m)) by {
      SendKeepsCarrying(ring, wire, base, lo, hi, Frame(m));
    }
    Transmit(a, b, m, position);
    assert b.receiveBuffer[..] == PutAll(ring, base + hi, Frame(m));
  }

  method ReceiveNext(a: MessageBuffer, b: MessageBuffer, ghost m: Message, maxSize: nat, ghost wire: seq<byte>, ghost base: nat, ghost lo: nat, ghost hi: nat)
    returns (got: Message)
    requires Connected(a, b, wire, base, lo, hi) && Fits(m, a.size) && |m| <= maxSize
    requires lo + FrameSize(m) <= hi && wire[lo..lo + FrameSize(m)] == Frame(m)
    modifies b`readPos, b`consumed, b.receiveBuffer
    ensures Connected(a, b, wire, base, lo + FrameSize(m), hi) && got == m
  {
    FrameLies(b.receiveBuffer[..], wire, base, lo, hi, Frame(m));
    ReceiveKeepsCarrying(b.receiveBuffer[..], wire, base, lo, lo + FrameSize(m), hi);
    got := Take(b, m, maxSize);
  }

  /** i messages were sent, j of them received. */
  ghost predicate Underway(a: MessageBuffer, b: MessageBuffer, ms: seq<Message>, base: nat, i: nat, j: nat)
    reads a, b, b.receiveBuffer
  {
    j <= i <= |ms| && Connected(a, b, Wire(ms), base, Offset(ms, j), Offset(ms, i)) && Inbox.MessagesFit(ms, a.size)
  }

  method SendMessage(a: MessageBuffer, b: MessageBuffer, ms: seq<Message>, i: nat, position: nat, ghost base: nat, ghost j: nat)
    requires Underway(a, b, ms, base, i, j) && i < |ms| && position == b.consumed && FrameSize(ms[i]) <= Free(a.size, a.sent, position)
    modifies a, a.sendBuffer, b.receiveBuffer
    ensures Underway(a, b, ms, base, i + 1, j) && a.sent == old(a.sent) + FrameSize(ms[i])
  {
    FrameAt(ms, i);
    assert Fits(ms[i], a.size);
    SendNext(a, b, ms[i], position, Wire(ms), base, Offset(ms, j), Offset(ms, i));
  }

  method ReceiveMessage(a: MessageBuffer, b: MessageBuffer, ms: seq<Message>, j: nat, ghost base: nat, ghost i: nat) returns (m: Message)
    requires Underway(a, b, ms, base, i, j) && j < i
    modifies b`readPos, b`consumed, b.receiveBuffer
    ensures Underway(a, b, ms, base, i, j + 1) && b.consumed == old(b.consumed) + FrameSize(ms[j]) && m == ms[j]
  {
    FrameAt(ms, j);
    OffsetsGrow(ms, j + 1, i);
    assert Fits(ms[j], a.size);
    m := ReceiveNext(a, b, ms[j], |ms[j]|, Wire(ms), base, Offset(ms, j), Offset(ms, i));
  }

  lemma {:induction false} RoomWhenEmpty(a: MessageBuffer, b: MessageBuffer, ms: seq<Message>, base: nat, i: nat, j: nat)
    requires Underway(a, b, ms, base, i, j) && i == j < |ms|
    ensures FrameSize(ms[i]) <= Free(a.size, a.sent, b.consumed)
  {
    assert Fits(ms[i], a.size);
  }

  /** Any sequence of messages comes out as it went in, whatever order `sendFirst` prefers sends and receives in, across
      any number of rounds of the ring and of the 64-bit counters. */
  method TransferAll(a: MessageBuffer, b: MessageBuffer, ms: seq<Message>, sendFirst: seq<bool>, base: nat) returns (got: seq<Message>)
    requires Underway(a, b, ms, base, 0, 0)
    modifies a, a.sendBuffer, b, b.receiveBuffer
    ensures Underway(a, b, ms, base, |ms|, |ms|) && got == ms
  {
    got := [];
    var i, j, sent, consumed, step := 0, 0, base, base, 0;
    assert ms[..0] == [];
    while j < |ms|
      invariant Underway(a, b, ms, base, i, j) && sent == a.sent && consumed == b.consumed && got == ms[..j]
      decreases |ms| - i + (|ms| - j)
    {
      var prefersSend := step >= |sendFirst| || sendFirst[step];
      step := step + 1;
      if i == j {
        RoomWhenEmpty(a, b, ms, base, i, j);
      }
      if i < |ms| && FrameSize(ms[i]) <= Free(a.size, sent, consumed) && (prefersSend || i == j) {
        SendMessage(a, b, ms, i, consumed, base, j);
        i, sent := i + 1, sent + FrameSize(ms[i]);
      } else {
        var m := ReceiveMessage(a, b, ms, j, base, i);
        got := got + [m];
        j, consumed := j + 1, consumed + FrameSize(ms[j]);
      }
    }
  }

  // ----- the object against the protocol -----

  /** The counters of the object compute what the protocol model says about true positions, whatever overflowed. */
  lemma {:induction false} SpaceIsComputed(s: Channel.State)
    requires Channel.Inv(s) && |s.sendBuf| < SIZE_LIMIT
    ensures SafeToWrite(|s.sendBuf|, Stored(s.sendPos), Stored(s.cached)) == Channel.Space(s)
  {
    FreeSpaceIsTrue(|s.sendBuf|, s.sendPos, s.cached);
  }

  lemma {:induction false} RoundEnd(n: nat, lo: nat)
    requires n > 0
    ensures (lo + (n - lo % n)) % n == 0
  {
    assert (lo / n + 1) * n == lo / n * n + n;
    ModUnique(lo + (n - lo % n), lo / n + 1, 0, n);
  }

  /** The protocol's posts are the segments that `wraparound` computes. */
  lemma {:induction false} PostsAreSegments(n: nat, lo: nat, hi: nat)
    requires PassesSizeCheck(n) && lo < hi <= lo + n
    ensures var s := Segments(n, hi - lo, lo);
            var mid := Channel.SegmentEnd(n, lo, hi);
            && s[0] == Segment(0, lo % n, lo % n + (mid - lo))
            && (|s| == 1 <==> mid == hi)
            && (|s| == 2 ==> mid % n == 0 && Channel.SegmentEnd(n, mid, hi) == hi && s[1] == Segment(mid - lo, 0, hi - mid))
  {
    MaskIsMod(lo, n);
    RoundEnd(n, lo);
  }

  function AsSeen(w: seq<byte>): map<nat, byte>
    requires |w| == 8
  {
    map[0 := w[0], 1 := w[1], 2 := w[2], 3 := w[3], 4 := w[4], 5 := w[5], 6 := w[6], 7 := w[7]]
  }

  /** Eight bytes looked at inside the window are an observation in the sense of the protocol. */
  lemma {:induction false} LookIsObservation(wire: seq<byte>, ring: seq<byte>, landed: set<nat>, readPos: nat, p: nat)
    requires Inbox.Content(wire, ring, landed, readPos, readPos)
    requires readPos <= p && p + 8 <= readPos + |ring|
    ensures Inbox.WordOk(wire, landed, p, Slice(ring, p, 8))
  {
    var w := Slice(ring, p, 8);
    forall k | 0 <= k < 8 ensures Inbox.Observed(wire, landed, p + k, w[k]) {
      Inbox.WindowObserved(wire, ring, landed, readPos, readPos, p + k);
    }
  }

  lemma {:induction false} ObservationIsSeen(wire: seq<byte>, landed: set<nat>, p: nat, w: seq<byte>)
    requires Inbox.WordOk(wire, landed, p, w)
    ensures Inbox.SeenOk(wire, landed, p, AsSeen(w)) && Inbox.Complete(AsSeen(w)) && Inbox.Word(AsSeen(w)) == w
  {
    forall k | k in AsSeen(w) ensures k < 8 && Inbox.Observed(wire, landed, p + k, AsSeen(w)[k]) {
      assert AsSeen(w)[k] == w[k];
    }
  }

  lemma {:induction false} TwoObservations(wire: seq<byte>, ring: seq<byte>, landed: set<nat>, readPos: nat)
    requires Inbox.Content(wire, ring, landed, readPos, readPos)
    requires 16 + SizeSeen(ring, readPos) <= |ring| && LooksComplete(ring, readPos)
    ensures Inbox.WordOk(wire, landed, readPos, Slice(ring, readPos, 8))
    ensures Inbox.SeenOk(wire, landed, readPos + 8 + SizeSeen(ring, readPos), AsSeen(VALIDITY))
    ensures Inbox.Complete(AsSeen(VALIDITY)) && Inbox.Word(AsSeen(VALIDITY)) == VALIDITY
  {
    var trailer := readPos + 8 + SizeSeen(ring, readPos);
    LookIsObservation(wire, ring, landed, readPos, readPos);
    LookIsObservation(wire, ring, landed, readPos, trailer);
    ObservationIsSeen(wire, landed, trailer, VALIDITY);
  }

  lemma {:induction false} MatchingLook(sent: seq<Message>, ring: seq<byte>, landed: set<nat>, i: nat, readPos: nat)
    requires i <= |sent| && readPos == Offset(sent, i)
    requires Inbox.Content(Wire(sent), ring, landed, readPos, readPos)
    requires Inbox.MessagesFit(sent, |ring|) && Inbox.AllUnambiguous(sent) && Inbox.Discipline(sent, landed)
    requires 16 + SizeSeen(ring, readPos) <= |ring| && LooksComplete(ring, readPos)
    ensures Inbox.Accepted(sent, landed, i) && SizeSeen(ring, readPos) == |sent[i]|
  {
    TwoObservations(Wire(sent), ring, landed, readPos);
    var word, size := Slice(ring, readPos, 8), SizeSeen(ring, readPos);
    Inbox.MatchAccepts(sent, |ring|, landed, i, word, size, AsSeen(VALIDITY));
  }

  /** A look that finds a trailer has found the oldest undelivered message. */
  lemma {:induction false} LookIsSound(sent: seq<Message>, r: Inbox.Receiver)
    requires Inbox.Store(sent, r, 0) && Inbox.AllUnambiguous(sent)
    requires LooksComplete(r.ring, r.readPos)
    ensures Inbox.Accepted(sent, r.landed, |r.received|) && SizeSeen(r.ring, r.readPos) == |sent[|r.received|]|
  {
    LookIsObservation(Wire(sent), r.ring, r.landed, r.readPos, r.readPos);
    Inbox.PollsInsideWindow(sent, r, Slice(r.ring, r.readPos, 8));
    MatchingLook(sent, r.ring, r.landed, |r.received|, r.readPos);
  }

  /** An accepted frame lies in the ring byte for byte. */
  lemma {:induction false} AcceptedIsInRing(sent: seq<Message>, r: Inbox.Receiver)
    requires Inbox.Store(sent, r, 0) && Inbox.Accepted(sent, r.landed, |r.received|)
    ensures var m := sent[|r.received|];
            FrameSize(m) <= |r.ring| && |m| < SIZE_LIMIT && Slice(r.ring, r.readPos, FrameSize(m)) == Frame(m)
  {
    var i := |r.received|;
    var m, o := sent[i], r.readPos;
    assert Fits(m, |r.ring|);
    FrameAt(sent, i);
    var got := Slice(r.ring, o, FrameSize(m));
    forall j: nat | j < FrameSize(m) ensures got[j] == Frame(m)[j] {
      assert Wire(sent)[o..o + FrameSize(m)][j] == Wire(sent)[o + j];
      assert At(r.ring, o + j) == Inbox.Held(Wire(sent), r.landed, o, o + j);
    }
  }

  /** `hasData` is exact in every state of the protocol: it says yes precisely when the next frame is there in full,
      and then size and payload are those of the oldest undelivered message. */
  lemma {:induction false} HasDataIsExact(sent: seq<Message>, r: Inbox.Receiver)
    requires Inbox.Inv(sent, r) && !r.phase.Clearing? && Inbox.AllUnambiguous(sent)
    ensures LooksComplete(r.ring, r.readPos) <==> Inbox.Accepted(sent, r.landed, |r.received|)
    ensures LooksComplete(r.ring, r.readPos) ==>
              && |r.received| < |sent| && 16 + SizeSeen(r.ring, r.readPos) <= |r.ring|
              && Slice(r.ring, r.readPos + 8, SizeSeen(r.ring, r.readPos)) == sent[|r.received|]
  {
    if LooksComplete(r.ring, r.readPos) {
      LookIsSound(sent, r);
    }
    if Inbox.Accepted(sent, r.landed, |r.received|) {
      AcceptedIsInRing(sent, r);
      FrameIsFound(r.ring, r.readPos, sent[|r.received|]);
    }
  }
}
