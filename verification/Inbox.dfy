/** The receiving side of a framed ring (`receive` of both RDMA ring buffers), one byte access per step.

    Bytes land in the ring while the receiver polls: `landed` holds the stream positions that the network
    card has placed so far.  The bytes of a word may be observed in any order and at any moment, which covers
    the byte-wise copies of `RDMAMessageBuffer` as well as (possibly torn) 8-byte loads. */
module Inbox {
  import opened Frames
  import opened Rings

  datatype Phase =
    | PollingSize(seen: map<nat, byte>)
    | PollingTrailer(word: seq<byte>, size: nat, seen: map<nat, byte>)
    | CopyingOut(size: nat, out: seq<byte>)
    | Clearing(out: seq<byte>, cleared: nat)

  datatype Receiver = Receiver(ring: seq<byte>, readPos: nat, landed: set<nat>, phase: Phase, received: seq<Message>)

  datatype Step =
    | ReadSizeByte(k: nat)
    | SizeRead
    | ReadTrailerByte(k: nat)
    | TrailerRead
    | Refuse(maxSize: nat)
    | CopyOutByte
    | StartClearing
    | ClearByte
    | Publish

  const Restart: Phase := PollingSize(map[])

  predicate Complete(seen: map<nat, byte>) {
    forall k: nat :: k < 8 ==> k in seen
  }

  function Word(seen: map<nat, byte>): (w: seq<byte>)
    requires Complete(seen)
    ensures |w| == 8
  {
    [seen[0], seen[1], seen[2], seen[3], seen[4], seen[5], seen[6], seen[7]]
  }

  predicate Enabled(r: Receiver, step: Step) {
    match step
    case ReadSizeByte(k) => r.phase.PollingSize? && k < 8 && k !in r.phase.seen
    case SizeRead => r.phase.PollingSize? && Complete(r.phase.seen)
    case ReadTrailerByte(k) => r.phase.PollingTrailer? && k < 8 && k !in r.phase.seen
    case TrailerRead => r.phase.PollingTrailer? && Complete(r.phase.seen)
    case Refuse(maxSize) => r.phase.CopyingOut? && r.phase.out == [] && r.phase.size > maxSize
    case CopyOutByte => r.phase.CopyingOut? && |r.phase.out| < r.phase.size
    case StartClearing => r.phase.CopyingOut? && |r.phase.out| == r.phase.size
    case ClearByte => r.phase.Clearing? && r.phase.cleared < FrameSize(r.phase.out)
    case Publish => r.phase.Clearing? && r.phase.cleared == FrameSize(r.phase.out)
  }

  function Do(r: Receiver, step: Step): Receiver
    requires |r.ring| > 0
    requires Enabled(r, step)
  {
    match step
    case ReadSizeByte(k) =>
      r.(phase := PollingSize(r.phase.seen[k := At(r.ring, r.readPos + k)]))
    case SizeRead =>
      r.(phase := PollingTrailer(Word(r.phase.seen), Value(Word(r.phase.seen)), map[]))
    case ReadTrailerByte(k) =>
      var b := At(r.ring, r.readPos + 8 + r.phase.size + k);
      r.(phase := PollingTrailer(r.phase.word, r.phase.size, r.phase.seen[k := b]))
    case TrailerRead =>
      r.(phase := if Word(r.phase.seen) == VALIDITY then CopyingOut(r.phase.size, []) else Restart)
    case Refuse(_) =>
      r.(phase := Restart)
    case CopyOutByte =>
      var b := At(r.ring, r.readPos + 8 + |r.phase.out|);
      r.(phase := CopyingOut(r.phase.size, r.phase.out + [b]))
    case StartClearing =>
      r.(phase := Clearing(r.phase.out, 0))
    case ClearByte =>
      r.(ring := Put(r.ring, r.readPos + r.phase.cleared, 0),
         phase := Clearing(r.phase.out, r.phase.cleared + 1))
    case Publish =>
      r.(readPos := r.readPos + FrameSize(r.phase.out),
         received := r.received + [r.phase.out],
         phase := Restart)
  }

  /** The network card places byte b at stream position p. */
  function Land(r: Receiver, p: nat, b: byte): Receiver
    requires |r.ring| > 0
  {
    r.(ring := Put(r.ring, p, b), landed := r.landed + {p})
  }

  // ----- what the sender and the network card have to guarantee -----

  ghost predicate AllLanded(landed: set<nat>, lo: nat, hi: nat) {
    forall p: nat :: lo <= p < hi ==> p in landed
  }

  /** The payload of message i has landed once its trailer and, unless it is empty, any nonzero byte of
      its size word have. */
  ghost predicate PayloadFirst(sent: seq<Message>, landed: set<nat>, i: nat)
    requires i < |sent|
  {
    var o, m := Offset(sent, i), sent[i];
    AllLanded(landed, o + 8 + |m|, o + FrameSize(m)) &&
    (|m| == 0 || exists k :: 0 <= k < 8 && SizeWord(m)[k] != 0 && o + k in landed) ==>
      AllLanded(landed, o + 8, o + 8 + |m|)
  }

  /** Nothing from position o on has landed before everything ahead of o. */
  ghost predicate LandedBefore(landed: set<nat>, o: nat) {
    forall p: nat, q :: p < o <= q && q in landed ==> p in landed
  }

  ghost predicate Discipline(sent: seq<Message>, landed: set<nat>) {
    && (forall i :: 0 <= i < |sent| ==> PayloadFirst(sent, landed, i))
    && (forall i :: 0 <= i <= |sent| ==> LandedBefore(landed, Offset(sent, i)))
  }

  // ----- the receiver's invariant -----

  function Cleared(r: Receiver): nat {
    if r.phase.Clearing? then r.phase.cleared else 0
  }

  /** What position q of the current window must hold: the byte that landed there, or zero.
      Positions below `from` have been cleared again. */
  ghost function Held(wire: seq<byte>, landed: set<nat>, from: nat, q: nat): byte {
    if q in landed && q < |wire| && from <= q then wire[q] else 0
  }

  ghost predicate Content(wire: seq<byte>, ring: seq<byte>, landed: set<nat>, readPos: nat, from: nat) {
    |ring| > 0 &&
    forall q: nat :: readPos <= q < readPos + |ring| ==> At(ring, q) == Held(wire, landed, from, q)
  }

  ghost predicate LandedBelow(landed: set<nat>, limit: nat) {
    forall p :: p in landed ==> p < limit
  }

  /** A byte observed for position p is zero or the byte that had landed there. */
  ghost predicate Observed(wire: seq<byte>, landed: set<nat>, p: nat, b: byte) {
    b == 0 || (p in landed && p < |wire| && b == wire[p])
  }

  ghost predicate SeenOk(wire: seq<byte>, landed: set<nat>, base: nat, seen: map<nat, byte>) {
    forall k :: k in seen ==> k < 8 && Observed(wire, landed, base + k, seen[k])
  }

  ghost predicate WordOk(wire: seq<byte>, landed: set<nat>, base: nat, word: seq<byte>) {
    |word| == 8 && forall k :: 0 <= k < 8 ==> Observed(wire, landed, base + k, word[k])
  }

  /** Every byte of wire[lo..hi] has landed, or is a zero whose landing changes nothing. */
  ghost predicate Settled(wire: seq<byte>, landed: set<nat>, lo: nat, hi: nat) {
    hi <= |wire| && forall p: nat :: lo <= p < hi && p !in landed ==> wire[p] == 0
  }

  /** Message i is settled, and its payload and trailer have landed. */
  ghost predicate Accepted(sent: seq<Message>, landed: set<nat>, i: nat) {
    && i < |sent|
    && Settled(Wire(sent), landed, Offset(sent, i), Offset(sent, i) + FrameSize(sent[i]))
    && AllLanded(landed, Offset(sent, i) + 8, Offset(sent, i) + FrameSize(sent[i]))
  }

  ghost predicate PhaseOk(sent: seq<Message>, r: Receiver) {
    match r.phase
    case PollingSize(seen) =>
      SeenOk(Wire(sent), r.landed, r.readPos, seen)
    case PollingTrailer(word, size, seen) =>
      && WordOk(Wire(sent), r.landed, r.readPos, word)
      && size == Value(word)
      && SeenOk(Wire(sent), r.landed, r.readPos + 8 + size, seen)
    case CopyingOut(size, out) =>
      Accepted(sent, r.landed, |r.received|) && size == |sent[|r.received|]| && out <= sent[|r.received|]
    case Clearing(out, cleared) =>
      Accepted(sent, r.landed, |r.received|) && out == sent[|r.received|] && cleared <= FrameSize(out)
  }

  ghost predicate MessagesFit(sent: seq<Message>, n: nat) {
    forall i :: 0 <= i < |sent| ==> Fits(sent[i], n)
  }

  ghost predicate AllUnambiguous(sent: seq<Message>) {
    forall i :: 0 <= i < |sent| ==> Unambiguous(sent[i])
  }

  ghost predicate Holding(sent: seq<Message>, ring: seq<byte>, readPos: nat, landed: set<nat>, received: seq<Message>,
                          cleared: nat) {
    && |ring| >= 16
    && MessagesFit(sent, |ring|)
    && received <= sent
    && readPos == Offset(sent, |received|)
    && Content(Wire(sent), ring, landed, readPos, readPos + cleared)
    && LandedBelow(landed, |Wire(sent)|)
    && LandedBelow(landed, readPos + |ring|)
    && Discipline(sent, landed)
    && Settled(Wire(sent), landed, 0, readPos)
  }

  /** The ring, apart from what the receiver is doing with it: `cleared` bytes at readPos are wiped. */
  ghost predicate Store(sent: seq<Message>, r: Receiver, cleared: nat) {
    Holding(sent, r.ring, r.readPos, r.landed, r.received, cleared)
  }

  ghost predicate Inv(sent: seq<Message>, r: Receiver) {
    Store(sent, r, Cleared(r)) && PhaseOk(sent, r)
  }

  // ----- preservation -----

  lemma {:induction false} ObservedWordIsTorn(wire: seq<byte>, landed: set<nat>, o: nat, word: seq<byte>)
    requires WordOk(wire, landed, o, word)
    requires o + 8 <= |wire|
    ensures Torn(word, wire[o..o + 8])
  {
    var s := wire[o..o + 8];
    forall k | 0 <= k < 8 ensures word[k] == 0 || word[k] == s[k] {
      assert Observed(wire, landed, o + k, word[k]);
    }
  }

  lemma {:induction false} SizeWordIsTorn(sent: seq<Message>, landed: set<nat>, i: nat, word: seq<byte>)
    requires i < |sent|
    requires |sent[i]| < SIZE_LIMIT
    requires WordOk(Wire(sent), landed, Offset(sent, i), word)
    ensures Torn(word, SizeWord(sent[i])) && Value(word) <= |sent[i]|
  {
    SizeWordAt(sent, i);
    ObservedWordIsTorn(Wire(sent), landed, Offset(sent, i), word);
    SizeWordValue(sent[i]);
    TornIsNoLarger(word, SizeWord(sent[i]));
  }

  /** Past the end of the stream only zeros are observed. */
  lemma {:induction false} NothingBeyondWire(wire: seq<byte>, landed: set<nat>, word: seq<byte>)
    requires WordOk(wire, landed, |wire|, word)
    ensures Value(word) == 0
  {
    forall k | 0 <= k < 8 ensures word[k] == 0 {
      assert Observed(wire, landed, |wire| + k, word[k]);
    }
    ZeroWord(word);
  }

  /** A word that was observed as the validity constant had landed completely. */
  lemma {:induction false} ObservedTrailer(wire: seq<byte>, landed: set<nat>, base: nat, seen: map<nat, byte>)
    requires SeenOk(wire, landed, base, seen)
    requires Complete(seen) && Word(seen) == VALIDITY
    ensures AllLanded(landed, base, base + 8)
    ensures TrailerAt(wire, base)
  {
    var w := Word(seen);
    forall k: nat | k < 8
      ensures base + k in landed && base + k < |wire| && wire[base + k] == VALIDITY[k]
    {
      assert w[k] == VALIDITY[k];
      assert seen[k] == w[k];
      assert Observed(wire, landed, base + k, seen[k]);
    }
    forall p: nat | base <= p < base + 8 ensures p in landed {
      assert base + (p - base) in landed;
    }
    assert base + 7 < |wire|;
    assert wire[base..base + 8] == VALIDITY;
  }

  /** A valid trailer at a torn offset of message i is its real trailer. */
  lemma {:induction false} MatchInWire(sent: seq<Message>, i: nat, word: seq<byte>)
    requires i < |sent|
    requires |sent[i]| < SIZE_LIMIT && Unambiguous(sent[i])
    requires Torn(word, SizeWord(sent[i])) && Value(word) <= |sent[i]|
    requires TrailerAt(Wire(sent), Offset(sent, i) + 8 + Value(word))
    ensures Value(word) == |sent[i]| && word == SizeWord(sent[i])
  {
    BodyMatch(sent, i, Value(word));
    TrailerMatchIsExact(sent[i], word);
  }

  lemma {:induction false} ObservedNonzero(wire: seq<byte>, landed: set<nat>, o: nat, word: seq<byte>)
    requires WordOk(wire, landed, o, word)
    ensures Value(word) != 0 ==> exists k :: 0 <= k < 8 && word[k] != 0 && o + k in landed
  {
    ZeroWord(word);
    if Value(word) != 0 {
      var z :| 0 <= z < |word| && word[z] != 0;
      assert Observed(wire, landed, o + z, word[z]);
    }
  }

  /** Once size word and trailer were both observed for real, the payload is there as well. */
  lemma {:induction false} ObservedPayload(sent: seq<Message>, landed: set<nat>, i: nat)
    requires i < |sent|
    requires |sent[i]| < SIZE_LIMIT && PayloadFirst(sent, landed, i)
    requires WordOk(Wire(sent), landed, Offset(sent, i), SizeWord(sent[i]))
    requires AllLanded(landed, Offset(sent, i) + 8 + |sent[i]|, Offset(sent, i) + FrameSize(sent[i]))
    ensures AllLanded(landed, Offset(sent, i) + 8, Offset(sent, i) + FrameSize(sent[i]))
  {
    SizeWordValue(sent[i]);
    ObservedNonzero(Wire(sent), landed, Offset(sent, i), SizeWord(sent[i]));
    assert AllLanded(landed, Offset(sent, i) + 8, Offset(sent, i) + 8 + |sent[i]|);
  }

  lemma {:induction false} ObservedWordSettles(wire: seq<byte>, landed: set<nat>, o: nat)
    requires o + 8 <= |wire|
    requires WordOk(wire, landed, o, wire[o..o + 8])
    ensures Settled(wire, landed, o, o + 8)
  {
    forall p: nat | o <= p < o + 8 && p !in landed ensures wire[p] == 0 {
      assert Observed(wire, landed, o + (p - o), wire[o..o + 8][p - o]);
    }
  }

  lemma {:induction false} ObservedFrameSettles(sent: seq<Message>, landed: set<nat>, i: nat)
    requires i < |sent|
    requires WordOk(Wire(sent), landed, Offset(sent, i), SizeWord(sent[i]))
    requires AllLanded(landed, Offset(sent, i) + 8, Offset(sent, i) + FrameSize(sent[i]))
    ensures Settled(Wire(sent), landed, Offset(sent, i), Offset(sent, i) + FrameSize(sent[i]))
  {
    FrameAt(sent, i);
    SizeWordAt(sent, i);
    ObservedWordSettles(Wire(sent), landed, Offset(sent, i));
  }

  /** The heart of torn-read safety: a trailer that reads as valid means that the whole frame is there. */
  lemma {:induction false} AcceptIsSound(sent: seq<Message>, landed: set<nat>, i: nat, word: seq<byte>, seen: map<nat, byte>)
    requires i < |sent|
    requires |sent[i]| < SIZE_LIMIT && Unambiguous(sent[i]) && PayloadFirst(sent, landed, i)
    requires WordOk(Wire(sent), landed, Offset(sent, i), word)
    requires SeenOk(Wire(sent), landed, Offset(sent, i) + 8 + Value(word), seen)
    requires Complete(seen) && Word(seen) == VALIDITY
    ensures Value(word) == |sent[i]| && Accepted(sent, landed, i)
  {
    ObservedTrailer(Wire(sent), landed, Offset(sent, i) + 8 + Value(word), seen);
    SizeWordIsTorn(sent, landed, i, word);
    MatchInWire(sent, i, word);
    ObservedPayload(sent, landed, i);
    ObservedFrameSettles(sent, landed, i);
  }

  // ----- every receiver step keeps the invariant -----

  /** Polling never looks past the current window. */
  lemma {:induction false} PollsInsideWindow(sent: seq<Message>, r: Receiver, word: seq<byte>)
    requires Store(sent, r, 0)
    requires WordOk(Wire(sent), r.landed, r.readPos, word)
    ensures 16 + Value(word) <= |r.ring|
  {
    var i := |r.received|;
    if i < |sent| {
      assert Fits(sent[i], |r.ring|);
      SizeWordIsTorn(sent, r.landed, i, word);
    } else {
      assert sent[..i] == sent;
      NothingBeyondWire(Wire(sent), r.landed, word);
    }
  }

  lemma {:induction false} SeenExtends(wire: seq<byte>, landed: set<nat>, base: nat, seen: map<nat, byte>, k: nat, b: byte)
    requires SeenOk(wire, landed, base, seen)
    requires k < 8 && Observed(wire, landed, base + k, b)
    ensures SeenOk(wire, landed, base, seen[k := b])
  {
  }

  lemma {:induction false} WindowObserved(wire: seq<byte>, ring: seq<byte>, landed: set<nat>, readPos: nat, from: nat, p: nat)
    requires Content(wire, ring, landed, readPos, from)
    requires readPos <= p < readPos + |ring|
    ensures Observed(wire, landed, p, At(ring, p))
  {
  }

  lemma {:induction false} ReadSizeByteKeeps(sent: seq<Message>, r: Receiver, k: nat)
    requires Inv(sent, r) && Enabled(r, ReadSizeByte(k))
    ensures Inv(sent, Do(r, ReadSizeByte(k)))
  {
    WindowObserved(Wire(sent), r.ring, r.landed, r.readPos, r.readPos, r.readPos + k);
    SeenExtends(Wire(sent), r.landed, r.readPos, r.phase.seen, k, At(r.ring, r.readPos + k));
  }

  lemma {:induction false} SeenWord(wire: seq<byte>, landed: set<nat>, base: nat, seen: map<nat, byte>)
    requires SeenOk(wire, landed, base, seen) && Complete(seen)
    ensures WordOk(wire, landed, base, Word(seen))
  {
    var word := Word(seen);
    forall k | 0 <= k < 8 ensures Observed(wire, landed, base + k, word[k]) {
      assert k in seen && seen[k] == word[k];
    }
  }

  lemma {:induction false} SizeReadKeeps(sent: seq<Message>, r: Receiver)
    requires Inv(sent, r) && Enabled(r, SizeRead)
    ensures Inv(sent, Do(r, SizeRead))
  {
    SeenWord(Wire(sent), r.landed, r.readPos, r.phase.seen);
  }

  lemma {:induction false} ReadTrailerByteKeeps(sent: seq<Message>, r: Receiver, k: nat)
    requires Inv(sent, r) && Enabled(r, ReadTrailerByte(k))
    ensures Inv(sent, Do(r, ReadTrailerByte(k)))
  {
    TrailerByteObserved(sent, r, k);
    TrailerByteKeepsPhase(sent, r, k, At(r.ring, r.readPos + 8 + r.phase.size + k));
  }

  lemma {:induction false} TrailerByteKeepsPhase(sent: seq<Message>, r: Receiver, k: nat, b: byte)
    requires PhaseOk(sent, r) && r.phase.PollingTrailer? && k < 8
    requires Observed(Wire(sent), r.landed, r.readPos + 8 + r.phase.size + k, b)
    ensures PhaseOk(sent, r.(phase := PollingTrailer(r.phase.word, r.phase.size, r.phase.seen[k := b])))
  {
    SeenExtends(Wire(sent), r.landed, r.readPos + 8 + r.phase.size, r.phase.seen, k, b);
  }

  lemma {:induction false} TrailerByteObserved(sent: seq<Message>, r: Receiver, k: nat)
    requires Store(sent, r, 0) && k < 8
    requires r.phase.PollingTrailer? && r.phase.size == Value(r.phase.word)
    requires WordOk(Wire(sent), r.landed, r.readPos, r.phase.word)
    ensures var p := r.readPos + 8 + r.phase.size + k; Observed(Wire(sent), r.landed, p, At(r.ring, p))
  {
    PollsInsideWindow(sent, r, r.phase.word);
    WindowObserved(Wire(sent), r.ring, r.landed, r.readPos, r.readPos, r.readPos + 8 + r.phase.size + k);
  }

  lemma {:induction false} FirstTrailerByteLanded(wire: seq<byte>, landed: set<nat>, base: nat, seen: map<nat, byte>)
    requires SeenOk(wire, landed, base, seen)
    requires Complete(seen) && Word(seen) == VALIDITY
    ensures base < |wire|
  {
    assert Word(seen)[0] == VALIDITY[0];
    assert Observed(wire, landed, base + 0, seen[0]);
  }

  /** Nothing is accepted while every sent message has already been received. */
  lemma {:induction false} SomethingToAccept(sent: seq<Message>, landed: set<nat>, i: nat, size: nat, seen: map<nat, byte>)
    requires i <= |sent|
    requires SeenOk(Wire(sent), landed, Offset(sent, i) + 8 + size, seen)
    requires Complete(seen) && Word(seen) == VALIDITY
    ensures i < |sent|
  {
    FirstTrailerByteLanded(Wire(sent), landed, Offset(sent, i) + 8 + size, seen);
    BeforeTheEnd(sent, i);
  }

  lemma {:induction false} MatchAccepts(sent: seq<Message>, n: nat, landed: set<nat>, i: nat, word: seq<byte>, size: nat, seen: map<nat, byte>)
    requires i <= |sent|
    requires MessagesFit(sent, n) && AllUnambiguous(sent) && Discipline(sent, landed)
    requires WordOk(Wire(sent), landed, Offset(sent, i), word) && size == Value(word)
    requires SeenOk(Wire(sent), landed, Offset(sent, i) + 8 + size, seen)
    requires Complete(seen) && Word(seen) == VALIDITY
    ensures Accepted(sent, landed, i) && size == |sent[i]|
  {
    SomethingToAccept(sent, landed, i, size, seen);
    assert Fits(sent[i], n) && Unambiguous(sent[i]) && PayloadFirst(sent, landed, i);
    AcceptIsSound(sent, landed, i, word, seen);
  }

  lemma {:induction false} TrailerReadKeeps(sent: seq<Message>, r: Receiver)
    requires AllUnambiguous(sent)
    requires Inv(sent, r) && Enabled(r, TrailerRead)
    ensures Inv(sent, Do(r, TrailerRead))
  {
    if Word(r.phase.seen) == VALIDITY {
      MatchAccepts(sent, |r.ring|, r.landed, |r.received|, r.phase.word, r.phase.size, r.phase.seen);
    }
  }

  /** The byte copied out is the next payload byte. */
  lemma {:induction false} CopyOutByteKeeps(sent: seq<Message>, r: Receiver)
    requires Inv(sent, r) && Enabled(r, CopyOutByte)
    ensures Inv(sent, Do(r, CopyOutByte))
  {
    var i, j := |r.received|, |r.phase.out|;
    var m, o := sent[i], Offset(sent, i);
    assert Fits(m, |r.ring|);
    PayloadAt(sent, i);
    assert o + 8 + j in r.landed;
    assert Wire(sent)[o + 8..o + 8 + |m|][j] == m[j];
    assert At(r.ring, o + 8 + j) == m[j];
  }

  lemma {:induction false} ClearByteKeeps(sent: seq<Message>, r: Receiver)
    requires Inv(sent, r) && Enabled(r, ClearByte)
    ensures Inv(sent, Do(r, ClearByte))
  {
    assert Fits(sent[|r.received|], |r.ring|);
    ClearedContent(Wire(sent), r.ring, r.landed, r.readPos, r.phase.cleared);
  }

  lemma {:induction false} ClearedContent(wire: seq<byte>, ring: seq<byte>, landed: set<nat>, readPos: nat, cleared: nat)
    requires Content(wire, ring, landed, readPos, readPos + cleared)
    requires cleared < |ring|
    ensures Content(wire, Put(ring, readPos + cleared, 0), landed, readPos, readPos + cleared + 1)
  {
    PutFrame(ring, readPos, readPos + cleared, 0);
  }

  lemma {:induction false} PublishKeeps(sent: seq<Message>, r: Receiver)
    requires Inv(sent, r) && Enabled(r, Publish)
    ensures Inv(sent, Do(r, Publish))
  {
    var i := |r.received|;
    FrameAt(sent, i);
    assert Fits(sent[i], |r.ring|);
    assert r.received + [r.phase.out] == sent[..i + 1];
    SlidContent(Wire(sent), r.ring, r.landed, r.readPos, FrameSize(sent[i]));
  }

  /** Advancing the read position over a cleared stretch uncovers only zeros. */
  lemma {:induction false} SlidContent(wire: seq<byte>, ring: seq<byte>, landed: set<nat>, readPos: nat, d: nat)
    requires Content(wire, ring, landed, readPos, readPos + d)
    requires d <= |ring|
    requires LandedBelow(landed, readPos + |ring|)
    ensures Content(wire, ring, landed, readPos + d, readPos + d)
  {
    var n := |ring|;
    forall q: nat | readPos + d <= q < readPos + d + n
      ensures At(ring, q) == Held(wire, landed, readPos + d, q)
    {
      if readPos + n <= q {
        OneRoundLater(ring, q - n);
        assert At(ring, q - n) == Held(wire, landed, readPos + d, q - n);
      }
    }
  }

  lemma {:induction false} StepKeeps(sent: seq<Message>, r: Receiver, step: Step)
    requires AllUnambiguous(sent)
    requires Inv(sent, r) && Enabled(r, step)
    ensures Inv(sent, Do(r, step))
  {
    match step
    case ReadSizeByte(k) => ReadSizeByteKeeps(sent, r, k);
    case SizeRead => SizeReadKeeps(sent, r);
    case ReadTrailerByte(k) => ReadTrailerByteKeeps(sent, r, k);
    case TrailerRead => TrailerReadKeeps(sent, r);
    case Refuse(_) =>
    case CopyOutByte => CopyOutByteKeeps(sent, r);
    case StartClearing =>
    case ClearByte => ClearByteKeeps(sent, r);
    case Publish => PublishKeeps(sent, r);
  }

  /** `receive(whereTo, maxSize)` throws exactly if the oldest undelivered message is longer than maxSize, and then nothing
      of it is consumed. */
  lemma {:induction false} RefusalIsExact(sent: seq<Message>, r: Receiver, maxSize: nat)
    requires Inv(sent, r) && r.phase.CopyingOut? && r.phase.out == []
    ensures |r.received| < |sent|
    ensures Enabled(r, Refuse(maxSize)) <==> |sent[|r.received|]| > maxSize
    ensures Enabled(r, Refuse(maxSize)) ==>
              var r' := Do(r, Refuse(maxSize));
              r'.ring == r.ring && r'.readPos == r.readPos && r'.received == r.received && r'.phase == Restart
  {
  }

  // ----- bytes landing and messages being sent meanwhile -----

  lemma {:induction false} LandKeeps(sent: seq<Message>, r: Receiver, p: nat)
    requires Inv(sent, r)
    requires p !in r.landed && p < |Wire(sent)| && p < r.readPos + |r.ring|
    requires Discipline(sent, r.landed + {p})
    ensures Inv(sent, Land(r, p, Wire(sent)[p]))
  {
    LandKeepsContent(sent, r, p);
    LandKeepsPhase(sent, r, p);
  }

  lemma {:induction false} LandKeepsContent(sent: seq<Message>, r: Receiver, p: nat)
    requires Inv(sent, r)
    requires p !in r.landed && p < |Wire(sent)| && p < r.readPos + |r.ring|
    ensures Content(Wire(sent), Put(r.ring, p, Wire(sent)[p]), r.landed + {p}, r.readPos, r.readPos + Cleared(r))
  {
    if r.readPos <= p {
      LandInWindow(Wire(sent), r.ring, r.landed, r.readPos, r.readPos + Cleared(r), p);
    } else {
      assert Wire(sent)[p] == 0;
      assert LandedBefore(r.landed, Offset(sent, |r.received|));
      LandLate(Wire(sent), r.ring, r.landed, r.readPos, r.readPos + Cleared(r), p);
    }
  }

  lemma {:induction false} ObservedGrows(wire: seq<byte>, landed: set<nat>, p: nat, base: nat)
    ensures forall seen :: SeenOk(wire, landed, base, seen) ==> SeenOk(wire, landed + {p}, base, seen)
    ensures forall word :: WordOk(wire, landed, base, word) ==> WordOk(wire, landed + {p}, base, word)
  {
  }

  lemma {:induction false} AcceptedGrows(sent: seq<Message>, landed: set<nat>, p: nat, i: nat)
    requires Accepted(sent, landed, i)
    ensures Accepted(sent, landed + {p}, i)
  {
  }

  lemma {:induction false} LandKeepsPhase(sent: seq<Message>, r: Receiver, p: nat)
    requires PhaseOk(sent, r) && p < |Wire(sent)| && |r.ring| > 0
    ensures PhaseOk(sent, Land(r, p, Wire(sent)[p]))
  {
    if r.phase.PollingSize? {
      ObservedGrows(Wire(sent), r.landed, p, r.readPos);
    } else if r.phase.PollingTrailer? {
      ObservedGrows(Wire(sent), r.landed, p, r.readPos);
      ObservedGrows(Wire(sent), r.landed, p, r.readPos + 8 + r.phase.size);
    } else {
      AcceptedGrows(sent, r.landed, p, |r.received|);
    }
  }

  lemma {:induction false} LandInWindow(wire: seq<byte>, ring: seq<byte>, landed: set<nat>, readPos: nat, from: nat, p: nat)
    requires Content(wire, ring, landed, readPos, from)
    requires readPos <= p < readPos + |ring| && p < |wire|
    requires p < from ==> wire[p] == 0
    ensures Content(wire, Put(ring, p, wire[p]), landed + {p}, readPos, from)
  {
    PutFrame(ring, readPos, p, wire[p]);
  }

  /** A zero that lands after its frame was consumed falls on a slot that is still zero. */
  lemma {:induction false} LandLate(wire: seq<byte>, ring: seq<byte>, landed: set<nat>, readPos: nat, from: nat, p: nat)
    requires Content(wire, ring, landed, readPos, from)
    requires p < readPos && p !in landed && LandedBefore(landed, readPos)
    ensures Content(wire, Put(ring, p, 0), landed + {p}, readPos, from)
  {
    forall q: nat | readPos <= q < readPos + |ring|
      ensures At(Put(ring, p, 0), q) == Held(wire, landed + {p}, from, q)
    {
      assert q !in landed;
      assert At(ring, q) == Held(wire, landed, from, q) == 0;
    }
  }

  lemma {:induction false} NothingLandedBeyond(sent: seq<Message>, m: Message, landed: set<nat>)
    requires Discipline(sent, landed) && LandedBelow(landed, |Wire(sent)|)
    ensures Discipline(sent + [m], landed)
  {
    var sent' := sent + [m];
    WireSnoc(sent, m);
    forall i | 0 <= i < |sent'| ensures PayloadFirst(sent', landed, i) {
      if i < |sent| {
        OffsetStable(sent, m, i);
        assert PayloadFirst(sent, landed, i);
      } else {
        assert |Wire(sent)| + 8 + |m| !in landed;
      }
    }
    forall i | 0 <= i <= |sent'| ensures LandedBefore(landed, Offset(sent', i)) {
      if i <= |sent| {
        OffsetStable(sent, m, i);
        assert LandedBefore(landed, Offset(sent, i));
      } else {
        EndOffset(sent');
      }
    }
  }

  lemma {:induction false} LongerWire(wire: seq<byte>, more: seq<byte>, r: Receiver)
    requires LandedBelow(r.landed, |wire|)
    ensures forall from :: Content(wire, r.ring, r.landed, r.readPos, from) ==>
                           Content(wire + more, r.ring, r.landed, r.readPos, from)
    ensures forall base, seen :: SeenOk(wire, r.landed, base, seen) ==> SeenOk(wire + more, r.landed, base, seen)
    ensures forall base, word :: WordOk(wire, r.landed, base, word) ==> WordOk(wire + more, r.landed, base, word)
    ensures forall lo, hi :: Settled(wire, r.landed, lo, hi) ==> Settled(wire + more, r.landed, lo, hi)
  {
  }

  lemma {:induction false} SendKeepsPhase(sent: seq<Message>, r: Receiver, m: Message)
    requires PhaseOk(sent, r) && LandedBelow(r.landed, |Wire(sent)|)
    ensures PhaseOk(sent + [m], r)
  {
    WireSnoc(sent, m);
    LongerWire(Wire(sent), Frame(m), r);
    if |r.received| < |sent| {
      OffsetStable(sent, m, |r.received|);
    }
  }

  /** Handing the next message to the sender does not disturb the receiver. */
  lemma {:induction false} SendKeeps(sent: seq<Message>, r: Receiver, m: Message)
    requires Inv(sent, r) && Fits(m, |r.ring|)
    ensures Inv(sent + [m], r)
  {
    WireSnoc(sent, m);
    LongerWire(Wire(sent), Frame(m), r);
    OffsetStable(sent, m, |r.received|);
    NothingLandedBeyond(sent, m, r.landed);
    SendKeepsPhase(sent, r, m);
    assert r.received <= sent + [m];
  }

  function Fresh(n: nat): Receiver {
    Receiver(Zeros(n), 0, {}, Restart, [])
  }

  lemma {:induction false} FreshInv(n: nat)
    requires n >= 16
    ensures Inv([], Fresh(n))
  {
  }
}
