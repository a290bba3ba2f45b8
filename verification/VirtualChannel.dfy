/** `VirtualRDMARingBuffer`: `send` (one write a frame) and `sendParanoid` (data write, then size write).

    Both fill the send buffer before they wait for space, so the card is taken to read a write's bytes when it
    is posted, as it does for inline sends.  Writes arrive in the order of posting; the bytes inside one write
    arrive front to back or, with `anyOrder`, in whatever order the card likes (RFC 5040, section 5.5). */
module VirtualChannel {
  import opened Frames
  import opened Rings
  import Inbox

  datatype Sender =
    | Idle
    | Filling(msg: Message, k: nat)
    | AwaitingSpace(msg: Message)
    | Posting(msg: Message, dataPosted: bool)

  datatype Write = Write(lo: nat, hi: nat, bytes: seq<byte>)

  datatype State = State(
    paranoid: bool,
    anyOrder: bool,
    sendBuf: seq<byte>,
    sendPos: nat,
    cached: nat,
    sender: Sender,
    writes: seq<Write>,
    retired: nat,
    receiver: Inbox.Receiver,
    sent: seq<Message>)

  datatype Step =
    | BeginSend(m: Message)
    | FillByte
    | EndFill
    | ReadRemotePosition
    | EndWait
    | Post
    | Land(p: nat)
    | Retire
    | Receive(step: Inbox.Step)

  /** The caller's payload comes first, then the size word, then the trailer. */
  function FillOffset(m: Message, k: nat): nat {
    if k < |m| then 8 + k else if k < |m| + 8 then k - |m| else k
  }

  function Space(s: State): int {
    |s.sendBuf| - (s.sendPos - s.cached)
  }

  function Snapshot(buf: seq<byte>, lo: nat, hi: nat): (w: Write)
    requires |buf| > 0 && lo <= hi
    ensures |w.bytes| == hi - lo
  {
    Write(lo, hi, seq<byte>(hi - lo, i requires 0 <= i => At(buf, lo + i)))
  }

  /** The whole frame, or with `sendParanoid` first its payload and trailer, then its size word. */
  function NextWrite(s: State): Write
    requires s.sender.Posting? && |s.sendBuf| > 0
  {
    var end := s.sendPos + FrameSize(s.sender.msg);
    if !s.paranoid then Snapshot(s.sendBuf, s.sendPos, end)
    else if !s.sender.dataPosted then Snapshot(s.sendBuf, s.sendPos + 8, end)
    else Snapshot(s.sendBuf, s.sendPos, s.sendPos + 8)
  }

  predicate Enabled(s: State, step: Step) {
    |s.sendBuf| == |s.receiver.ring| > 0 &&
    match step
    case BeginSend(m) => s.sender.Idle? && Fits(m, |s.sendBuf|)
    case FillByte => s.sender.Filling? && s.sender.k < FrameSize(s.sender.msg)
    case EndFill => s.sender.Filling? && s.sender.k == FrameSize(s.sender.msg)
    case ReadRemotePosition => s.sender.AwaitingSpace? && FrameSize(s.sender.msg) > Space(s)
    case EndWait => s.sender.AwaitingSpace? && FrameSize(s.sender.msg) <= Space(s)
    case Post => s.sender.Posting?
    case Land(p) =>
      && s.retired < |s.writes|
      && var w := s.writes[s.retired];
         && w.lo <= p < w.hi && |w.bytes| == w.hi - w.lo && p !in s.receiver.landed
         && (s.anyOrder || forall q | w.lo <= q < p :: q in s.receiver.landed)
    case Retire =>
      && s.retired < |s.writes|
      && forall p | s.writes[s.retired].lo <= p < s.writes[s.retired].hi :: p in s.receiver.landed
    case Receive(step) => Inbox.Enabled(s.receiver, step)
  }

  function Do(s: State, step: Step): State
    requires Enabled(s, step)
  {
    match step
    case BeginSend(m) => s.(sent := s.sent + [m], sender := Filling(m, 0))
    case FillByte =>
      var o := FillOffset(s.sender.msg, s.sender.k);
      s.(sendBuf := Put(s.sendBuf, s.sendPos + o, Frame(s.sender.msg)[o]), sender := Filling(s.sender.msg, s.sender.k + 1))
    case EndFill => s.(sender := AwaitingSpace(s.sender.msg))
    case ReadRemotePosition => s.(cached := s.receiver.readPos)
    case EndWait => s.(sender := Posting(s.sender.msg, false))
    case Post =>
      if s.paranoid && !s.sender.dataPosted then
        s.(writes := s.writes + [NextWrite(s)], sender := Posting(s.sender.msg, true))
      else
        s.(writes := s.writes + [NextWrite(s)], sender := Idle, sendPos := s.sendPos + FrameSize(s.sender.msg))
    case Land(p) =>
      var w := s.writes[s.retired];
      s.(receiver := Inbox.Land(s.receiver, p, w.bytes[p - w.lo]))
    case Retire => s.(retired := s.retired + 1)
    case Receive(step) => s.(receiver := Inbox.Do(s.receiver, step))
  }

  function Init(n: nat, paranoid: bool, anyOrder: bool): State {
    State(paranoid, anyOrder, Zeros(n), 0, 0, Idle, [], 0, Inbox.Fresh(n), [])
  }

  // ----- the writes that were posted and what has landed of them -----

  /** Number of frames that were posted completely. */
  function Posted(sent: seq<Message>, sender: Sender): nat {
    if sender.Idle? || sent == [] then |sent| else |sent| - 1
  }

  function WritesPosted(sent: seq<Message>, sender: Sender, paranoid: bool): nat {
    (if paranoid then 2 else 1) * Posted(sent, sender) + if sender.Posting? && sender.dataPosted then 1 else 0
  }

  function FrameOf(paranoid: bool, j: nat): nat {
    if paranoid then j / 2 else j
  }

  /** Position p belongs to one of the first j writes. */
  ghost predicate Covers(sent: seq<Message>, paranoid: bool, j: nat, p: nat) {
    var i := FrameOf(paranoid, j);
    && i <= |sent|
    && (p < Offset(sent, i) ||
        (paranoid && j % 2 == 1 && i < |sent| && Offset(sent, i) + 8 <= p < Offset(sent, i + 1)))
  }

  /** Write j lies where the stream has it and carries the stream's bytes. */
  ghost predicate InPlace(sent: seq<Message>, paranoid: bool, w: Write, j: nat) {
    var i := FrameOf(paranoid, j);
    && i < |sent|
    && w.lo == (if paranoid && j % 2 == 0 then Offset(sent, i) + 8 else Offset(sent, i))
    && w.hi == (if paranoid && j % 2 == 1 then Offset(sent, i) + 8 else Offset(sent, i + 1))
    && w.lo <= w.hi <= |Wire(sent)|
    && w.bytes == Wire(sent)[w.lo..w.hi]
  }

  ghost predicate WritesOk(sent: seq<Message>, paranoid: bool, writes: seq<Write>) {
    forall j :: 0 <= j < |writes| ==> InPlace(sent, paranoid, writes[j], j)
  }

  ghost predicate Bounded(sent: seq<Message>, paranoid: bool, landed: set<nat>, j: nat) {
    forall p :: p in landed ==> Covers(sent, paranoid, j, p)
  }

  ghost predicate Complete(sent: seq<Message>, paranoid: bool, landed: set<nat>, j: nat) {
    forall p: nat :: Covers(sent, paranoid, j, p) ==> p in landed
  }

  /** Inside the stretch [lo, hi) bytes have landed front to back. */
  ghost predicate InOrder(landed: set<nat>, lo: nat, hi: nat) {
    forall p, q: nat :: p in landed && lo <= q < p < hi ==> q in landed
  }

  /** Retired writes have landed; beyond them only bytes of the write that is arriving. */
  ghost predicate LandedOk(sent: seq<Message>, paranoid: bool, anyOrder: bool, writes: seq<Write>, retired: nat, landed: set<nat>) {
    && Complete(sent, paranoid, landed, retired)
    && Bounded(sent, paranoid, landed, if retired < |writes| then retired + 1 else retired)
    && (!anyOrder && retired < |writes| ==> InOrder(landed, writes[retired].lo, writes[retired].hi))
  }

  ghost predicate Filled(sendBuf: seq<byte>, start: nat, m: Message) {
    |sendBuf| > 0 && forall o: nat :: o < FrameSize(m) ==> At(sendBuf, start + o) == Frame(m)[o]
  }

  ghost predicate PartlyFilled(sendBuf: seq<byte>, start: nat, m: Message, k: nat) {
    && |sendBuf| > 0 && k <= FrameSize(m)
    && forall j: nat :: j < k ==> At(sendBuf, start + FillOffset(m, j)) == Frame(m)[FillOffset(m, j)]
  }

  ghost predicate SenderOk(sent: seq<Message>, sender: Sender, paranoid: bool, sendBuf: seq<byte>, sendPos: nat, cached: nat) {
    && sendPos == Offset(sent, Posted(sent, sender))
    && sendPos <= cached + |sendBuf|
    && match sender
       case Idle => true
       case Filling(m, k) => IsLast(sent, m) && PartlyFilled(sendBuf, sendPos, m, k)
       case AwaitingSpace(m) => IsLast(sent, m) && Filled(sendBuf, sendPos, m)
       case Posting(m, dataPosted) =>
         && IsLast(sent, m) && Filled(sendBuf, sendPos, m) && (dataPosted ==> paranoid)
         && sendPos + FrameSize(m) <= cached + |sendBuf|
  }

  ghost predicate CardOk(sent: seq<Message>, paranoid: bool, anyOrder: bool, writes: seq<Write>, retired: nat, landed: set<nat>) {
    && retired <= |writes|
    && WritesOk(sent, paranoid, writes)
    && LandedOk(sent, paranoid, anyOrder, writes, retired, landed)
  }

  ghost predicate Inv(s: State) {
    && |s.sendBuf| == |s.receiver.ring|
    && Inbox.Inv(s.sent, s.receiver)
    && s.cached <= s.receiver.readPos && s.cached <= s.sendPos
    && SenderOk(s.sent, s.sender, s.paranoid, s.sendBuf, s.sendPos, s.cached)
    && |s.writes| == WritesPosted(s.sent, s.sender, s.paranoid)
    && CardOk(s.sent, s.paranoid, s.anyOrder, s.writes, s.retired, s.receiver.landed)
  }

  /** Front-to-back arrival, or the two explicitly ordered writes of `sendParanoid`. */
  predicate OrderSuffices(s: State) {
    s.paranoid || !s.anyOrder
  }

  lemma {:induction false} InitInv(n: nat, paranoid: bool, anyOrder: bool)
    requires n >= 16
    ensures Inv(Init(n, paranoid, anyOrder))
  {
    Inbox.FreshInv(n);
  }

  // ----- the landing discipline -----

  lemma {:induction false} Beyond(sent: seq<Message>, landed: set<nat>, h: nat, i: nat)
    requires h < i < |sent|
    requires Inbox.LandedBelow(landed, Offset(sent, h + 1))
    ensures Inbox.PayloadFirst(sent, landed, i)
  {
    OffsetsGrow(sent, h + 1, i);
    var p := Offset(sent, i) + 8 + |sent[i]|;
    assert p !in landed;
  }

  lemma {:induction false} Behind(sent: seq<Message>, landed: set<nat>, h: nat, i: nat)
    requires i < h <= |sent|
    requires Inbox.AllLanded(landed, 0, Offset(sent, h))
    ensures Inbox.PayloadFirst(sent, landed, i)
  {
    OffsetsGrow(sent, i + 1, h);
    FrameAt(sent, i);
  }

  /** Frame h is arriving, everything before it is there, nothing after it. */
  lemma {:induction false} DisciplineAt(sent: seq<Message>, landed: set<nat>, h: nat)
    requires h <= |sent|
    requires Inbox.AllLanded(landed, 0, Offset(sent, h))
    requires h == |sent| ==> Inbox.LandedBelow(landed, Offset(sent, h))
    requires h < |sent| ==> Inbox.LandedBelow(landed, Offset(sent, h + 1)) && Inbox.PayloadFirst(sent, landed, h)
    ensures Inbox.Discipline(sent, landed)
  {
    forall i | 0 <= i < |sent| ensures Inbox.PayloadFirst(sent, landed, i) {
      if i < h { Behind(sent, landed, h, i); } else if i > h { Beyond(sent, landed, h, i); }
    }
    forall i | 0 <= i <= |sent| ensures Inbox.LandedBefore(landed, Offset(sent, i)) {
      if i <= h { OffsetsGrow(sent, i, h); } else { OffsetsGrow(sent, h + 1, i); }
    }
  }

  lemma {:induction false} HeadFrameOk(sent: seq<Message>, paranoid: bool, anyOrder: bool, landed: set<nat>, j: nat)
    requires paranoid || !anyOrder
    requires FrameOf(paranoid, j) < |sent|
    requires Complete(sent, paranoid, landed, j) && Bounded(sent, paranoid, landed, j + 1)
    requires !anyOrder && !paranoid ==> InOrder(landed, Offset(sent, j), Offset(sent, j + 1))
    ensures Inbox.PayloadFirst(sent, landed, FrameOf(paranoid, j))
  {
    var h := FrameOf(paranoid, j);
    var m, o := sent[h], Offset(sent, h);
    FrameAt(sent, h);
    if paranoid {
      if j % 2 == 1 {
        assert forall p: nat :: o + 8 <= p < Offset(sent, h + 1) ==> Covers(sent, paranoid, j, p);
      } else {
        var next := j + 1;
        assert forall p: nat :: o <= p < o + 8 ==> !Covers(sent, paranoid, next, p);
      }
    } else {
      assert o + 8 + |m| in landed ==> Inbox.AllLanded(landed, o, o + 8 + |m|);
    }
  }

  lemma {:induction false} Disciplined(sent: seq<Message>, paranoid: bool, anyOrder: bool, landed: set<nat>, j: nat)
    requires paranoid || !anyOrder
    requires FrameOf(paranoid, j) < |sent|
    requires Complete(sent, paranoid, landed, j) && Bounded(sent, paranoid, landed, j + 1)
    requires !anyOrder && !paranoid ==> InOrder(landed, Offset(sent, j), Offset(sent, j + 1))
    ensures Inbox.Discipline(sent, landed)
  {
    HeadFrameOk(sent, paranoid, anyOrder, landed, j);
    LandedAround(sent, paranoid, landed, j, j + 1);
    DisciplineAt(sent, landed, FrameOf(paranoid, j));
  }

  /** Before the frame of write j everything has landed, after it nothing. */
  lemma {:induction false} LandedAround(sent: seq<Message>, paranoid: bool, landed: set<nat>, j: nat, next: nat)
    requires FrameOf(paranoid, j) < |sent| && next == j + 1
    requires Complete(sent, paranoid, landed, j) && Bounded(sent, paranoid, landed, next)
    ensures Inbox.AllLanded(landed, 0, Offset(sent, FrameOf(paranoid, j)))
    ensures Inbox.LandedBelow(landed, Offset(sent, FrameOf(paranoid, j) + 1))
  {
    var h := FrameOf(paranoid, j);
    OffsetsGrow(sent, h, h + 1);
    forall p: nat | p < Offset(sent, h) ensures p in landed {
      assert Covers(sent, paranoid, j, p);
    }
    forall p | p in landed ensures p < Offset(sent, h + 1) {
      assert Covers(sent, paranoid, next, p);
    }
  }

  // ----- preservation, step kind by step kind -----

  lemma {:induction false} CoversStable(sent: seq<Message>, m: Message, paranoid: bool, j: nat)
    requires FrameOf(paranoid, j) <= |sent|
    requires paranoid && j % 2 == 1 ==> j / 2 < |sent|
    ensures forall p: nat :: Covers(sent + [m], paranoid, j, p) <==> Covers(sent, paranoid, j, p)
  {
    OffsetStable(sent, m, FrameOf(paranoid, j));
    if paranoid && j % 2 == 1 {
      OffsetStable(sent, m, j / 2 + 1);
    }
  }

  lemma {:induction false} InPlaceStable(sent: seq<Message>, m: Message, paranoid: bool, w: Write, j: nat)
    requires InPlace(sent, paranoid, w, j)
    ensures InPlace(sent + [m], paranoid, w, j)
  {
    var i := FrameOf(paranoid, j);
    OffsetStable(sent, m, i);
    OffsetStable(sent, m, i + 1);
    WireSnoc(sent, m);
    assert (Wire(sent) + Frame(m))[w.lo..w.hi] == Wire(sent)[w.lo..w.hi];
  }

  lemma {:induction false} WritesStable(sent: seq<Message>, m: Message, paranoid: bool, writes: seq<Write>)
    requires WritesOk(sent, paranoid, writes)
    ensures WritesOk(sent + [m], paranoid, writes)
  {
    forall j | 0 <= j < |writes| ensures InPlace(sent + [m], paranoid, writes[j], j) {
      InPlaceStable(sent, m, paranoid, writes[j], j);
    }
  }

  lemma {:induction false} CardStable(sent: seq<Message>, m: Message, paranoid: bool, anyOrder: bool,
                                      writes: seq<Write>, retired: nat, landed: set<nat>)
    requires CardOk(sent, paranoid, anyOrder, writes, retired, landed)
    requires |writes| == (if paranoid then 2 else 1) * |sent|
    ensures CardOk(sent + [m], paranoid, anyOrder, writes, retired, landed)
  {
    WritesStable(sent, m, paranoid, writes);
    CoversStable(sent, m, paranoid, retired);
    if retired < |writes| {
      CoversStable(sent, m, paranoid, retired + 1);
    }
  }

  lemma {:induction false} BeginSendKeeps(s: State, m: Message)
    requires Inv(s) && Enabled(s, BeginSend(m))
    ensures Inv(Do(s, BeginSend(m)))
  {
    Inbox.SendKeeps(s.sent, s.receiver, m);
    CardStable(s.sent, m, s.paranoid, s.anyOrder, s.writes, s.retired, s.receiver.landed);
    OffsetStable(s.sent, m, |s.sent|);
  }

  lemma {:induction false} FillOffsetsDiffer(m: Message, j: nat, k: nat)
    requires j < k < FrameSize(m)
    ensures FillOffset(m, j) != FillOffset(m, k)
    ensures FillOffset(m, j) < FrameSize(m) && FillOffset(m, k) < FrameSize(m)
  {
  }

  lemma {:induction false} FillOne(sendBuf: seq<byte>, start: nat, m: Message, k: nat)
    requires PartlyFilled(sendBuf, start, m, k) && k < FrameSize(m) <= |sendBuf|
    ensures FillOffset(m, k) < FrameSize(m)
    ensures PartlyFilled(Put(sendBuf, start + FillOffset(m, k), Frame(m)[FillOffset(m, k)]), start, m, k + 1)
  {
    var o := FillOffset(m, k);
    PutFrame(sendBuf, start, start + o, Frame(m)[o]);
    forall j: nat | j < k ensures FillOffset(m, j) != o && FillOffset(m, j) < FrameSize(m) {
      FillOffsetsDiffer(m, j, k);
    }
  }

  lemma {:induction false} FilledInFull(sendBuf: seq<byte>, start: nat, m: Message)
    requires PartlyFilled(sendBuf, start, m, FrameSize(m))
    ensures Filled(sendBuf, start, m)
  {
    forall o: nat | o < FrameSize(m) ensures At(sendBuf, start + o) == Frame(m)[o] {
      var j := if o < 8 then o + |m| else if o < 8 + |m| then o - 8 else o;
      assert FillOffset(m, j) == o;
    }
  }

  lemma {:induction false} FillByteKeeps(s: State)
    requires Inv(s) && Enabled(s, FillByte)
    ensures Inv(Do(s, FillByte))
  {
    assert Fits(s.sent[|s.sent| - 1], |s.receiver.ring|);
    FillOne(s.sendBuf, s.sendPos, s.sender.msg, s.sender.k);
  }

  lemma {:induction false} EndFillKeeps(s: State)
    requires Inv(s) && Enabled(s, EndFill)
    ensures Inv(Do(s, EndFill))
  {
    FilledInFull(s.sendBuf, s.sendPos, s.sender.msg);
  }

  // ----- what was received was posted -----

  /** The last byte of a settled frame is nonzero, so it has landed. */
  lemma {:induction false} LastByteLanded(sent: seq<Message>, landed: set<nat>, i: nat)
    requires 0 < i <= |sent| && Inbox.Settled(Wire(sent), landed, 0, Offset(sent, i))
    ensures 0 < Offset(sent, i) && Offset(sent, i) - 1 in landed
  {
    var m := sent[i - 1];
    FrameAt(sent, i - 1);
    var f := Wire(sent)[Offset(sent, i - 1)..Offset(sent, i)];
    assert f[FrameSize(m) - 1] == Frame(m)[FrameSize(m) - 1] == VALIDITY[7];
    assert Wire(sent)[Offset(sent, i) - 1] == f[FrameSize(m) - 1];
  }

  /** A size word of which nothing has landed although the frame is settled says zero. */
  lemma {:induction false} UnlandedSizeIsZero(sent: seq<Message>, landed: set<nat>, i: nat)
    requires i < |sent| && |sent[i]| < SIZE_LIMIT && Inbox.Settled(Wire(sent), landed, 0, Offset(sent, i + 1))
    requires forall p: nat :: Offset(sent, i) <= p < Offset(sent, i) + 8 ==> p !in landed
    ensures |sent[i]| == 0
  {
    var o, w := Offset(sent, i), SizeWord(sent[i]);
    FrameAt(sent, i);
    SizeWordAt(sent, i);
    forall k: nat | k < 8 ensures w[k] == 0 {
      assert o + k !in landed;
      assert Wire(sent)[o..o + 8][k] == Wire(sent)[o + k];
    }
    ZeroWord(w);
    SizeWordValue(sent[i]);
  }

  /** Everything covered by the first j writes is posted, apart from the data write of the frame being posted. */
  lemma {:induction false} CoveredIsPosted(sent: seq<Message>, sender: Sender, paranoid: bool, j: nat, p: nat)
    requires j <= WritesPosted(sent, sender, paranoid) && Covers(sent, paranoid, j, p) && (paranoid || !(sender.Posting? && sender.dataPosted))
    ensures var h := Posted(sent, sender);
            || p < Offset(sent, h)
            || (paranoid && sender.Posting? && sender.dataPosted && j == 2 * h + 1 && h < |sent| && p < Offset(sent, h + 1))
  {
    var h, i := Posted(sent, sender), FrameOf(paranoid, j);
    if i < h {
      OffsetsGrow(sent, i, h);
      OffsetsGrow(sent, i + 1, h);
    }
  }

  /** The one case in which the receiver is ahead of sendPos: an empty message of `sendParanoid` was accepted
      before its size word, which is zero, was posted. */
  predicate EarlyEmpty(s: State) {
    && s.paranoid && s.sender.Posting? && s.sender.dataPosted && |s.sender.msg| == 0
    && s.receiver.readPos == s.sendPos + 16
  }

  lemma {:induction false} ReadPositionPosted(sent: seq<Message>, landed: set<nat>, i: nat, sender: Sender, paranoid: bool, j: nat)
    requires i <= |sent| && Inbox.Settled(Wire(sent), landed, 0, Offset(sent, i)) && Bounded(sent, paranoid, landed, j)
    requires j <= WritesPosted(sent, sender, paranoid) && (paranoid || !(sender.Posting? && sender.dataPosted))
    ensures var h := Posted(sent, sender);
            || Offset(sent, i) <= Offset(sent, h)
            || (paranoid && sender.Posting? && sender.dataPosted && j == 2 * h + 1 && h < |sent| && Offset(sent, i) <= Offset(sent, h + 1))
  {
    if i > 0 {
      LastByteLanded(sent, landed, i);
      CoveredIsPosted(sent, sender, paranoid, j, Offset(sent, i) - 1);
    } else {
      assert sent[..0] == [];
    }
  }

  lemma {:induction false} AheadIsEarlyEmpty(sent: seq<Message>, landed: set<nat>, i: nat, j: nat, h: nat)
    requires i <= |sent| && Inbox.Settled(Wire(sent), landed, 0, Offset(sent, i)) && h < |sent| && |sent[h]| < SIZE_LIMIT
    requires j == 2 * h + 1 && Bounded(sent, true, landed, j)
    requires Offset(sent, h) < Offset(sent, i) <= Offset(sent, h + 1)
    ensures |sent[h]| == 0 && Offset(sent, i) == Offset(sent, h) + 16
  {
    if i <= h {
      OffsetsGrow(sent, i, h);
    } else {
      OffsetsGrow(sent, h + 1, i);
    }
    assert i == h + 1;
    forall p: nat | Offset(sent, h) <= p < Offset(sent, h) + 8 ensures p !in landed {
      assert !Covers(sent, true, j, p);
    }
    UnlandedSizeIsZero(sent, landed, h);
    FrameAt(sent, h);
  }

  /** The receiver has consumed i messages; the sender has posted those before `Posted`. */
  lemma {:induction false} ConsumedWasPosted(sent: seq<Message>, landed: set<nat>, i: nat, sender: Sender, paranoid: bool, j: nat, n: nat)
    requires i <= |sent| && Inbox.Settled(Wire(sent), landed, 0, Offset(sent, i)) && Bounded(sent, paranoid, landed, j)
    requires j <= WritesPosted(sent, sender, paranoid) && (paranoid || !(sender.Posting? && sender.dataPosted))
    requires Inbox.MessagesFit(sent, n)
    ensures var h := Posted(sent, sender);
            || Offset(sent, i) <= Offset(sent, h)
            || (paranoid && sender.Posting? && sender.dataPosted && h < |sent| && |sent[h]| == 0 && Offset(sent, i) == Offset(sent, h) + 16)
  {
    var h := Posted(sent, sender);
    ReadPositionPosted(sent, landed, i, sender, paranoid, j);
    if Offset(sent, i) > Offset(sent, h) {
      assert Fits(sent[h], n);
      AheadIsEarlyEmpty(sent, landed, i, j, h);
    }
  }

  lemma {:induction false} ReceivedWasPosted(s: State)
    requires Inbox.Inv(s.sent, s.receiver)
    requires SenderOk(s.sent, s.sender, s.paranoid, s.sendBuf, s.sendPos, s.cached)
    requires |s.writes| == WritesPosted(s.sent, s.sender, s.paranoid)
    requires CardOk(s.sent, s.paranoid, s.anyOrder, s.writes, s.retired, s.receiver.landed)
    ensures s.receiver.readPos <= s.sendPos || EarlyEmpty(s)
  {
    var j := if s.retired < |s.writes| then s.retired + 1 else s.retired;
    ConsumedWasPosted(s.sent, s.receiver.landed, |s.receiver.received|, s.sender, s.paranoid, j, |s.receiver.ring|);
  }

  lemma {:induction false} WaitingKeeps(s: State, step: Step)
    requires Inv(s) && Enabled(s, step) && (step.ReadRemotePosition? || step.EndWait?)
    ensures Inv(Do(s, step))
  {
    ReceivedWasPosted(s);
  }

  /** What is posted is the piece of the stream it stands for. */
  lemma {:induction false} SnapshotInPlace(sent: seq<Message>, sendBuf: seq<byte>, m: Message, lo: nat, hi: nat)
    requires IsLast(sent, m) && Filled(sendBuf, Offset(sent, |sent| - 1), m)
    requires Offset(sent, |sent| - 1) <= lo <= hi <= |Wire(sent)|
    ensures Snapshot(sendBuf, lo, hi).bytes == Wire(sent)[lo..hi]
  {
    var i := |sent| - 1;
    FrameAt(sent, i);
    EndOffset(sent);
    SnapshotOfFrame(Wire(sent), sendBuf, Offset(sent, i), m, lo, hi);
  }

  lemma {:induction false} SnapshotOfFrame(wire: seq<byte>, sendBuf: seq<byte>, o: nat, m: Message, lo: nat, hi: nat)
    requires o <= lo <= hi <= |wire| == o + FrameSize(m)
    requires wire[o..|wire|] == Frame(m) && Filled(sendBuf, o, m)
    ensures Snapshot(sendBuf, lo, hi).bytes == wire[lo..hi]
  {
    var w, want := Snapshot(sendBuf, lo, hi).bytes, wire[lo..hi];
    forall k | 0 <= k < hi - lo ensures w[k] == want[k] {
      var x := lo + k - o;
      assert At(sendBuf, o + x) == Frame(m)[x];
      assert wire[o..|wire|][x] == wire[o + x];
    }
  }

  lemma {:induction false} NextWriteInPlace(s: State)
    requires SenderOk(s.sent, s.sender, s.paranoid, s.sendBuf, s.sendPos, s.cached)
    requires s.sender.Posting? && |s.sendBuf| > 0
    requires |s.writes| == WritesPosted(s.sent, s.sender, s.paranoid)
    ensures InPlace(s.sent, s.paranoid, NextWrite(s), |s.writes|)
  {
    FrameAt(s.sent, |s.sent| - 1);
    EndOffset(s.sent);
    SnapshotInPlace(s.sent, s.sendBuf, s.sender.msg, NextWrite(s).lo, NextWrite(s).hi);
  }

  /** The first j + 1 writes cover what the first j do, and write j. */
  lemma {:induction false} CoversMore(sent: seq<Message>, paranoid: bool, w: Write, j: nat, next: nat)
    requires InPlace(sent, paranoid, w, j) && next == j + 1
    ensures forall p: nat :: Covers(sent, paranoid, next, p) <==> Covers(sent, paranoid, j, p) || w.lo <= p < w.hi
    ensures forall p: nat :: Covers(sent, paranoid, j, p) ==> !(w.lo <= p < w.hi)
  {
    var i := FrameOf(paranoid, j);
    OffsetsGrow(sent, i, i + 1);
    assert FrameOf(paranoid, next) == if paranoid && j % 2 == 0 then i else i + 1;
  }

  /** A newly posted write does not change what may have landed. */
  lemma {:induction false} PostKeepsCard(sent: seq<Message>, paranoid: bool, anyOrder: bool, writes: seq<Write>,
                                         w: Write, retired: nat, landed: set<nat>)
    requires CardOk(sent, paranoid, anyOrder, writes, retired, landed)
    requires InPlace(sent, paranoid, w, |writes|)
    ensures CardOk(sent, paranoid, anyOrder, writes + [w], retired, landed)
  {
    assert WritesOk(sent, paranoid, writes + [w]);
    if retired == |writes| {
      NothingOfIt(sent, paranoid, w, retired, landed);
    } else {
      assert (writes + [w])[retired] == writes[retired];
    }
  }

  /** Nothing of a write that was just posted has landed. */
  lemma {:induction false} NothingOfIt(sent: seq<Message>, paranoid: bool, w: Write, j: nat, landed: set<nat>)
    requires InPlace(sent, paranoid, w, j) && Bounded(sent, paranoid, landed, j)
    ensures Bounded(sent, paranoid, landed, j + 1) && InOrder(landed, w.lo, w.hi)
  {
    CoversMore(sent, paranoid, w, j, j + 1);
    forall p | p in landed ensures Covers(sent, paranoid, j + 1, p) && !(w.lo <= p < w.hi) {
      assert Covers(sent, paranoid, j, p);
    }
  }

  lemma {:induction false} LandKeepsCard(sent: seq<Message>, paranoid: bool, anyOrder: bool, writes: seq<Write>,
                                         retired: nat, landed: set<nat>, p: nat)
    requires CardOk(sent, paranoid, anyOrder, writes, retired, landed)
    requires retired < |writes| && writes[retired].lo <= p < writes[retired].hi
    requires anyOrder || forall q: nat :: writes[retired].lo <= q < p ==> q in landed
    ensures CardOk(sent, paranoid, anyOrder, writes, retired, landed + {p})
  {
    CoversMore(sent, paranoid, writes[retired], retired, retired + 1);
  }

  lemma {:induction false} RetireKeepsCard(sent: seq<Message>, paranoid: bool, anyOrder: bool, writes: seq<Write>,
                                           retired: nat, landed: set<nat>)
    requires CardOk(sent, paranoid, anyOrder, writes, retired, landed)
    requires retired < |writes| && Inbox.AllLanded(landed, writes[retired].lo, writes[retired].hi)
    ensures CardOk(sent, paranoid, anyOrder, writes, retired + 1, landed)
  {
    CoversMore(sent, paranoid, writes[retired], retired, retired + 1);
    if retired + 1 < |writes| {
      CoversMore(sent, paranoid, writes[retired + 1], retired + 1, retired + 2);
    }
  }

  lemma {:induction false} CardIsDisciplined(sent: seq<Message>, paranoid: bool, anyOrder: bool, writes: seq<Write>,
                                             retired: nat, landed: set<nat>)
    requires CardOk(sent, paranoid, anyOrder, writes, retired, landed) && retired < |writes|
    requires paranoid || !anyOrder
    ensures Inbox.Discipline(sent, landed)
  {
    assert InPlace(sent, paranoid, writes[retired], retired);
    Disciplined(sent, paranoid, anyOrder, landed, retired);
  }

  lemma {:induction false} PostKeepsSender(s: State)
    requires SenderOk(s.sent, s.sender, s.paranoid, s.sendBuf, s.sendPos, s.cached)
    requires Enabled(s, Post)
    ensures var s' := Do(s, Post);
            && SenderOk(s.sent, s'.sender, s.paranoid, s.sendBuf, s'.sendPos, s.cached)
            && WritesPosted(s.sent, s'.sender, s.paranoid) == WritesPosted(s.sent, s.sender, s.paranoid) + 1
  {
    FrameAt(s.sent, |s.sent| - 1);
  }

  lemma {:induction false} PostKeeps(s: State)
    requires Inv(s) && Enabled(s, Post)
    ensures Inv(Do(s, Post))
  {
    NextWriteInPlace(s);
    PostKeepsCard(s.sent, s.paranoid, s.anyOrder, s.writes, NextWrite(s), s.retired, s.receiver.landed);
    PostKeepsSender(s);
  }

  /** No write reaches further than one ring ahead of the published read position. */
  lemma {:induction false} LandsInWindow(sent: seq<Message>, sender: Sender, paranoid: bool, sendBuf: seq<byte>,
                                         sendPos: nat, cached: nat, w: Write, j: nat, p: nat)
    requires SenderOk(sent, sender, paranoid, sendBuf, sendPos, cached)
    requires j < WritesPosted(sent, sender, paranoid) && InPlace(sent, paranoid, w, j)
    requires w.lo <= p < w.hi
    ensures p < cached + |sendBuf| && p < |Wire(sent)| && w.bytes[p - w.lo] == Wire(sent)[p]
  {
    var i := FrameOf(paranoid, j);
    FrameAt(sent, i);
    if i < Posted(sent, sender) {
      OffsetsGrow(sent, i + 1, Posted(sent, sender));
    }
  }

  lemma {:induction false} LandedByte(s: State, p: nat)
    requires SenderOk(s.sent, s.sender, s.paranoid, s.sendBuf, s.sendPos, s.cached)
    requires |s.writes| == WritesPosted(s.sent, s.sender, s.paranoid) && WritesOk(s.sent, s.paranoid, s.writes)
    requires Enabled(s, Land(p))
    ensures p < s.cached + |s.sendBuf| && p < |Wire(s.sent)|
    ensures Do(s, Land(p)).receiver == Inbox.Land(s.receiver, p, Wire(s.sent)[p])
  {
    var w := s.writes[s.retired];
    assert InPlace(s.sent, s.paranoid, w, s.retired);
    LandsInWindow(s.sent, s.sender, s.paranoid, s.sendBuf, s.sendPos, s.cached, w, s.retired, p);
  }

  lemma {:induction false} LandKeepsInbox(sent: seq<Message>, paranoid: bool, anyOrder: bool, writes: seq<Write>,
                                          retired: nat, r: Inbox.Receiver, p: nat)
    requires Inbox.Inv(sent, r) && CardOk(sent, paranoid, anyOrder, writes, retired, r.landed + {p})
    requires retired < |writes| && (paranoid || !anyOrder)
    requires p !in r.landed && p < |Wire(sent)| && p < r.readPos + |r.ring|
    ensures Inbox.Inv(sent, Inbox.Land(r, p, Wire(sent)[p]))
  {
    CardIsDisciplined(sent, paranoid, anyOrder, writes, retired, r.landed + {p});
    Inbox.LandKeeps(sent, r, p);
  }

  lemma {:induction false} LandKeeps(s: State, p: nat)
    requires Inv(s) && Enabled(s, Land(p)) && OrderSuffices(s)
    ensures Inv(Do(s, Land(p)))
  {
    LandedByte(s, p);
    LandKeepsCard(s.sent, s.paranoid, s.anyOrder, s.writes, s.retired, s.receiver.landed, p);
    LandKeepsInbox(s.sent, s.paranoid, s.anyOrder, s.writes, s.retired, s.receiver, p);
  }

  lemma {:induction false} RetireKeeps(s: State)
    requires Inv(s) && Enabled(s, Retire)
    ensures Inv(Do(s, Retire))
  {
    RetireKeepsCard(s.sent, s.paranoid, s.anyOrder, s.writes, s.retired, s.receiver.landed);
  }

  lemma {:induction false} ReceiveKeeps(s: State, step: Inbox.Step)
    requires Inv(s) && Enabled(s, Receive(step)) && Inbox.AllUnambiguous(s.sent)
    ensures Inv(Do(s, Receive(step)))
  {
    Inbox.StepKeeps(s.sent, s.receiver, step);
  }

  lemma {:induction false} StepKeeps(s: State, step: Step)
    requires Inv(s) && Enabled(s, step) && OrderSuffices(s) && Inbox.AllUnambiguous(s.sent)
    ensures Inv(Do(s, step)) && OrderSuffices(Do(s, step))
  {
    match step
    case BeginSend(m) => BeginSendKeeps(s, m);
    case FillByte => FillByteKeeps(s);
    case EndFill => EndFillKeeps(s);
    case ReadRemotePosition => WaitingKeeps(s, step);
    case EndWait => WaitingKeeps(s, step);
    case Post => PostKeeps(s);
    case Land(p) => LandKeeps(s, p);
    case Retire => RetireKeeps(s);
    case Receive(r) => ReceiveKeeps(s, r);
  }

  // ----- whole runs -----

  predicate Legal(s: State, steps: seq<Step>)
    decreases |steps|
  {
    steps == [] || (Enabled(s, steps[0]) && Legal(Do(s, steps[0]), steps[1..]))
  }

  function Run(s: State, steps: seq<Step>): State
    requires Legal(s, steps)
    decreases |steps|
  {
    if steps == [] then s else Run(Do(s, steps[0]), steps[1..])
  }

  function Handing(step: Step): seq<Message> {
    if step.BeginSend? then [step.m] else []
  }

  /** What the caller handed to `send`, read off the calls alone. */
  function Handed(steps: seq<Step>): seq<Message> {
    if steps == [] then [] else Handing(steps[0]) + Handed(steps[1..])
  }

  lemma {:induction false} StepSends(s: State, step: Step)
    requires Enabled(s, step)
    ensures Do(s, step).sent == s.sent + Handing(step)
  {
  }

  /** What counts as sent is exactly what was handed over, message for message. */
  lemma {:induction false} SentIsHanded(s: State, steps: seq<Step>)
    requires Legal(s, steps)
    ensures Run(s, steps).sent == s.sent + Handed(steps)
    decreases |steps|
  {
    if steps != [] {
      var s1 := Do(s, steps[0]);
      StepSends(s, steps[0]);
      SentIsHanded(s1, steps[1..]);
      Associative(s.sent, Handing(steps[0]), Handed(steps[1..]));
    }
  }

  lemma {:induction false} SentGrows(s: State, steps: seq<Step>)
    requires Legal(s, steps)
    ensures s.sent <= Run(s, steps).sent
  {
    SentIsHanded(s, steps);
  }

  lemma {:induction false} RunKeeps(s: State, steps: seq<Step>)
    requires Inv(s) && Legal(s, steps) && OrderSuffices(s)
    requires Inbox.AllUnambiguous(Run(s, steps).sent)
    ensures Inv(Run(s, steps))
    decreases |steps|
  {
    if steps != [] {
      SentGrows(s, steps);
      StepKeeps(s, steps[0]);
      RunKeeps(Do(s, steps[0]), steps[1..]);
    }
  }

  lemma {:induction false} RunConcat(s: State, a: seq<Step>, b: seq<Step>)
    requires Legal(s, a) && Legal(Run(s, a), b)
    ensures Legal(s, a + b) && Run(s, a + b) == Run(Run(s, a), b)
    decreases |a|
  {
    if a == [] {
      assert a + b == b;
    } else {
      assert (a + b)[0] == a[0] && (a + b)[1..] == a[1..] + b;
      RunConcat(Do(s, a[0]), a[1..], b);
    }
  }

  lemma {:induction false} RunCons(s: State, step: Step, b: seq<Step>)
    requires Enabled(s, step) && Legal(Do(s, step), b)
    ensures Legal(s, [step] + b) && Run(s, [step] + b) == Run(Do(s, step), b)
  {
    assert ([step] + b)[1..] == b;
  }

  lemma {:induction false} Lone(s: State, step: Step)
    requires Enabled(s, step)
    ensures Legal(s, [step]) && Run(s, [step]) == Do(s, step)
  {
  }

  lemma {:induction false} Reached(n: nat, paranoid: bool, anyOrder: bool, steps: seq<Step>)
    requires n >= 16 && (paranoid || !anyOrder) && Legal(Init(n, paranoid, anyOrder), steps)
    requires Inbox.AllUnambiguous(Handed(steps))
    ensures Inv(Run(Init(n, paranoid, anyOrder), steps)) && Run(Init(n, paranoid, anyOrder), steps).sent == Handed(steps)
  {
    SentIsHanded(Init(n, paranoid, anyOrder), steps);
    assert [] + Handed(steps) == Handed(steps);
    InitInv(n, paranoid, anyOrder);
    RunKeeps(Init(n, paranoid, anyOrder), steps);
  }

  /** With front-to-back arrival `send` delivers a prefix of what was handed to it; `sendParanoid` does so even if the
      bytes of each single write arrive in any order. */
  lemma {:induction false} ReceivedIsPrefixOfSent(n: nat, paranoid: bool, anyOrder: bool, steps: seq<Step>)
    requires n >= 16 && (paranoid || !anyOrder) && Legal(Init(n, paranoid, anyOrder), steps)
    requires Inbox.AllUnambiguous(Handed(steps))
    ensures Run(Init(n, paranoid, anyOrder), steps).receiver.received <= Handed(steps)
  {
    Reached(n, paranoid, anyOrder, steps);
  }

  lemma {:induction false} SizesStay(s: State, steps: seq<Step>)
    requires Legal(s, steps)
    ensures |Run(s, steps).sendBuf| == |s.sendBuf| && |Run(s, steps).receiver.ring| == |s.receiver.ring|
    decreases |steps|
  {
    if steps != [] {
      SizesStay(Do(s, steps[0]), steps[1..]);
    }
  }

  /** Flow control of the doubly mapped ring, for both ways of sending: the cached position is behind the real one,
      which is behind sendPos (but for an empty message accepted early), which is at most one ring ahead of the cached
      one; nothing lands beyond that, and every slot of the window whose byte has not landed is zero. */
  lemma {:induction false} FlowControlAlways(n: nat, paranoid: bool, anyOrder: bool, steps: seq<Step>)
    requires n >= 16 && (paranoid || !anyOrder)
    requires Legal(Init(n, paranoid, anyOrder), steps)
    requires Inbox.AllUnambiguous(Handed(steps))
    ensures var s := Run(Init(n, paranoid, anyOrder), steps);
            && |s.receiver.ring| == n
            && s.cached <= s.receiver.readPos && (s.receiver.readPos <= s.sendPos || EarlyEmpty(s))
            && s.cached <= s.sendPos <= s.cached + n
            && (forall p :: p in s.receiver.landed ==> p < s.receiver.readPos + n)
            && forall p: nat :: s.receiver.readPos <= p < s.receiver.readPos + n && p !in s.receiver.landed ==>
                 At(s.receiver.ring, p) == 0
  {
    Reached(n, paranoid, anyOrder, steps);
    SizesStay(Init(n, paranoid, anyOrder), steps);
    ReceivedWasPosted(Run(Init(n, paranoid, anyOrder), steps));
  }
}
