/** `RDMAMessageBuffer`: sender, network card and receiver of one direction, as a step system.

    The sender copies each of the three parts of a frame into its local ring only after it saw enough
    remote space, then posts the frame as one or two writes.  The card may read a posted byte from the local
    ring at any moment between post and arrival, and delivers front to back (RFC 5040, section 5.5). */
module Channel {
  import opened Frames
  import opened Rings
  import Inbox

  datatype Sender =
    | Idle
    | AwaitingSpace(msg: Message, part: nat)
    | Copying(msg: Message, part: nat, k: nat)
    | Posting(msg: Message)

  datatype State = State(
    sendBuf: seq<byte>,
    sendPos: nat,
    cached: nat,
    sender: Sender,
    posted: nat,
    fetched: map<nat, byte>,
    arrived: nat,
    receiver: Inbox.Receiver,
    sent: seq<Message>)

  datatype Step =
    | BeginSend(m: Message)
    | ReadRemotePosition
    | StartCopy
    | CopyByte
    | EndCopy
    | Post(inln: bool)
    | Fetch(p: nat)
    | Land
    | Receive(step: Inbox.Step)

  function Part(m: Message, part: nat): seq<byte>
    requires part < 3
  {
    if part == 0 then SizeWord(m) else if part == 1 then m else VALIDITY
  }

  function PartStart(m: Message, part: nat): nat {
    if part == 0 then 0 else if part == 1 then 8 else if part == 2 then 8 + |m| else FrameSize(m)
  }

  /** `size - (sendPos - currentRemoteReceive)` */
  function Space(s: State): int {
    |s.sendBuf| - (s.sendPos - s.cached)
  }

  /** End of the next contiguous write: `wraparound` cuts the frame at the end of the ring. */
  function SegmentEnd(n: nat, lo: nat, hi: nat): nat
    requires n > 0
  {
    if n - lo % n >= hi - lo then hi else lo + (n - lo % n)
  }

  function Snapshot(buf: seq<byte>, lo: nat, hi: nat): map<nat, byte>
    requires |buf| > 0
  {
    map p: nat | lo <= p < hi :: At(buf, p)
  }

  predicate Enabled(s: State, step: Step) {
    |s.sendBuf| == |s.receiver.ring| > 0 &&
    match step
    case BeginSend(m) => s.sender.Idle? && Fits(m, |s.sendBuf|)
    case ReadRemotePosition => s.sender.AwaitingSpace? && s.sender.part < 3 && |Part(s.sender.msg, s.sender.part)| > Space(s)
    case StartCopy => s.sender.AwaitingSpace? && s.sender.part < 3 && |Part(s.sender.msg, s.sender.part)| <= Space(s)
    case CopyByte => s.sender.Copying? && s.sender.part < 3 && s.sender.k < |Part(s.sender.msg, s.sender.part)|
    case EndCopy => s.sender.Copying? && s.sender.part < 3 && s.sender.k == |Part(s.sender.msg, s.sender.part)|
    case Post(_) => s.sender.Posting? && s.posted < s.sendPos
    case Fetch(p) => s.arrived <= p < s.posted && p !in s.fetched
    case Land => s.arrived < s.posted && s.arrived in s.fetched
    case Receive(step) => Inbox.Enabled(s.receiver, step)
  }

  function Do(s: State, step: Step): State
    requires Enabled(s, step)
  {
    match step
    case BeginSend(m) => s.(sent := s.sent + [m], sender := AwaitingSpace(m, 0))
    case ReadRemotePosition => s.(cached := s.receiver.readPos)
    case StartCopy => s.(sender := Copying(s.sender.msg, s.sender.part, 0))
    case CopyByte =>
      var b := Part(s.sender.msg, s.sender.part)[s.sender.k];
      s.(sendBuf := Put(s.sendBuf, s.sendPos + s.sender.k, b), sender := s.sender.(k := s.sender.k + 1))
    case EndCopy =>
      var next := s.sender.part + 1;
      s.(sendPos := s.sendPos + s.sender.k,
         sender := if next < 3 then AwaitingSpace(s.sender.msg, next) else Posting(s.sender.msg))
    case Post(inln) =>
      var end := SegmentEnd(|s.sendBuf|, s.posted, s.sendPos);
      s.(posted := end,
         fetched := if inln && end - s.posted <= MAX_INLINE
                    then s.fetched + Snapshot(s.sendBuf, s.posted, end) else s.fetched,
         sender := if end == s.sendPos then Idle else s.sender)
    case Fetch(p) => s.(fetched := s.fetched[p := At(s.sendBuf, p)])
    case Land =>
      s.(receiver := Inbox.Land(s.receiver, s.arrived, s.fetched[s.arrived]),
         fetched := s.fetched - {s.arrived},
         arrived := s.arrived + 1)
    case Receive(step) => s.(receiver := Inbox.Do(s.receiver, step))
  }

  function Init(n: nat): State {
    State(Zeros(n), 0, 0, Idle, 0, map[], 0, Inbox.Fresh(n), [])
  }

  // ----- the invariant of every reachable state -----

  /** Everything below this position has been copied into the send buffer. */
  function WrittenEnd(s: State): nat {
    s.sendPos + if s.sender.Copying? then s.sender.k else 0
  }

  ghost predicate SenderOk(s: State) {
    var w := |Wire(s.sent)|;
    match s.sender
    case Idle => s.posted == s.sendPos == w
    case AwaitingSpace(m, part) =>
      part < 3 && IsLast(s.sent, m) && s.posted + FrameSize(m) == w && s.sendPos == s.posted + PartStart(m, part)
    case Copying(m, part, k) =>
      && part < 3 && IsLast(s.sent, m) && s.posted + FrameSize(m) == w
      && s.sendPos == s.posted + PartStart(m, part)
      && k <= |Part(m, part)| && s.sendPos + |Part(m, part)| <= s.cached + |s.sendBuf|
    case Posting(m) =>
      IsLast(s.sent, m) && w <= s.posted + FrameSize(m) && s.posted < s.sendPos == w
  }

  /** The flow-control chain. */
  ghost predicate FlowControl(s: State) {
    && s.cached <= s.receiver.readPos <= s.arrived <= s.posted <= s.sendPos
    && WrittenEnd(s) <= s.cached + |s.sendBuf|
  }

  /** The send buffer still holds every byte that was copied and has not arrived: a card that reads a posted
      byte late reads the right one. */
  ghost predicate LateReadsSafe(wire: seq<byte>, sendBuf: seq<byte>, arrived: nat, end: nat) {
    |sendBuf| > 0 && end <= |wire| &&
    forall p: nat :: arrived <= p < end ==> At(sendBuf, p) == wire[p]
  }

  ghost predicate FetchedOk(wire: seq<byte>, fetched: map<nat, byte>, arrived: nat, posted: nat) {
    forall p :: p in fetched ==> arrived <= p < posted && p < |wire| && fetched[p] == wire[p]
  }

  ghost predicate FrontToBack(landed: set<nat>, arrived: nat) {
    forall p: nat :: p in landed <==> p < arrived
  }

  ghost predicate Inv(s: State) {
    && |s.sendBuf| == |s.receiver.ring|
    && Inbox.Inv(s.sent, s.receiver)
    && FrontToBack(s.receiver.landed, s.arrived)
    && FlowControl(s)
    && SenderOk(s)
    && LateReadsSafe(Wire(s.sent), s.sendBuf, s.arrived, WrittenEnd(s))
    && FetchedOk(Wire(s.sent), s.fetched, s.arrived, s.posted)
  }

  lemma {:induction false} InitInv(n: nat)
    requires n >= 16
    ensures Inv(Init(n))
  {
    Inbox.FreshInv(n);
  }

  // ----- preservation, step kind by step kind -----

  lemma {:induction false} BeginSendKeeps(s: State, m: Message)
    requires Inv(s) && Enabled(s, BeginSend(m))
    ensures Inv(Do(s, BeginSend(m)))
  {
    Inbox.SendKeeps(s.sent, s.receiver, m);
    WireSnoc(s.sent, m);
  }

  lemma {:induction false} WaitingKeeps(s: State, step: Step)
    requires Inv(s) && Enabled(s, step)
    requires step.ReadRemotePosition? || step.StartCopy?
    ensures Inv(Do(s, step))
  {
  }

  lemma {:induction false} PartInFrame(m: Message, part: nat, k: nat)
    requires part < 3 && k < |Part(m, part)|
    ensures PartStart(m, part) + k < FrameSize(m)
    ensures Frame(m)[PartStart(m, part) + k] == Part(m, part)[k]
    ensures PartStart(m, part) + |Part(m, part)| == PartStart(m, part + 1)
  {
  }

  lemma {:induction false} LastFrame(sent: seq<Message>, m: Message, k: nat)
    requires IsLast(sent, m) && k < FrameSize(m)
    ensures FrameSize(m) <= |Wire(sent)|
    ensures Wire(sent)[|Wire(sent)| - FrameSize(m) + k] == Frame(m)[k]
  {
  }

  /** The byte that is copied next is the next byte of the stream. */
  lemma {:induction false} CopiedByte(sent: seq<Message>, m: Message, part: nat, k: nat, start: nat)
    requires IsLast(sent, m) && part < 3 && k < |Part(m, part)|
    requires start + FrameSize(m) == |Wire(sent)|
    ensures start + PartStart(m, part) + k < |Wire(sent)|
    ensures Wire(sent)[start + PartStart(m, part) + k] == Part(m, part)[k]
  {
    PartInFrame(m, part, k);
    LastFrame(sent, m, PartStart(m, part) + k);
  }

  lemma {:induction false} CopyIsSafe(wire: seq<byte>, sendBuf: seq<byte>, arrived: nat, end: nat)
    requires LateReadsSafe(wire, sendBuf, arrived, end)
    requires end < |wire| && arrived <= end < arrived + |sendBuf|
    ensures LateReadsSafe(wire, Put(sendBuf, end, wire[end]), arrived, end + 1)
  {
    PutFrame(sendBuf, arrived, end, wire[end]);
  }

  lemma {:induction false} CopyByteIsSafe(s: State)
    requires s.sender.Copying? && s.sender.part < 3 && s.sender.k < |Part(s.sender.msg, s.sender.part)|
    requires SenderOk(s) && FlowControl(s)
    requires LateReadsSafe(Wire(s.sent), s.sendBuf, s.arrived, WrittenEnd(s))
    ensures LateReadsSafe(Wire(s.sent), Put(s.sendBuf, WrittenEnd(s), Part(s.sender.msg, s.sender.part)[s.sender.k]),
                          s.arrived, WrittenEnd(s) + 1)
  {
    CopiedByte(s.sent, s.sender.msg, s.sender.part, s.sender.k, s.posted);
    CopyIsSafe(Wire(s.sent), s.sendBuf, s.arrived, WrittenEnd(s));
  }

  lemma {:induction false} CopyByteKeeps(s: State)
    requires Inv(s) && Enabled(s, CopyByte)
    ensures Inv(Do(s, CopyByte))
  {
    CopyByteIsSafe(s);
  }

  lemma {:induction false} EndCopyKeeps(s: State)
    requires Inv(s) && Enabled(s, EndCopy)
    ensures Inv(Do(s, EndCopy))
  {
  }

  lemma {:induction false} SegmentInRange(n: nat, lo: nat, hi: nat)
    requires n > 0 && lo < hi
    ensures lo < SegmentEnd(n, lo, hi) <= hi
  {
  }

  lemma {:induction false} PostKeeps(s: State, inln: bool)
    requires Inv(s) && Enabled(s, Post(inln))
    ensures Inv(Do(s, Post(inln)))
  {
    SegmentInRange(|s.sendBuf|, s.posted, s.sendPos);
    var end := SegmentEnd(|s.sendBuf|, s.posted, s.sendPos);
    assert FetchedOk(Wire(s.sent), s.fetched + Snapshot(s.sendBuf, s.posted, end), s.arrived, end);
  }

  lemma {:induction false} FetchKeeps(s: State, p: nat)
    requires Inv(s) && Enabled(s, Fetch(p))
    ensures Inv(Do(s, Fetch(p)))
  {
  }

  lemma {:induction false} FrontToBackIsDisciplined(sent: seq<Message>, landed: set<nat>, arrived: nat)
    requires FrontToBack(landed, arrived)
    ensures Inbox.Discipline(sent, landed)
  {
    forall i | 0 <= i < |sent| ensures Inbox.PayloadFirst(sent, landed, i) {
      var o, m := Offset(sent, i), sent[i];
      assert o + 8 + |m| in landed <==> o + 8 + |m| < arrived;
    }
  }

  lemma {:induction false} LandKeepsReceiver(sent: seq<Message>, r: Inbox.Receiver, arrived: nat)
    requires Inbox.Inv(sent, r) && FrontToBack(r.landed, arrived)
    requires arrived < |Wire(sent)| && arrived < r.readPos + |r.ring|
    ensures Inbox.Inv(sent, Inbox.Land(r, arrived, Wire(sent)[arrived]))
    ensures FrontToBack(r.landed + {arrived}, arrived + 1)
  {
    assert FrontToBack(r.landed + {arrived}, arrived + 1);
    FrontToBackIsDisciplined(sent, r.landed + {arrived}, arrived + 1);
    Inbox.LandKeeps(sent, r, arrived);
  }

  lemma {:induction false} LandKeepsCard(wire: seq<byte>, sendBuf: seq<byte>, fetched: map<nat, byte>, arrived: nat, posted: nat, end: nat)
    requires LateReadsSafe(wire, sendBuf, arrived, end) && FetchedOk(wire, fetched, arrived, posted)
    ensures LateReadsSafe(wire, sendBuf, arrived + 1, end) && FetchedOk(wire, fetched - {arrived}, arrived + 1, posted)
  {
  }

  lemma {:induction false} LandKeeps(s: State)
    requires Inv(s) && Enabled(s, Land)
    ensures Inv(Do(s, Land))
  {
    LandKeepsCard(Wire(s.sent), s.sendBuf, s.fetched, s.arrived, s.posted, WrittenEnd(s));
    LandKeepsReceiver(s.sent, s.receiver, s.arrived);
  }

  lemma {:induction false} ReceiveKeeps(s: State, step: Inbox.Step)
    requires Inv(s) && Enabled(s, Receive(step)) && Inbox.AllUnambiguous(s.sent)
    ensures Inv(Do(s, Receive(step)))
  {
    Inbox.StepKeeps(s.sent, s.receiver, step);
    if step.Publish? {
      assert s.receiver.readPos + FrameSize(s.receiver.phase.out) - 1 in s.receiver.landed;
    }
  }

  /** Only the receiver depends on the payloads; sender and card keep the invariant for any messages. */
  lemma {:induction false} SendingKeeps(s: State, step: Step)
    requires Inv(s) && Enabled(s, step) && !step.Receive?
    ensures Inv(Do(s, step))
  {
    match step
    case BeginSend(m) => BeginSendKeeps(s, m);
    case ReadRemotePosition => WaitingKeeps(s, step);
    case StartCopy => WaitingKeeps(s, step);
    case CopyByte => CopyByteKeeps(s);
    case EndCopy => EndCopyKeeps(s);
    case Post(inln) => PostKeeps(s, inln);
    case Fetch(p) => FetchKeeps(s, p);
    case Land => LandKeeps(s);
  }

  lemma {:induction false} StepKeeps(s: State, step: Step)
    requires Inv(s) && Enabled(s, step) && Inbox.AllUnambiguous(s.sent)
    ensures Inv(Do(s, step))
  {
    if step.Receive? {
      ReceiveKeeps(s, step.step);
    } else {
      SendingKeeps(s, step);
    }
  }

  // ----- whole runs -----

  predicate Legal(s: State, steps: seq<Step>)
    decreases |steps|
  {
    steps == [] || (Enabled(s, steps[0]) && Legal(Do(s, steps[0]), steps[1..]))
  }

  function Run(s: State, steps: seq<Step>): State
    requires Legal(s, steps)
    decreases |steps|
  {
    if steps == [] then s else Run(Do(s, steps[0]), steps[1..])
  }

  function Handing(step: Step): seq<Message> {
    if step.BeginSend? then [step.m] else []
  }

  /** What the caller handed to `send`, read off the calls alone. */
  function Handed(steps: seq<Step>): seq<Message> {
    if steps == [] then [] else Handing(steps[0]) + Handed(steps[1..])
  }

  lemma {:induction false} StepSends(s: State, step: Step)
    requires Enabled(s, step)
    ensures Do(s, step).sent == s.sent + Handing(step)
  {
  }

  /** What counts as sent is exactly what was handed over, message for message. */
  lemma {:induction false} SentIsHanded(s: State, steps: seq<Step>)
    requires Legal(s, steps)
    ensures Run(s, steps).sent == s.sent + Handed(steps)
    decreases |steps|
  {
    if steps != [] {
      var s1 := Do(s, steps[0]);
      StepSends(s, steps[0]);
      SentIsHanded(s1, steps[1..]);
      Associative(s.sent, Handing(steps[0]), Handed(steps[1..]));
    }
  }

  lemma {:induction false} SentGrows(s: State, steps: seq<Step>)
    requires Legal(s, steps)
    ensures s.sent <= Run(s, steps).sent
  {
    SentIsHanded(s, steps);
  }

  lemma {:induction false} RunKeeps(s: State, steps: seq<Step>)
    requires Inv(s) && Legal(s, steps)
    requires Inbox.AllUnambiguous(Run(s, steps).sent)
    ensures Inv(Run(s, steps))
    decreases |steps|
  {
    if steps != [] {
      SentGrows(s, steps);
      StepKeeps(s, steps[0]);
      RunKeeps(Do(s, steps[0]), steps[1..]);
    }
  }

  lemma {:induction false} RunConcat(s: State, a: seq<Step>, b: seq<Step>)
    requires Legal(s, a) && Legal(Run(s, a), b)
    ensures Legal(s, a + b) && Run(s, a + b) == Run(Run(s, a), b)
    decreases |a|
  {
    if a == [] {
      assert a + b == b;
    } else {
      assert (a + b)[0] == a[0] && (a + b)[1..] == a[1..] + b;
      RunConcat(Do(s, a[0]), a[1..], b);
    }
  }

  lemma {:induction false} RunCons(s: State, step: Step, b: seq<Step>)
    requires Enabled(s, step) && Legal(Do(s, step), b)
    ensures Legal(s, [step] + b) && Run(s, [step] + b) == Run(Do(s, step), b)
  {
    assert ([step] + b)[1..] == b;
  }

  lemma {:induction false} Reached(n: nat, steps: seq<Step>)
    requires n >= 16 && Legal(Init(n), steps) && Inbox.AllUnambiguous(Handed(steps))
    ensures Inv(Run(Init(n), steps)) && Run(Init(n), steps).sent == Handed(steps)
  {
    SentIsHanded(Init(n), steps);
    assert [] + Handed(steps) == Handed(steps);
    InitInv(n);
    RunKeeps(Init(n), steps);
  }

  /** Torn-read safety over every interleaving: what was received is a prefix of what was handed to `send`. */
  lemma {:induction false} ReceivedIsPrefixOfSent(n: nat, steps: seq<Step>)
    requires n >= 16 && Legal(Init(n), steps)
    requires Inbox.AllUnambiguous(Handed(steps))
    ensures Run(Init(n), steps).receiver.received <= Handed(steps)
  {
    Reached(n, steps);
  }

  lemma {:induction false} SizesStay(s: State, steps: seq<Step>)
    requires Legal(s, steps)
    ensures |Run(s, steps).sendBuf| == |s.sendBuf|
    ensures |Run(s, steps).receiver.ring| == |s.receiver.ring|
    decreases |steps|
  {
    if steps != [] {
      SizesStay(Do(s, steps[0]), steps[1..]);
    }
  }

  /** Flow control: the sender's idea of the read position is never ahead of the real one, which is never
      ahead of the arrivals, and so on, and nothing is ever written more than one ring ahead.  Every slot
      that does not hold an arrived, unread byte is zero, so arriving bytes only ever hit zeroed slots. */
  lemma {:induction false} FlowControlAlways(n: nat, steps: seq<Step>)
    requires n >= 16
    requires Legal(Init(n), steps)
    requires Inbox.AllUnambiguous(Handed(steps))
    ensures var s := Run(Init(n), steps);
            && |s.receiver.ring| == n
            && s.cached <= s.receiver.readPos <= s.arrived <= s.posted <= s.sendPos <= s.cached + n
            && forall p: nat :: s.arrived <= p < s.receiver.readPos + n ==> At(s.receiver.ring, p) == 0
  {
    Reached(n, steps);
    SizesStay(Init(n), steps);
  }

  /** Late DMA: whatever was posted and has not arrived can still be read from the send buffer. */
  lemma {:induction false} LateReadsAlwaysSafe(n: nat, steps: seq<Step>)
    requires n >= 16
    requires Legal(Init(n), steps)
    requires Inbox.AllUnambiguous(Handed(steps))
    ensures var s := Run(Init(n), steps);
            && |s.sendBuf| == n && s.posted <= |Wire(Handed(steps))|
            && forall p: nat :: s.arrived <= p < s.posted ==> At(s.sendBuf, p) == Wire(Handed(steps))[p]
  {
    Reached(n, steps);
    SizesStay(Init(n), steps);
  }
}
