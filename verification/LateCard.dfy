/** `send` of `VirtualRDMARingBuffer` with a card that reads the bytes of a write that is not inline at any moment between
    posting and arrival.  The send buffer is filled before space is awaited, so a fill can hit bytes that the card
    has still to read.  Arrival is front to back. */
module LateCard {
  import opened Frames
  import opened Rings
  import Inbox
  import Channel
  import V = VirtualChannel

  datatype State = State(
    sendBuf: seq<byte>,
    sendPos: nat,              // everything below is posted
    cached: nat,
    sender: V.Sender,
    fetched: map<nat, byte>,   // what the card has read and not delivered yet
    arrived: nat,
    receiver: Inbox.Receiver,
    sent: seq<Message>)

  datatype Step =
    | BeginSend(m: Message)
    | FillByte
    | EndFill
    | ReadRemotePosition
    | EndWait
    | Post
    | Fetch(p: nat)
    | Land
    | Receive(step: Inbox.Step)

  function Space(s: State): int {
    |s.sendBuf| - (s.sendPos - s.cached)
  }

  predicate Enabled(s: State, step: Step) {
    |s.sendBuf| == |s.receiver.ring| > 0 &&
    match step
    case BeginSend(m) => s.sender.Idle? && Fits(m, |s.sendBuf|)
    case FillByte => s.sender.Filling? && s.sender.k < FrameSize(s.sender.msg)
    case EndFill => s.sender.Filling? && s.sender.k == FrameSize(s.sender.msg)
    case ReadRemotePosition => s.sender.AwaitingSpace? && FrameSize(s.sender.msg) > Space(s)
    case EndWait => s.sender.AwaitingSpace? && FrameSize(s.sender.msg) <= Space(s)
    case Post => s.sender.Posting?
    case Fetch(p) => s.arrived <= p < s.sendPos && p !in s.fetched
    case Land => s.arrived < s.sendPos && s.arrived in s.fetched
    case Receive(step) => Inbox.Enabled(s.receiver, step)
  }

  /** Short frames are posted inline. */
  predicate Inline(m: Message) {
    FrameSize(m) <= MAX_INLINE
  }

  /** An inline frame is read when it is posted. */
  function FetchedAtPost(sendBuf: seq<byte>, fetched: map<nat, byte>, m: Message, start: nat): map<nat, byte>
    requires |sendBuf| > 0
  {
    if Inline(m) then fetched + Channel.Snapshot(sendBuf, start, start + FrameSize(m)) else fetched
  }

  function Do(s: State, step: Step): State
    requires Enabled(s, step)
  {
    match step
    case BeginSend(m) => s.(sent := s.sent + [m], sender := V.Filling(m, 0))
    case FillByte =>
      var o := V.FillOffset(s.sender.msg, s.sender.k);
      s.(sendBuf := Put(s.sendBuf, s.sendPos + o, Frame(s.sender.msg)[o]), sender := V.Filling(s.sender.msg, s.sender.k + 1))
    case EndFill => s.(sender := V.AwaitingSpace(s.sender.msg))
    case ReadRemotePosition => s.(cached := s.receiver.readPos)
    case EndWait => s.(sender := V.Posting(s.sender.msg, false))
    case Post =>
      s.(fetched := FetchedAtPost(s.sendBuf, s.fetched, s.sender.msg, s.sendPos),
         sendPos := s.sendPos + FrameSize(s.sender.msg), sender := V.Idle)
    case Fetch(p) => s.(fetched := s.fetched[p := At(s.sendBuf, p)])
    case Land =>
      s.(receiver := Inbox.Land(s.receiver, s.arrived, s.fetched[s.arrived]),
         fetched := s.fetched - {s.arrived},
         arrived := s.arrived + 1)
    case Receive(step) => s.(receiver := Inbox.Do(s.receiver, step))
  }

  function Init(n: nat): State {
    State(Zeros(n), 0, 0, V.Idle, map[], 0, Inbox.Fresh(n), [])
  }

  predicate Legal(s: State, steps: seq<Step>)
    decreases |steps|
  {
    steps == [] || (Enabled(s, steps[0]) && Legal(Do(s, steps[0]), steps[1..]))
  }

  function Run(s: State, steps: seq<Step>): State
    requires Legal(s, steps)
    decreases |steps|
  {
    if steps == [] then s else Run(Do(s, steps[0]), steps[1..])
  }

  // ----- careful callers -----

  /** There is room for the frame of m as far as the sender knows. */
  predicate Room(s: State, m: Message) {
    s.sendPos + FrameSize(m) <= s.cached + |s.sendBuf|
  }

  predicate AllInline(ms: seq<Message>) {
    forall i :: 0 <= i < |ms| ==> Inline(ms[i])
  }

  /** Every `send` found room when it was called, or came after inline frames only. */
  predicate Careful(s: State, steps: seq<Step>)
    requires Legal(s, steps)
    decreases |steps|
  {
    steps == [] ||
    ((steps[0].BeginSend? ==> Room(s, steps[0].m) || AllInline(s.sent)) && Careful(Do(s, steps[0]), steps[1..]))
  }

  // ----- the invariant of careful runs -----

  ghost predicate AllFetched(fetched: map<nat, byte>, arrived: nat, end: nat) {
    forall p: nat :: arrived <= p < end ==> p in fetched
  }

  /** What the card has still to read can still be read. */
  ghost predicate StillThere(wire: seq<byte>, sendBuf: seq<byte>, fetched: map<nat, byte>, arrived: nat, end: nat) {
    |sendBuf| > 0 && end <= |wire| &&
    forall p: nat :: arrived <= p < end && p !in fetched ==> At(sendBuf, p) == wire[p]
  }

  /** A fill cannot hit what the card has still to read. */
  ghost predicate FillIsHarmless(sender: V.Sender, limit: int, sendPos: nat, fetched: map<nat, byte>, arrived: nat) {
    sender.Idle? || sendPos + FrameSize(sender.msg) <= limit || AllFetched(fetched, arrived, sendPos)
  }

  ghost predicate InlineIsFetched(sent: seq<Message>, sender: V.Sender, fetched: map<nat, byte>, arrived: nat, end: nat) {
    AllInline(sent[..V.Posted(sent, sender)]) ==> AllFetched(fetched, arrived, end)
  }

  /** Sender and card. */
  ghost predicate SendingOk(sent: seq<Message>, sender: V.Sender, sendBuf: seq<byte>, sendPos: nat, cached: nat,
                            fetched: map<nat, byte>, arrived: nat) {
    && cached <= arrived <= sendPos
    && V.SenderOk(sent, sender, false, sendBuf, sendPos, cached)
    && StillThere(Wire(sent), sendBuf, fetched, arrived, sendPos)
    && Channel.FetchedOk(Wire(sent), fetched, arrived, sendPos)
    && FillIsHarmless(sender, cached + |sendBuf|, sendPos, fetched, arrived)
    && InlineIsFetched(sent, sender, fetched, arrived, sendPos)
  }

  ghost predicate Inv(s: State) {
    && |s.sendBuf| == |s.receiver.ring|
    && Inbox.Inv(s.sent, s.receiver)
    && Channel.FrontToBack(s.receiver.landed, s.arrived)
    && s.cached <= s.receiver.readPos <= s.arrived
    && AllSendingOk(s)
  }

  lemma {:induction false} InitInv(n: nat)
    requires n >= 16
    ensures Inv(Init(n))
  {
    Inbox.FreshInv(n);
  }

  // ----- preservation -----

  lemma {:induction false} BeginSendKeeps(s: State, m: Message)
    requires Inv(s) && Enabled(s, BeginSend(m)) && (Room(s, m) || AllInline(s.sent))
    ensures Inv(Do(s, BeginSend(m)))
  {
    Inbox.SendKeeps(s.sent, s.receiver, m);
    WireSnoc(s.sent, m);
    OffsetStable(s.sent, m, |s.sent|);
    assert (s.sent + [m])[..|s.sent|] == s.sent && s.sent[..|s.sent|] == s.sent;
  }

  /** The byte that is filled in lies within one ring of every byte it must not hit. */
  lemma {:induction false} FillKeepsOthers(wire: seq<byte>, sendBuf: seq<byte>, fetched: map<nat, byte>, arrived: nat, end: nat, q: nat, b: byte)
    requires StillThere(wire, sendBuf, fetched, arrived, end) && arrived <= end <= q
    requires q < arrived + |sendBuf| || AllFetched(fetched, arrived, end)
    ensures StillThere(wire, Put(sendBuf, q, b), fetched, arrived, end)
  {
    if q < arrived + |sendBuf| {
      PutFrame(sendBuf, arrived, q, b);
    }
  }

  lemma {:induction false} FillKeepsSender(sent: seq<Message>, m: Message, k: nat, sendBuf: seq<byte>, sendPos: nat, cached: nat)
    requires V.SenderOk(sent, V.Filling(m, k), false, sendBuf, sendPos, cached) && k < FrameSize(m) <= |sendBuf|
    ensures V.FillOffset(m, k) < FrameSize(m)
    ensures V.SenderOk(sent, V.Filling(m, k + 1), false,
                       Put(sendBuf, sendPos + V.FillOffset(m, k), Frame(m)[V.FillOffset(m, k)]), sendPos, cached)
  {
    V.FillOne(sendBuf, sendPos, m, k);
  }

  lemma {:induction false} FillKeepsSending(sent: seq<Message>, m: Message, k: nat, sendBuf: seq<byte>, sendPos: nat, cached: nat,
                                            fetched: map<nat, byte>, arrived: nat)
    requires SendingOk(sent, V.Filling(m, k), sendBuf, sendPos, cached, fetched, arrived) && k < FrameSize(m) <= |sendBuf|
    ensures V.FillOffset(m, k) < FrameSize(m)
    ensures SendingOk(sent, V.Filling(m, k + 1), Put(sendBuf, sendPos + V.FillOffset(m, k), Frame(m)[V.FillOffset(m, k)]),
                      sendPos, cached, fetched, arrived)
  {
    FillKeepsSender(sent, m, k, sendBuf, sendPos, cached);
    var o := V.FillOffset(m, k);
    FillKeepsOthers(Wire(sent), sendBuf, fetched, arrived, sendPos, sendPos + o, Frame(m)[o]);
  }

  lemma {:induction false} FilledOk(s: State)
    requires AllSendingOk(s) && Enabled(s, FillByte) && FrameSize(s.sender.msg) <= |s.sendBuf|
    ensures AllSendingOk(Do(s, FillByte))
  {
    FillKeepsSending(s.sent, s.sender.msg, s.sender.k, s.sendBuf, s.sendPos, s.cached, s.fetched, s.arrived);
  }

  lemma {:induction false} FillByteKeeps(s: State)
    requires Inv(s) && Enabled(s, FillByte)
    ensures Inv(Do(s, FillByte))
  {
    assert Fits(s.sent[|s.sent| - 1], |s.receiver.ring|);
    FilledOk(s);
  }

  lemma {:induction false} EndFillKeeps(s: State)
    requires Inv(s) && Enabled(s, EndFill)
    ensures Inv(Do(s, EndFill))
  {
    V.FilledInFull(s.sendBuf, s.sendPos, s.sender.msg);
  }

  lemma {:induction false} WaitingKeeps(s: State, step: Step)
    requires Inv(s) && Enabled(s, step) && (step.ReadRemotePosition? || step.EndWait?)
    ensures Inv(Do(s, step))
  {
  }

  /** What is posted is the last frame of the stream. */
  lemma {:induction false} PostedBytes(sent: seq<Message>, sendBuf: seq<byte>, m: Message, start: nat, p: nat)
    requires IsLast(sent, m) && start == Offset(sent, |sent| - 1) && V.Filled(sendBuf, start, m)
    requires start <= p < start + FrameSize(m)
    ensures p < |Wire(sent)| == start + FrameSize(m) && At(sendBuf, p) == Wire(sent)[p]
  {
    var i := |sent| - 1;
    FrameAt(sent, i);
    EndOffset(sent);
    assert At(sendBuf, start + (p - start)) == Frame(m)[p - start];
    assert Wire(sent)[start..Offset(sent, i + 1)][p - start] == Wire(sent)[p];
  }

  lemma {:induction false} PostedFrameIsStream(sent: seq<Message>, sendBuf: seq<byte>, m: Message, start: nat)
    requires IsLast(sent, m) && start == Offset(sent, |sent| - 1) && V.Filled(sendBuf, start, m)
    ensures start + FrameSize(m) <= |Wire(sent)|
    ensures forall p: nat :: start <= p < start + FrameSize(m) ==> At(sendBuf, p) == Wire(sent)[p]
  {
    PostedBytes(sent, sendBuf, m, start, start);
    forall p: nat | start <= p < start + FrameSize(m) ensures At(sendBuf, p) == Wire(sent)[p] {
      PostedBytes(sent, sendBuf, m, start, p);
    }
  }

  lemma {:induction false} PostKeepsCard(wire: seq<byte>, sendBuf: seq<byte>, m: Message, fetched: map<nat, byte>, arrived: nat, start: nat)
    requires StillThere(wire, sendBuf, fetched, arrived, start) && Channel.FetchedOk(wire, fetched, arrived, start)
    requires arrived <= start && start + FrameSize(m) <= |wire|
    requires forall p: nat :: start <= p < start + FrameSize(m) ==> At(sendBuf, p) == wire[p]
    ensures StillThere(wire, sendBuf, FetchedAtPost(sendBuf, fetched, m, start), arrived, start + FrameSize(m))
    ensures Channel.FetchedOk(wire, FetchedAtPost(sendBuf, fetched, m, start), arrived, start + FrameSize(m))
  {
  }

  lemma {:induction false} PostKeepsInline(sent: seq<Message>, sender: V.Sender, sendBuf: seq<byte>, fetched: map<nat, byte>, arrived: nat, start: nat)
    requires sender.Posting? && IsLast(sent, sender.msg) && |sendBuf| > 0
    requires InlineIsFetched(sent, sender, fetched, arrived, start)
    ensures InlineIsFetched(sent, V.Idle, FetchedAtPost(sendBuf, fetched, sender.msg, start), arrived, start + FrameSize(sender.msg))
  {
    var init := sent[..|sent| - 1];
    assert sent[..|sent|] == sent;
    if AllInline(sent) {
      assert Inline(sent[|sent| - 1]);
      assert AllInline(init);
    }
  }

  lemma {:induction false} PostKeepsSending(sent: seq<Message>, sender: V.Sender, sendBuf: seq<byte>, sendPos: nat, cached: nat,
                                            fetched: map<nat, byte>, arrived: nat)
    requires SendingOk(sent, sender, sendBuf, sendPos, cached, fetched, arrived) && sender.Posting?
    ensures |sendBuf| > 0
    ensures SendingOk(sent, V.Idle, sendBuf, sendPos + FrameSize(sender.msg), cached,
                      FetchedAtPost(sendBuf, fetched, sender.msg, sendPos), arrived)
  {
    PostedFrameIsStream(sent, sendBuf, sender.msg, sendPos);
    PostKeepsCard(Wire(sent), sendBuf, sender.msg, fetched, arrived, sendPos);
    PostKeepsInline(sent, sender, sendBuf, fetched, arrived, sendPos);
    PostKeepsSender(sent, sender, sendBuf, sendPos, cached);
  }

  ghost predicate AllSendingOk(s: State) {
    SendingOk(s.sent, s.sender, s.sendBuf, s.sendPos, s.cached, s.fetched, s.arrived)
  }

  lemma {:induction false} PostedOk(s: State)
    requires AllSendingOk(s) && Enabled(s, Post)
    ensures AllSendingOk(Do(s, Post))
  {
    PostKeepsSending(s.sent, s.sender, s.sendBuf, s.sendPos, s.cached, s.fetched, s.arrived);
  }

  lemma {:induction false} PostKeeps(s: State)
    requires Inv(s) && Enabled(s, Post)
    ensures Inv(Do(s, Post))
  {
    PostedOk(s);
  }

  lemma {:induction false} PostKeepsSender(sent: seq<Message>, sender: V.Sender, sendBuf: seq<byte>, sendPos: nat, cached: nat)
    requires V.SenderOk(sent, sender, false, sendBuf, sendPos, cached) && sender.Posting?
    ensures V.SenderOk(sent, V.Idle, false, sendBuf, sendPos + FrameSize(sender.msg), cached)
  {
    FrameAt(sent, |sent| - 1);
  }

  lemma {:induction false} FetchKeeps(s: State, p: nat)
    requires Inv(s) && Enabled(s, Fetch(p))
    ensures Inv(Do(s, Fetch(p)))
  {
  }

  lemma {:induction false} LandKeepsCard(wire: seq<byte>, sendBuf: seq<byte>, fetched: map<nat, byte>, arrived: nat, end: nat)
    requires StillThere(wire, sendBuf, fetched, arrived, end) && Channel.FetchedOk(wire, fetched, arrived, end)
    ensures StillThere(wire, sendBuf, fetched - {arrived}, arrived + 1, end)
    ensures Channel.FetchedOk(wire, fetched - {arrived}, arrived + 1, end)
    ensures AllFetched(fetched, arrived, end) ==> AllFetched(fetched - {arrived}, arrived + 1, end)
  {
  }

  lemma {:induction false} LandKeeps(s: State)
    requires Inv(s) && Enabled(s, Land)
    ensures Inv(Do(s, Land))
  {
    LandKeepsCard(Wire(s.sent), s.sendBuf, s.fetched, s.arrived, s.sendPos);
    Channel.LandKeepsReceiver(s.sent, s.receiver, s.arrived);
  }

  lemma {:induction false} ReceiveKeeps(s: State, step: Inbox.Step)
    requires Inv(s) && Enabled(s, Receive(step)) && Inbox.AllUnambiguous(s.sent)
    ensures Inv(Do(s, Receive(step)))
  {
    Inbox.StepKeeps(s.sent, s.receiver, step);
    if step.Publish? {
      assert s.receiver.readPos + FrameSize(s.receiver.phase.out) - 1 in s.receiver.landed;
    }
  }

  lemma {:induction false} SendingKeeps(s: State, step: Step)
    requires Inv(s) && Enabled(s, step) && !step.Receive?
    requires step.BeginSend? ==> Room(s, step.m) || AllInline(s.sent)
    ensures Inv(Do(s, step))
  {
    match step
    case BeginSend(m) => BeginSendKeeps(s, m);
    case FillByte => FillByteKeeps(s);
    case EndFill => EndFillKeeps(s);
    case ReadRemotePosition => WaitingKeeps(s, step);
    case EndWait => WaitingKeeps(s, step);
    case Post => PostKeeps(s);
    case Fetch(p) => FetchKeeps(s, p);
    case Land => LandKeeps(s);
  }

  function Handing(step: Step): seq<Message> {
    if step.BeginSend? then [step.m] else []
  }

  /** What the caller handed to `send`, read off the calls alone. */
  function Handed(steps: seq<Step>): seq<Message> {
    if steps == [] then [] else Handing(steps[0]) + Handed(steps[1..])
  }

  lemma {:induction false} StepSends(s: State, step: Step)
    requires Enabled(s, step)
    ensures Do(s, step).sent == s.sent + Handing(step)
  {
  }

  /** What counts as sent is exactly what was handed over, message for message. */
  lemma {:induction false} SentIsHanded(s: State, steps: seq<Step>)
    requires Legal(s, steps)
    ensures Run(s, steps).sent == s.sent + Handed(steps)
    decreases |steps|
  {
    if steps != [] {
      var s1 := Do(s, steps[0]);
      StepSends(s, steps[0]);
      SentIsHanded(s1, steps[1..]);
      Associative(s.sent, Handing(steps[0]), Handed(steps[1..]));
    }
  }

  lemma {:induction false} SentGrows(s: State, steps: seq<Step>)
    requires Legal(s, steps)
    ensures s.sent <= Run(s, steps).sent
  {
    SentIsHanded(s, steps);
  }

  lemma {:induction false} CarefulRunKeeps(s: State, steps: seq<Step>)
    requires Inv(s) && Legal(s, steps) && Careful(s, steps) && Inbox.AllUnambiguous(Run(s, steps).sent)
    ensures Inv(Run(s, steps))
    decreases |steps|
  {
    if steps != [] {
      var step := steps[0];
      SentGrows(s, steps);
      if step.Receive? {
        ReceiveKeeps(s, step.step);
      } else {
        SendingKeeps(s, step);
      }
      CarefulRunKeeps(Do(s, step), steps[1..]);
    }
  }

  /** If every `send` finds room when it is called, or comes after inline frames only, then however late the card reads,
      what was received is a prefix of what was handed over, and no unread byte of a posted write is ever overwritten. */
  lemma {:induction false} CarefulRunsAreSafe(n: nat, steps: seq<Step>)
    requires n >= 16 && Legal(Init(n), steps) && Careful(Init(n), steps)
    requires Inbox.AllUnambiguous(Handed(steps))
    ensures var s, wire := Run(Init(n), steps), Wire(Handed(steps));
            && s.receiver.received <= Handed(steps)
            && |s.sendBuf| > 0 && s.sendPos <= |wire|
            && forall p: nat :: s.arrived <= p < s.sendPos && p !in s.fetched ==> At(s.sendBuf, p) == wire[p]
  {
    SentIsHanded(Init(n), steps);
    assert [] + Handed(steps) == Handed(steps);
    InitInv(n);
    CarefulRunKeeps(Init(n), steps);
  }
}
