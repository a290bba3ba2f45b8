/** The doubly mapped ring cannot get stuck either, whichever way messages are sent: from every reachable state a sender
    that waits for space is released, and everything handed to `send` can still be delivered. */
module VirtualProgress {
  import opened Frames
  import Inbox
  import Polling
  import Intake
  import opened VirtualChannel

  // ----- the receiver -----

  function Lift(steps: seq<Inbox.Step>): seq<Step> {
    if steps == [] then [] else [Receive(steps[0])] + Lift(steps[1..])
  }

  lemma {:induction false} LiftRun(s: State, steps: seq<Inbox.Step>)
    requires |s.sendBuf| == |s.receiver.ring| > 0 && Polling.Legal(s.receiver, steps)
    ensures Legal(s, Lift(steps)) && Run(s, Lift(steps)) == s.(receiver := Polling.Run(s.receiver, steps))
    decreases |steps|
  {
    if steps != [] {
      LiftRun(Do(s, Receive(steps[0])), steps[1..]);
      RunCons(s, Receive(steps[0]), Lift(steps[1..]));
    }
  }

  ghost predicate Good(s: State) {
    Inv(s) && OrderSuffices(s) && Inbox.AllUnambiguous(s.sent)
  }

  /** The receiver takes in the first j messages, which have landed. */
  lemma {:induction false} TakeArrived(s: State, j: nat) returns (steps: seq<Step>)
    requires Good(s) && |s.receiver.received| <= j <= |s.sent|
    requires Inbox.AllLanded(s.receiver.landed, s.receiver.readPos, Offset(s.sent, j))
    ensures Legal(s, steps) && Good(Run(s, steps))
    ensures Run(s, steps) == s.(receiver := Run(s, steps).receiver) && |Run(s, steps).receiver.received| == j
  {
    var taking := Intake.TakeArrived(s.sent, s.receiver, j);
    LiftRun(s, taking);
    RunKeeps(s, Lift(taking));
    steps := Lift(taking);
  }

  // ----- the card -----

  /** Only what has landed and what is retired differs. */
  ghost predicate OnlyCardMoved(s: State, s': State) {
    s' == s.(retired := s'.retired, receiver := s.receiver.(ring := s'.receiver.ring, landed := s'.receiver.landed))
  }

  lemma {:induction false} LandNext(s: State, p: nat) returns (s': State)
    requires Good(s) && s.retired < |s.writes| && s.writes[s.retired].lo <= p < s.writes[s.retired].hi
    requires Inbox.AllLanded(s.receiver.landed, s.writes[s.retired].lo, p) && p !in s.receiver.landed
    ensures Enabled(s, Land(p)) && s' == Do(s, Land(p)) && Good(s') && OnlyCardMoved(s, s') && s'.retired == s.retired
    ensures s'.receiver.landed == s.receiver.landed + {p}
  {
    assert InPlace(s.sent, s.paranoid, s.writes[s.retired], s.retired);
    LandKeeps(s, p);
    s' := Do(s, Land(p));
  }

  /** The bytes of the write that is arriving land from position p on, those that have not landed yet. */
  lemma {:induction false} LandFrom(s: State, p: nat) returns (steps: seq<Step>)
    requires Good(s) && s.retired < |s.writes| && s.writes[s.retired].lo <= p <= s.writes[s.retired].hi
    requires Inbox.AllLanded(s.receiver.landed, s.writes[s.retired].lo, p)
    ensures Legal(s, steps) && Good(Run(s, steps)) && OnlyCardMoved(s, Run(s, steps)) && Run(s, steps).retired == s.retired
    ensures Inbox.AllLanded(Run(s, steps).receiver.landed, s.writes[s.retired].lo, s.writes[s.retired].hi)
    decreases s.writes[s.retired].hi - p
  {
    var w := s.writes[s.retired];
    if p == w.hi {
      return [];
    }
    if p in s.receiver.landed {
      steps := LandFrom(s, p + 1);
      return;
    }
    var s1 := LandNext(s, p);
    var rest := LandFrom(s1, p + 1);
    RunCons(s, Land(p), rest);
    steps := [Land(p)] + rest;
  }

  /** The next write arrives and is retired. */
  lemma {:induction false} OneWriteArrives(s: State) returns (steps: seq<Step>)
    requires Good(s) && s.retired < |s.writes|
    ensures Legal(s, steps) && Good(Run(s, steps)) && OnlyCardMoved(s, Run(s, steps)) && Run(s, steps).retired == s.retired + 1
  {
    assert InPlace(s.sent, s.paranoid, s.writes[s.retired], s.retired);
    steps := LandFrom(s, s.writes[s.retired].lo);
    var s1 := Run(s, steps);
    RetireKeeps(s1);
    Lone(s1, Retire);
    RunConcat(s, steps, [Retire]);
    steps := steps + [Retire];
  }

  /** Everything posted arrives, whatever sender and receiver are doing. */
  lemma {:induction false} CardFinishes(s: State) returns (steps: seq<Step>)
    requires Good(s)
    ensures Legal(s, steps) && Good(Run(s, steps)) && OnlyCardMoved(s, Run(s, steps))
    ensures Run(s, steps).retired == |s.writes|
    decreases |s.writes| - s.retired
  {
    if s.retired == |s.writes| {
      return [];
    }
    steps := OneWriteArrives(s);
    var rest := CardFinishes(Run(s, steps));
    RunConcat(s, steps, rest);
    steps := steps + rest;
  }

  // ----- everything posted is taken in -----

  lemma {:induction false} PostedHasLanded(s: State, h: nat)
    requires Inv(s) && s.retired == |s.writes| && (s.sender.Posting? ==> !s.sender.dataPosted) && h == Posted(s.sent, s.sender)
    ensures Inbox.AllLanded(s.receiver.landed, s.receiver.readPos, Offset(s.sent, h))
  {
    forall p: nat | s.receiver.readPos <= p < Offset(s.sent, h) ensures p in s.receiver.landed {
      assert FrameOf(s.paranoid, |s.writes|) == h;
      assert Covers(s.sent, s.paranoid, s.retired, p);
    }
  }

  lemma {:induction false} TakenWasPosted(s: State)
    requires Inv(s) && (s.sender.Posting? ==> !s.sender.dataPosted)
    ensures |s.receiver.received| <= Posted(s.sent, s.sender)
  {
    ReceivedWasPosted(s);
    var i, h := |s.receiver.received|, Posted(s.sent, s.sender);
    if i > h {
      OffsetsGrow(s.sent, h, i);
      assert false;
    }
  }

  lemma {:induction false} TakePosted(s: State) returns (steps: seq<Step>)
    requires Good(s) && (s.sender.Idle? || s.sender.AwaitingSpace?)
    ensures Legal(s, steps) && Good(Run(s, steps))
    ensures var s' := Run(s, steps);
            && s'.sent == s.sent && s'.sender == s.sender && s'.sendPos == s.sendPos && |s'.sendBuf| == |s.sendBuf|
            && |s'.receiver.received| == Posted(s.sent, s.sender)
  {
    steps := CardFinishes(s);
    var s1 := Run(s, steps);
    TakenWasPosted(s1);
    PostedHasLanded(s1, Posted(s.sent, s.sender));
    var taking := TakeArrived(s1, Posted(s.sent, s.sender));
    RunConcat(s, steps, taking);
    steps := steps + taking;
  }

  // ----- the sender -----

  lemma {:induction false} RoomAfterRefresh(s: State)
    requires Inv(s) && s.sender.AwaitingSpace? && s.cached == s.sendPos
    ensures Enabled(s, EndWait)
  {
    assert Fits(s.sent[|s.sent| - 1], |s.receiver.ring|);
  }

  /** A sender that waits for space is released by arrivals, receives and one more read of the position. */
  lemma {:induction false} SenderIsReleased(s: State) returns (steps: seq<Step>)
    requires Good(s) && s.sender.AwaitingSpace?
    ensures Legal(s, steps) && Good(Run(s, steps))
    ensures Run(s, steps).sent == s.sent && Run(s, steps).sender == s.sender && Enabled(Run(s, steps), EndWait)
  {
    steps := TakePosted(s);
    var s1 := Run(s, steps);
    if Enabled(s1, EndWait) {
      return;
    }
    WaitingKeeps(s1, ReadRemotePosition);
    RoomAfterRefresh(Do(s1, ReadRemotePosition));
    Lone(s1, ReadRemotePosition);
    RunConcat(s, steps, [ReadRemotePosition]);
    steps := steps + [ReadRemotePosition];
  }

  function SenderStep(sender: Sender): Step {
    match sender
    case Idle => Post
    case Filling(m, k) => if k < FrameSize(m) then FillByte else EndFill
    case AwaitingSpace(_) => EndWait
    case Posting(_, _) => Post
  }

  function SenderLeft(sender: Sender): nat {
    match sender
    case Idle => 0
    case Posting(_, dataPosted) => if dataPosted then 1 else 2
    case AwaitingSpace(_) => 3
    case Filling(m, k) => if k <= FrameSize(m) then 4 + FrameSize(m) - k else 4
  }

  lemma {:induction false} SenderStepKeeps(s: State)
    requires Good(s) && !s.sender.Idle? && Enabled(s, SenderStep(s.sender))
    ensures var s' := Do(s, SenderStep(s.sender));
            Good(s') && s'.sent == s.sent && SenderLeft(s'.sender) < SenderLeft(s.sender)
  {
    StepKeeps(s, SenderStep(s.sender));
  }

  lemma {:induction false} SenderMoves(s: State) returns (steps: seq<Step>)
    requires Good(s) && !s.sender.Idle?
    ensures Legal(s, steps) && Good(Run(s, steps)) && Run(s, steps).sent == s.sent
    ensures SenderLeft(Run(s, steps).sender) < SenderLeft(s.sender)
  {
    steps := [];
    if s.sender.AwaitingSpace? {
      steps := SenderIsReleased(s);
    }
    var s1 := Run(s, steps);
    var step := SenderStep(s1.sender);
    SenderStepKeeps(s1);
    Lone(s1, step);
    RunConcat(s, steps, [step]);
    steps := steps + [step];
  }

  lemma {:induction false} AllTaken(s: State)
    requires Inv(s) && |s.receiver.received| == |s.sent|
    ensures s.receiver.received == s.sent
  {
  }

  /** No state is a dead end: everything handed to `send` so far can still be delivered. */
  lemma {:induction false} EverythingCanBeDelivered(s: State) returns (steps: seq<Step>)
    requires Good(s)
    ensures Legal(s, steps)
    ensures Run(s, steps).sent == s.sent && Run(s, steps).receiver.received == s.sent && Run(s, steps).sender.Idle?
    decreases SenderLeft(s.sender)
  {
    if s.sender.Idle? {
      steps := TakePosted(s);
      AllTaken(Run(s, steps));
      return;
    }
    steps := SenderMoves(s);
    var rest := EverythingCanBeDelivered(Run(s, steps));
    RunConcat(s, steps, rest);
    steps := steps + rest;
  }

  /** The same, told about whole runs of either way of sending. */
  lemma {:induction false} NoRunIsStuck(n: nat, paranoid: bool, anyOrder: bool, steps: seq<Step>)
    requires n >= 16 && (paranoid || !anyOrder) && Legal(Init(n, paranoid, anyOrder), steps)
    requires Inbox.AllUnambiguous(Handed(steps))
    ensures exists more :: Delivers(Init(n, paranoid, anyOrder), steps, more)
  {
    var s0 := Init(n, paranoid, anyOrder);
    Reached(n, paranoid, anyOrder, steps);
    SameMode(s0, steps);
    var more := EverythingCanBeDelivered(Run(s0, steps));
    RunConcat(s0, steps, more);
    SentIsHanded(s0, steps + more);
    assert [] + Handed(steps + more) == Handed(steps + more);
    assert Delivers(s0, steps, more);
  }

  /** Continued by `more`, everything that had been handed over is received, and nothing else was handed over. */
  ghost predicate Delivers(s: State, steps: seq<Step>, more: seq<Step>) {
    && Legal(s, steps + more) && Handed(steps + more) == Handed(steps)
    && Run(s, steps + more).receiver.received == Handed(steps) && Run(s, steps + more).sender.Idle?
  }

  /** One more message is handed over and delivered. */
  lemma {:induction false} DeliverNext(n: nat, paranoid: bool, anyOrder: bool, steps: seq<Step>, m: Message) returns (longer: seq<Step>)
    requires n >= 16 && (paranoid || !anyOrder) && Legal(Init(n, paranoid, anyOrder), steps)
    requires Inbox.AllUnambiguous(Handed(steps) + [m]) && Fits(m, n) && Run(Init(n, paranoid, anyOrder), steps).sender.Idle?
    ensures Legal(Init(n, paranoid, anyOrder), longer) && Handed(longer) == Handed(steps) + [m]
    ensures var s := Run(Init(n, paranoid, anyOrder), longer); s.receiver.received == Handed(longer) && s.sender.Idle?
  {
    var s0 := Init(n, paranoid, anyOrder);
    assert forall i :: 0 <= i < |Handed(steps)| ==> Handed(steps)[i] == (Handed(steps) + [m])[i];
    Reached(n, paranoid, anyOrder, steps);
    SizesStay(s0, steps);
    Lone(Run(s0, steps), BeginSend(m));
    RunConcat(s0, steps, [BeginSend(m)]);
    var begun := steps + [BeginSend(m)];
    SentIsHanded(s0, begun);
    assert [] + Handed(begun) == Handed(begun);
    NoRunIsStuck(n, paranoid, anyOrder, begun);
    var more :| Delivers(s0, begun, more);
    longer := begun + more;
  }

  lemma {:induction false} DeliverAll(n: nat, paranoid: bool, anyOrder: bool, ms: seq<Message>) returns (steps: seq<Step>)
    requires n >= 16 && (paranoid || !anyOrder) && Inbox.MessagesFit(ms, n) && Inbox.AllUnambiguous(ms)
    ensures Legal(Init(n, paranoid, anyOrder), steps) && Handed(steps) == ms
    ensures var s := Run(Init(n, paranoid, anyOrder), steps); s.receiver.received == ms && s.sender.Idle?
    decreases |ms|
  {
    if ms == [] {
      return [];
    }
    var k := |ms| - 1;
    steps := DeliverAll(n, paranoid, anyOrder, ms[..k]);
    assert Fits(ms[k], n) && ms[..k] + [ms[k]] == ms;
    steps := DeliverNext(n, paranoid, anyOrder, steps, ms[k]);
  }

  /** Any sequence of messages that fit the ring can be handed over, either way of sending, and is then delivered in
      full. */
  lemma {:induction false} AnySequenceGetsThrough(n: nat, paranoid: bool, anyOrder: bool, ms: seq<Message>)
    requires n >= 16 && (paranoid || !anyOrder) && Inbox.MessagesFit(ms, n) && Inbox.AllUnambiguous(ms)
    ensures exists steps :: Legal(Init(n, paranoid, anyOrder), steps) && Handed(steps) == ms &&
                            Run(Init(n, paranoid, anyOrder), steps).receiver.received == ms
  {
    var steps := DeliverAll(n, paranoid, anyOrder, ms);
  }

  lemma {:induction false} SameMode(s: State, steps: seq<Step>)
    requires Legal(s, steps)
    ensures Run(s, steps).paranoid == s.paranoid && Run(s, steps).anyOrder == s.anyOrder
    decreases |steps|
  {
    if steps != [] {
      SameMode(Do(s, steps[0]), steps[1..]);
    }
  }
}
