/** The framed channel cannot get stuck: from every reachable state a blocked sender is released by finitely
    many arrivals and receives, and everything sent can still be delivered. */
module Progress {
  import opened Frames
  import Inbox
  import Intake
  import opened Channel
  import opened Schedules

  function Taken(s: State): nat {
    |s.receiver.received|
  }

  lemma {:induction false} ReleasingConcat(a: seq<Step>, b: seq<Step>)
    requires AllReleasing(a) && AllReleasing(b)
    ensures AllReleasing(a + b)
  {
  }

  /** One complete poll, as a run of the channel. */
  lemma {:induction false} PollOnce(s: State) returns (steps: seq<Step>)
    requires Inv(s) && Inbox.AllUnambiguous(s.sent)
    ensures Legal(s, steps) && AllReleasing(steps)
    ensures var s' := Run(s, steps); Inv(s') && OnlyReceiverMoved(s, s') && Intake.Polled(s.sent, s.receiver, s'.receiver)
  {
    var polling := Intake.PollOnce(s.sent, s.receiver);
    ReceiverRuns(s, polling);
    steps := Lift(polling);
  }

  /** The receiver takes in every message that has arrived completely: the first j. */
  lemma {:induction false} TakeArrived(s: State, j: nat) returns (steps: seq<Step>)
    requires Inv(s) && Inbox.AllUnambiguous(s.sent)
    requires Taken(s) <= j <= |s.sent| && Offset(s.sent, j) <= s.arrived
    ensures Legal(s, steps) && AllReleasing(steps)
    ensures var s' := Run(s, steps); Inv(s') && OnlyReceiverMoved(s, s') && Taken(s') == j
  {
    assert Inbox.AllLanded(s.receiver.landed, s.receiver.readPos, Offset(s.sent, j));
    var taking := Intake.TakeArrived(s.sent, s.receiver, j);
    ReceiverRuns(s, taking);
    steps := Lift(taking);
  }

  lemma {:induction false} PostedBoundary(s: State)
    requires Inv(s) && (s.sender.AwaitingSpace? || s.sender.Idle?)
    ensures |s.sent| > 0 || s.sender.Idle?
    ensures s.posted == Offset(s.sent, if s.sender.Idle? then |s.sent| else |s.sent| - 1)
  {
    EndOffset(s.sent);
    if s.sender.AwaitingSpace? {
      FrameAt(s.sent, |s.sent| - 1);
      assert s.sent[..|s.sent|] == s.sent;
    }
  }

  lemma {:induction false} TakenIsPosted(s: State, j: nat)
    requires Inv(s) && j <= |s.sent| && Offset(s.sent, j) == s.posted
    ensures Taken(s) <= j
  {
    if Taken(s) > j {
      OffsetsGrow(s.sent, j, Taken(s));
      assert false;
    }
  }

  /** After all posted frames were taken in and the read position was fetched, only the frame in progress counts. */
  lemma {:induction false} RoomAfterRefresh(s: State)
    requires Inv(s) && s.sender.AwaitingSpace?
    requires s.cached == s.posted
    ensures |Wire(s.sent)| <= s.cached + |s.sendBuf|
    ensures Enabled(s, StartCopy)
  {
    assert Fits(s.sent[|s.sent| - 1], |s.receiver.ring|);
  }

  /** A blocked sender asks for the read position once more and sees that everything posted was consumed. */
  lemma {:induction false} Refresh(s: State) returns (steps: seq<Step>)
    requires Inv(s) && s.sender.AwaitingSpace?
    requires s.receiver.readPos == s.posted
    ensures Legal(s, steps) && AllReleasing(steps)
    ensures var s' := Run(s, steps);
            Inv(s') && Enabled(s', StartCopy) && s'.sent == s.sent && s'.sender == s.sender && s'.sendBuf == s.sendBuf
  {
    if Enabled(s, StartCopy) {
      return [];
    }
    var step := ReadRemotePosition;
    SendingKeeps(s, step);
    RoomAfterRefresh(Do(s, step));
    RunCons(s, step, []);
    return [step];
  }

  /** From any state: all posted bytes arrive and all posted frames are taken in. */
  lemma {:induction false} TakePosted(s: State) returns (steps: seq<Step>)
    requires Inv(s) && Inbox.AllUnambiguous(s.sent)
    requires s.sender.AwaitingSpace? || s.sender.Idle?
    ensures Legal(s, steps) && AllReleasing(steps)
    ensures var s' := Run(s, steps);
            && Inv(s') && s'.sent == s.sent && s'.sender == s.sender && s'.cached == s.cached
            && s'.receiver.readPos == s'.posted == s.posted
            && Taken(s') == if s.sender.Idle? then |s.sent| else |s.sent| - 1
  {
    var j := if s.sender.Idle? then |s.sent| else |s.sent| - 1;
    PostedBoundary(s);
    TakenIsPosted(s, j);
    steps := CardFinishes(s);
    var taking := TakeArrived(Run(s, steps), j);
    RunConcat(s, steps, taking);
    ReleasingConcat(steps, taking);
    steps := steps + taking;
  }

  /** Progress: a sender that waits for space, before any of its three parts, is released by finitely many
      arrivals, receives and reads of the remote position. */
  lemma {:induction false} SenderIsReleased(s: State) returns (steps: seq<Step>)
    requires Inv(s) && Inbox.AllUnambiguous(s.sent)
    requires s.sender.AwaitingSpace?
    ensures Legal(s, steps) && AllReleasing(steps)
    ensures Inv(Run(s, steps)) && Run(s, steps).sender == s.sender && Run(s, steps).sent == s.sent
    ensures Enabled(Run(s, steps), StartCopy)
  {
    steps := TakePosted(s);
    var more := Refresh(Run(s, steps));
    RunConcat(s, steps, more);
    ReleasingConcat(steps, more);
    steps := steps + more;
  }

  /** The sender makes its next own step, after being released if it has to wait. */
  lemma {:induction false} SenderMoves(s: State) returns (steps: seq<Step>)
    requires Inv(s) && Inbox.AllUnambiguous(s.sent) && !s.sender.Idle?
    ensures Legal(s, steps)
    ensures var s' := Run(s, steps);
            && Inv(s') && s'.sent == s.sent
            && (SenderPhase(s') < SenderPhase(s) || (SenderPhase(s') == SenderPhase(s) && SenderBytes(s') < SenderBytes(s)))
  {
    steps := [];
    if s.sender.AwaitingSpace? {
      steps := SenderIsReleased(s);
    }
    var s1 := Run(s, steps);
    var step := SenderStep(s1);
    SenderStepEnabled(s1);
    SendingKeeps(s1, step);
    RunCons(s1, step, []);
    RunConcat(s, steps, [step]);
    steps := steps + [step];
  }

  lemma {:induction false} AllTaken(s: State)
    requires Inv(s) && Taken(s) == |s.sent|
    ensures s.receiver.received == s.sent
  {
  }

  /** No state is a dead end: everything handed to `send` so far can still be delivered. */
  lemma {:induction false} EverythingCanBeDelivered(s: State) returns (steps: seq<Step>)
    requires Inv(s) && Inbox.AllUnambiguous(s.sent)
    ensures Legal(s, steps)
    ensures Run(s, steps).sent == s.sent && Run(s, steps).receiver.received == s.sent && Run(s, steps).sender.Idle?
    decreases SenderPhase(s), SenderBytes(s)
  {
    if s.sender.Idle? {
      steps := TakePosted(s);
      AllTaken(Run(s, steps));
      return;
    }
    steps := SenderMoves(s);
    var rest := EverythingCanBeDelivered(Run(s, steps));
    RunConcat(s, steps, rest);
    steps := steps + rest;
  }

  /** The same, told about whole runs. */
  lemma {:induction false} NoRunIsStuck(n: nat, steps: seq<Step>)
    requires n >= 16 && Legal(Init(n), steps)
    requires Inbox.AllUnambiguous(Handed(steps))
    ensures exists more :: Legal(Init(n), steps + more) && Handed(steps + more) == Handed(steps) &&
                           Run(Init(n), steps + more).receiver.received == Handed(steps)
    ensures Run(Init(n), steps).sender.AwaitingSpace? ==>
              exists more :: AllReleasing(more) && Legal(Init(n), steps + more) &&
                             Enabled(Run(Init(n), steps + more), StartCopy)
  {
    Reached(n, steps);
    var s := Run(Init(n), steps);
    var more := EverythingCanBeDelivered(s);
    RunConcat(Init(n), steps, more);
    SentIsHanded(Init(n), steps + more);
    assert [] + Handed(steps + more) == Handed(steps + more);
    if s.sender.AwaitingSpace? {
      var releasing := SenderIsReleased(s);
      RunConcat(Init(n), steps, releasing);
    }
  }
}
