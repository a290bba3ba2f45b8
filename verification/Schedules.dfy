/** Ways to drive the channel from any state of the invariant: let the sender finish, let the card deliver
    what was posted, let the receiver take in what lies in its ring. */
module Schedules {
  import opened Frames
  import Inbox
  import Polling
  import opened Channel

  /** The two states differ at most in what the sender owns. */
  ghost predicate OnlySenderMoved(s: State, s': State) {
    s'.sent == s.sent && s'.receiver == s.receiver && s'.arrived == s.arrived
  }

  /** The two states differ at most in what the card and the ring hold. */
  ghost predicate OnlyCardMoved(s: State, s': State) {
    && s'.sent == s.sent && s'.sender == s.sender && s'.cached == s.cached
    && s'.sendPos == s.sendPos && s'.posted == s.posted && s'.sendBuf == s.sendBuf
    && s'.receiver.readPos == s.receiver.readPos && s'.receiver.phase == s.receiver.phase
    && s'.receiver.received == s.receiver.received && |s'.receiver.ring| == |s.receiver.ring|
  }

  /** The two states differ only in the receiver's memory and phase. */
  ghost predicate OnlyReceiverMoved(s: State, s': State) {
    s' == s.(receiver := s'.receiver)
  }

  // ----- the sender -----

  function SenderPhase(s: State): nat {
    match s.sender
    case Idle => 0
    case Posting(_) => 1
    case AwaitingSpace(_, part) => if part < 3 then 9 - 2 * part else 1
    case Copying(_, part, _) => if part < 3 then 8 - 2 * part else 1
  }

  function SenderBytes(s: State): nat {
    match s.sender
    case Copying(m, part, k) => if part < 3 && k < |Part(m, part)| then |Part(m, part)| - k else 0
    case Posting(_) => if s.posted < s.sendPos then s.sendPos - s.posted else 0
    case _ => 0
  }

  function SenderStep(s: State): Step {
    match s.sender
    case Idle => CopyByte
    case AwaitingSpace(_, _) => StartCopy
    case Copying(m, part, k) => if part < 3 && k < |Part(m, part)| then CopyByte else EndCopy
    case Posting(_) => Post(false)
  }

  lemma {:induction false} SenderStepEnabled(s: State)
    requires Inv(s) && !s.sender.Idle?
    requires s.sender.AwaitingSpace? ==> |Part(s.sender.msg, s.sender.part)| <= Space(s)
    ensures Enabled(s, SenderStep(s))
    ensures var s' := Do(s, SenderStep(s));
            SenderPhase(s') < SenderPhase(s) || (SenderPhase(s') == SenderPhase(s) && SenderBytes(s') < SenderBytes(s))
    ensures OnlySenderMoved(s, Do(s, SenderStep(s))) && Do(s, SenderStep(s)).fetched == s.fetched
  {
    if s.sender.Posting? {
      SegmentInRange(|s.sendBuf|, s.posted, s.sendPos);
    }
  }

  lemma {:induction false} NextPartFits(s: State)
    requires Inv(s) && s.sender.AwaitingSpace?
    requires |Wire(s.sent)| <= s.cached + |s.sendBuf|
    ensures |Part(s.sender.msg, s.sender.part)| <= Space(s)
  {
  }

  /** If the receiver has left room for the whole frame, the sender finishes on its own; where its idea of the read
      position is too old, it reads it again. */
  lemma {:induction false} SenderFinishes(s: State) returns (steps: seq<Step>)
    requires Inv(s) && |Wire(s.sent)| <= s.receiver.readPos + |s.sendBuf|
    ensures Legal(s, steps)
    ensures var s' := Run(s, steps); Inv(s') && s'.sender.Idle? && OnlySenderMoved(s, s') && |s'.sendBuf| == |s.sendBuf|
    decreases SenderPhase(s), SenderBytes(s), s.receiver.readPos - s.cached
  {
    if s.sender.Idle? {
      return [];
    }
    var step := SenderStep(s);
    if s.sender.AwaitingSpace? && |Part(s.sender.msg, s.sender.part)| > Space(s) {
      step := ReadRemotePosition;
      RefreshHelps(s);
    } else {
      SenderStepEnabled(s);
    }
    SendingKeeps(s, step);
    var rest := SenderFinishes(Do(s, step));
    RunCons(s, step, rest);
    return [step] + rest;
  }

  lemma {:induction false} RefreshHelps(s: State)
    requires Inv(s) && s.sender.AwaitingSpace? && |Wire(s.sent)| <= s.receiver.readPos + |s.sendBuf|
    requires |Part(s.sender.msg, s.sender.part)| > Space(s)
    ensures s.cached < s.receiver.readPos
  {
    if s.cached == s.receiver.readPos {
      NextPartFits(s);
      assert false;
    }
  }

  // ----- the card -----

  /** A step in which only the card and the receiver do something, or the sender asks for the read position. */
  predicate Releasing(step: Step) {
    step.Fetch? || step.Land? || step.Receive? || step.ReadRemotePosition?
  }

  ghost predicate AllReleasing(steps: seq<Step>) {
    forall i :: 0 <= i < |steps| ==> Releasing(steps[i])
  }

  lemma {:induction false} ReleasingCons(step: Step, rest: seq<Step>)
    requires Releasing(step) && AllReleasing(rest)
    ensures AllReleasing([step] + rest)
  {
  }

  function CardStep(s: State): Step {
    if s.arrived in s.fetched then Land else Fetch(s.arrived)
  }

  lemma {:induction false} CardStepEnabled(s: State)
    requires Inv(s) && s.arrived < s.posted
    ensures Enabled(s, CardStep(s))
    ensures OnlyCardMoved(s, Do(s, CardStep(s)))
    ensures Do(s, CardStep(s)).arrived == s.arrived + if s.arrived in s.fetched then 1 else 0
    ensures s.arrived !in s.fetched ==> s.arrived in Do(s, CardStep(s)).fetched
  {
  }

  /** Posted bytes arrive up to any given position, whatever the sender and the receiver are doing. */
  lemma {:induction false} CardDelivers(s: State, target: nat) returns (steps: seq<Step>)
    requires Inv(s) && s.arrived <= target <= s.posted
    ensures Legal(s, steps) && AllReleasing(steps)
    ensures var s' := Run(s, steps); Inv(s') && s'.arrived == target && OnlyCardMoved(s, s')
    decreases target - s.arrived, s.arrived !in s.fetched
  {
    if s.arrived == target {
      return [];
    }
    CardStepEnabled(s);
    var step := CardStep(s);
    SendingKeeps(s, step);
    var rest := CardDelivers(Do(s, step), target);
    RunCons(s, step, rest);
    ReleasingCons(step, rest);
    return [step] + rest;
  }

  /** Everything posted arrives. */
  lemma {:induction false} CardFinishes(s: State) returns (steps: seq<Step>)
    requires Inv(s)
    ensures Legal(s, steps) && AllReleasing(steps)
    ensures var s' := Run(s, steps); Inv(s') && s'.arrived == s'.posted && OnlyCardMoved(s, s')
  {
    steps := CardDelivers(s, s.posted);
  }

  // ----- the receiver -----

  /** Receiver steps, as steps of the whole channel. */
  function Lift(steps: seq<Inbox.Step>): seq<Step> {
    if steps == [] then [] else [Receive(steps[0])] + Lift(steps[1..])
  }

  lemma {:induction false} LiftRun(s: State, steps: seq<Inbox.Step>)
    requires |s.sendBuf| == |s.receiver.ring| > 0 && Polling.Legal(s.receiver, steps)
    ensures Legal(s, Lift(steps)) && Run(s, Lift(steps)) == s.(receiver := Polling.Run(s.receiver, steps))
    ensures AllReleasing(Lift(steps))
    decreases |steps|
  {
    if steps != [] {
      var s1 := Do(s, Receive(steps[0]));
      LiftRun(s1, steps[1..]);
      RunCons(s, Receive(steps[0]), Lift(steps[1..]));
      ReleasingCons(Receive(steps[0]), Lift(steps[1..]));
    }
  }

  /** A run of the receiver alone is a run of the channel. */
  lemma {:induction false} ReceiverRuns(s: State, steps: seq<Inbox.Step>)
    requires Inv(s) && Inbox.AllUnambiguous(s.sent) && Polling.Legal(s.receiver, steps)
    ensures Legal(s, Lift(steps)) && Run(s, Lift(steps)) == s.(receiver := Polling.Run(s.receiver, steps))
    ensures AllReleasing(Lift(steps)) && Inv(Run(s, Lift(steps)))
  {
    LiftRun(s, steps);
    RunKeeps(s, Lift(steps));
  }
}
