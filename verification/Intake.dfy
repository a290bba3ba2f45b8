/** What the receiver can do alone: from any phase a poll ends, and whatever has landed completely is taken in. */
module Intake {
  import opened Frames
  import opened Rings
  import opened Inbox
  import opened Polling

  // ----- one poll of the receiver -----

  function FirstGap(seen: map<nat, byte>): nat {
    if 0 !in seen then 0 else if 1 !in seen then 1 else if 2 !in seen then 2 else if 3 !in seen then 3
    else if 4 !in seen then 4 else if 5 !in seen then 5 else if 6 !in seen then 6 else 7
  }

  function Gap(seen: map<nat, byte>, k: nat): nat {
    if k in seen then 0 else 1
  }

  function Gaps(seen: map<nat, byte>): nat {
    Gap(seen, 0) + Gap(seen, 1) + Gap(seen, 2) + Gap(seen, 3) + Gap(seen, 4) + Gap(seen, 5) + Gap(seen, 6) + Gap(seen, 7)
  }

  lemma {:induction false} FillGap(seen: map<nat, byte>, b: byte)
    ensures Complete(seen) || FirstGap(seen) !in seen
    ensures FirstGap(seen) < 8
    ensures !Complete(seen) ==> Gaps(seen[FirstGap(seen) := b]) < Gaps(seen)
  {
  }

  function NextStep(phase: Phase): Step {
    match phase
    case PollingSize(seen) => if Complete(seen) then SizeRead else ReadSizeByte(FirstGap(seen))
    case PollingTrailer(_, _, seen) =>
      if Complete(seen) then TrailerRead else ReadTrailerByte(FirstGap(seen))
    case CopyingOut(size, out) => if |out| < size then CopyOutByte else StartClearing
    case Clearing(out, cleared) => if cleared < FrameSize(out) then ClearByte else Publish
  }

  predicate SizesOk(phase: Phase) {
    (phase.CopyingOut? ==> |phase.out| <= phase.size) && (phase.Clearing? ==> phase.cleared <= FrameSize(phase.out))
  }

  function PhaseRank(phase: Phase): nat {
    match phase
    case PollingSize(_) => 3
    case PollingTrailer(_, _, _) => 2
    case CopyingOut(_, _) => 1
    case Clearing(_, _) => 0
  }

  function PhaseLeft(phase: Phase): nat {
    match phase
    case PollingSize(seen) => Gaps(seen)
    case PollingTrailer(_, _, seen) => Gaps(seen)
    case CopyingOut(size, out) => if |out| < size then size - |out| else 0
    case Clearing(out, cleared) => if cleared < FrameSize(out) then FrameSize(out) - cleared else 0
  }

  /** The next phase starts the poll over, or is nearer to its end. */
  ghost predicate Nearer(phase: Phase, next: Phase) {
    || next == Restart
    || PhaseRank(next) < PhaseRank(phase)
    || (PhaseRank(next) == PhaseRank(phase) && PhaseLeft(next) < PhaseLeft(phase))
  }

  lemma {:induction false} PollingStep(r: Receiver, base: nat, seen: map<nat, byte>)
    requires |r.ring| > 0
    requires || (r.phase == PollingSize(seen) && base == r.readPos)
             || (r.phase.PollingTrailer? && r.phase.seen == seen && base == r.readPos + 8 + r.phase.size)
    ensures Enabled(r, NextStep(r.phase)) && Nearer(r.phase, Do(r, NextStep(r.phase)).phase)
  {
    FillGap(seen, At(r.ring, base + FirstGap(seen)));
  }

  lemma {:induction false} TakingStep(r: Receiver)
    requires |r.ring| > 0 && SizesOk(r.phase) && (r.phase.CopyingOut? || r.phase.Clearing?)
    ensures Enabled(r, NextStep(r.phase)) && Nearer(r.phase, Do(r, NextStep(r.phase)).phase)
  {
  }

  lemma {:induction false} NextStepEnabled(r: Receiver)
    requires |r.ring| > 0 && SizesOk(r.phase)
    ensures Enabled(r, NextStep(r.phase)) && Nearer(r.phase, Do(r, NextStep(r.phase)).phase)
    ensures Do(r, NextStep(r.phase)).landed == r.landed
  {
    match r.phase
    case PollingSize(seen) => PollingStep(r, r.readPos, seen);
    case PollingTrailer(_, size, seen) => PollingStep(r, r.readPos + 8 + size, seen);
    case _ => TakingStep(r);
  }

  /** What the receiver has read so far of message i is the real thing. */
  ghost predicate Accurate(sent: seq<Message>, r: Receiver) {
    |r.received| < |sent| &&
    var m := sent[|r.received|];
    match r.phase
    case PollingSize(seen) => forall k :: k in seen ==> k < 8 && seen[k] == SizeWord(m)[k]
    case PollingTrailer(word, size, seen) =>
      word == SizeWord(m) && size == |m| && forall k :: k in seen ==> k < 8 && seen[k] == VALIDITY[k]
    case _ => true
  }

  ghost predicate WholeFrameLanded(sent: seq<Message>, r: Receiver) {
    && |r.received| < |sent|
    && AllLanded(r.landed, r.readPos, r.readPos + FrameSize(sent[|r.received|]))
  }

  lemma {:induction false} LandedByte(sent: seq<Message>, r: Receiver, k: nat)
    requires Store(sent, r, 0) && WholeFrameLanded(sent, r)
    requires k < FrameSize(sent[|r.received|])
    ensures At(r.ring, r.readPos + k) == Frame(sent[|r.received|])[k]
  {
    var i := |r.received|;
    FrameAt(sent, i);
    assert Fits(sent[i], |r.ring|);
    assert r.readPos + k in r.landed;
    assert Wire(sent)[Offset(sent, i)..Offset(sent, i + 1)][k] == Frame(sent[i])[k];
  }

  lemma {:induction false} FrameBytes(m: Message, k: nat)
    requires k < 8
    ensures Frame(m)[k] == SizeWord(m)[k]
    ensures Frame(m)[8 + |m| + k] == VALIDITY[k]
  {
  }

  lemma {:induction false} AccurateSizePoll(sent: seq<Message>, r: Receiver)
    requires Inv(sent, r) && WholeFrameLanded(sent, r) && Accurate(sent, r)
    requires r.phase.PollingSize?
    requires Enabled(r, NextStep(r.phase))
    ensures Accurate(sent, Do(r, NextStep(r.phase)))
  {
    var m, seen := sent[|r.received|], r.phase.seen;
    assert Fits(m, |r.ring|);
    if Complete(seen) {
      SizeIsRead(seen, m);
    } else {
      var k := FirstGap(seen);
      LandedByte(sent, r, k);
      FrameBytes(m, k);
    }
  }

  lemma {:induction false} AccurateTrailerPoll(sent: seq<Message>, r: Receiver)
    requires Inv(sent, r) && WholeFrameLanded(sent, r) && Accurate(sent, r)
    requires r.phase.PollingTrailer?
    requires Enabled(r, NextStep(r.phase))
    ensures Accurate(sent, Do(r, NextStep(r.phase)))
    ensures NextStep(r.phase).TrailerRead? ==> Do(r, NextStep(r.phase)).phase.CopyingOut?
  {
    var m, seen := sent[|r.received|], r.phase.seen;
    if Complete(seen) {
      TrailerIsRead(seen);
    } else {
      var k := FirstGap(seen);
      LandedByte(sent, r, 8 + |m| + k);
      FrameBytes(m, k);
    }
  }

  /** A poll that has only seen real bytes of a frame that is completely there accepts it. */
  lemma {:induction false} AccurateKept(sent: seq<Message>, r: Receiver)
    requires Inv(sent, r) && WholeFrameLanded(sent, r) && Accurate(sent, r)
    requires Enabled(r, NextStep(r.phase)) && !NextStep(r.phase).Publish?
    ensures Accurate(sent, Do(r, NextStep(r.phase)))
    ensures Do(r, NextStep(r.phase)).received == r.received
    ensures NextStep(r.phase).TrailerRead? ==> Do(r, NextStep(r.phase)).phase.CopyingOut?
  {
    if r.phase.PollingSize? {
      AccurateSizePoll(sent, r);
    } else if r.phase.PollingTrailer? {
      AccurateTrailerPoll(sent, r);
    }
  }

  lemma {:induction false} SizeIsRead(seen: map<nat, byte>, m: Message)
    requires Complete(seen) && |m| < SIZE_LIMIT
    requires forall k :: k in seen ==> k < 8 && seen[k] == SizeWord(m)[k]
    ensures Word(seen) == SizeWord(m) && Value(Word(seen)) == |m|
  {
    SizeWordValue(m);
  }

  lemma {:induction false} TrailerIsRead(seen: map<nat, byte>)
    requires Complete(seen)
    requires forall k :: k in seen ==> k < 8 && seen[k] == VALIDITY[k]
    ensures Word(seen) == VALIDITY
  {
  }

  // ----- runs -----

  /** A whole frame is waiting and the current poll will accept it. */
  ghost predicate Eager(sent: seq<Message>, r: Receiver) {
    WholeFrameLanded(sent, r) && Accurate(sent, r)
  }

  /** Nothing but the receiver's own memory and phase has changed. */
  ghost predicate SamePlace(r: Receiver, r': Receiver) {
    r'.landed == r.landed && |r'.ring| == |r.ring|
  }

  lemma {:induction false} OnePollStep(sent: seq<Message>, r: Receiver)
    requires Inv(sent, r) && AllUnambiguous(sent)
    ensures Enabled(r, NextStep(r.phase))
    ensures var r1 := Do(r, NextStep(r.phase));
            Inv(sent, r1) && SamePlace(r, r1) && Nearer(r.phase, r1.phase)
  {
    NextStepEnabled(r);
    StepKeeps(sent, r, NextStep(r.phase));
  }

  lemma {:induction false} OnePollStepTakes(sent: seq<Message>, r: Receiver)
    requires Inv(sent, r) && Enabled(r, NextStep(r.phase))
    ensures var r1 := Do(r, NextStep(r.phase));
            if r1.phase == Restart
            then |r.received| <= |r1.received| <= |r.received| + 1 && (Eager(sent, r) ==> |r1.received| == |r.received| + 1)
            else r1.received == r.received && (Eager(sent, r) ==> Eager(sent, r1))
  {
    if Eager(sent, r) && !NextStep(r.phase).Publish? {
      AccurateKept(sent, r);
    }
  }

  ghost predicate Polled(sent: seq<Message>, r: Receiver, r': Receiver) {
    && Inv(sent, r') && SamePlace(r, r') && r'.phase == Restart
    && |r.received| <= |r'.received| <= |r.received| + 1
    && (Eager(sent, r) ==> |r'.received| == |r.received| + 1)
  }

  lemma {:induction false} PollsOn(sent: seq<Message>, r: Receiver, r1: Receiver, r': Receiver)
    requires SamePlace(r, r1) && r1.received == r.received && (Eager(sent, r) ==> Eager(sent, r1)) && Polled(sent, r1, r')
    ensures Polled(sent, r, r')
  {
  }

  /** One complete poll, from any phase.  It takes in at most one message, and takes one in if it was accurate from the
      start. */
  lemma {:induction false} PollOnce(sent: seq<Message>, r: Receiver) returns (steps: seq<Step>)
    requires Inv(sent, r) && AllUnambiguous(sent)
    ensures Legal(r, steps) && Polled(sent, r, Run(r, steps))
    decreases PhaseRank(r.phase), PhaseLeft(r.phase)
  {
    var step := NextStep(r.phase);
    OnePollStep(sent, r);
    OnePollStepTakes(sent, r);
    var r1 := Do(r, step);
    if r1.phase == Restart {
      RunCons(r, step, []);
      return [step];
    }
    var rest := PollOnce(sent, r1);
    PollsOn(sent, r, r1, Run(r1, rest));
    RunCons(r, step, rest);
    return [step] + rest;
  }

  lemma {:induction false} WaitingFrameLanded(sent: seq<Message>, r: Receiver, j: nat)
    requires Inv(sent, r) && |r.received| < j <= |sent| && AllLanded(r.landed, r.readPos, Offset(sent, j))
    ensures WholeFrameLanded(sent, r)
  {
    FrameAt(sent, |r.received|);
    OffsetsGrow(sent, |r.received| + 1, j);
  }

  lemma {:induction false} StillLanded(sent: seq<Message>, r: Receiver, r': Receiver, j: nat)
    requires Inv(sent, r) && Inv(sent, r') && |r.received| <= |r'.received| && r'.landed == r.landed && j <= |sent|
    requires AllLanded(r.landed, r.readPos, Offset(sent, j))
    ensures AllLanded(r'.landed, r'.readPos, Offset(sent, j))
  {
    OffsetsGrow(sent, |r.received|, |r'.received|);
  }

  /** The receiver takes in every message that has landed completely: the first j. */
  lemma {:induction false} TakeArrived(sent: seq<Message>, r: Receiver, j: nat) returns (steps: seq<Step>)
    requires Inv(sent, r) && AllUnambiguous(sent)
    requires |r.received| <= j <= |sent| && AllLanded(r.landed, r.readPos, Offset(sent, j))
    ensures Legal(r, steps)
    ensures Inv(sent, Run(r, steps)) && SamePlace(r, Run(r, steps)) && |Run(r, steps).received| == j
    decreases j - |r.received|, r.phase != Restart
  {
    if |r.received| == j {
      return [];
    }
    WaitingFrameLanded(sent, r, j);
    steps := PollOnce(sent, r);
    var r1 := Run(r, steps);
    StillLanded(sent, r, r1, j);
    var rest := TakeArrived(sent, r1, j);
    RunConcat(r, steps, rest);
    steps := steps + rest;
  }
}
