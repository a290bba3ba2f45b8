/** Selective signalling: only the write of every 4096th message asks for a completion, and `waitForCompletion`
    waits for one event of the completion channel, re-arms it and drains the completion queue.

    The send queue slot of a work request is free again (the request is `retired`) once the completion of that
    request or of a later one was polled.  `waitUntilSendFree` posts signalled reads and polls for them directly,
    which can leave an event behind that belongs to no completion any more. */
module Signalling {

  datatype Request =
    | Write(num: nat, signaled: bool)
    | Read

  datatype Pc = Idle | SecondWrite | PollRead | AwaitEvent | Rearm | Drain

  datatype State = State(
    double: bool,          // two writes a message, as in `sendParanoid`
    log: seq<Request>,     // everything ever posted
    completed: nat,        // the card is done with log[..completed]
    retired: nat,          // send queue slots of log[..retired] are free again
    cq: seq<nat>,          // completion queue
    events: nat,           // pending events of the channel
    armed: bool,           // notification requested
    pc: Pc,
    messageCounter: nat)

  datatype Step =
    | Complete
    | PostRead
    | PollOne
    | PostWrite
    | PostSecond
    | GetEvent
    | RequestNotify
    | DrainOne
    | EndDrain

  /** `messageCounter % (4 * 1024) == 0` */
  const PERIOD: nat := 4 * 1024

  predicate Signals(r: Request) {
    r.Read? || r.signaled
  }

  function PerMessage(double: bool): nat {
    if double then 2 else 1
  }

  /** Number of writes of k messages. */
  function WritesOf(double: bool, k: nat): nat {
    if double then 2 * k else k
  }

  /** Number of writes posted so far. */
  function Writes(s: State): nat {
    WritesOf(s.double, s.messageCounter) +
    match s.pc
    case SecondWrite => 1
    case AwaitEvent => PerMessage(s.double)
    case Rearm => PerMessage(s.double)
    case Drain => PerMessage(s.double)
    case _ => 0
  }

  predicate Enabled(s: State, step: Step) {
    match step
    case Complete => s.completed < |s.log|
    case PostRead => s.pc.Idle?
    case PollOne => s.pc.PollRead? && s.cq != [] && s.cq[0] < |s.log|
    case PostWrite => s.pc.Idle?
    case PostSecond => s.pc.SecondWrite?
    case GetEvent => s.pc.AwaitEvent? && s.events > 0
    case RequestNotify => s.pc.Rearm?
    case DrainOne => s.pc.Drain? && s.cq != []
    case EndDrain => s.pc.Drain? && s.cq == []
  }

  /** Posts the write that may be signalled; a signalled one is waited for. */
  function PostLast(s: State): State {
    var signaled := s.messageCounter % PERIOD == 0;
    s.(log := s.log + [Write(Writes(s), signaled)],
       pc := if signaled then AwaitEvent else Idle,
       messageCounter := if signaled then s.messageCounter else s.messageCounter + 1)
  }

  function Do(s: State, step: Step): State
    requires Enabled(s, step)
  {
    match step
    case Complete =>
      var signals := Signals(s.log[s.completed]);
      s.(completed := s.completed + 1,
         cq := if signals then s.cq + [s.completed] else s.cq,
         events := if signals && s.armed then s.events + 1 else s.events,
         armed := s.armed && !signals)
    case PostRead => s.(log := s.log + [Read], pc := PollRead)
    case PollOne =>
      s.(cq := s.cq[1..], retired := s.cq[0] + 1, pc := if s.log[s.cq[0]].Read? then Idle else PollRead)
    case PostWrite =>
      if s.double then s.(log := s.log + [Write(Writes(s), false)], pc := SecondWrite) else PostLast(s)
    case PostSecond => PostLast(s)
    case GetEvent => s.(events := s.events - 1, pc := Rearm)
    case RequestNotify => s.(armed := true, pc := Drain)
    case DrainOne => s.(cq := s.cq[1..], retired := s.cq[0] + 1)
    case EndDrain => s.(pc := Idle, messageCounter := s.messageCounter + 1)
  }

  function Init(double: bool): State {
    State(double, [], 0, 0, [], 0, true, Idle, 0)
  }

  // ----- signalled requests -----

  /** Indices of the signalled requests in log[lo..hi], in order. */
  function Signalled(log: seq<Request>, lo: nat, hi: nat): (ix: seq<nat>)
    requires hi <= |log|
  {
    if hi <= lo then []
    else Signalled(log, lo, hi - 1) + if Signals(log[hi - 1]) then [hi - 1] else []
  }

  lemma {:induction false} SignalledBounds(log: seq<Request>, lo: nat, hi: nat)
    requires hi <= |log|
    ensures forall k :: 0 <= k < |Signalled(log, lo, hi)| ==>
              lo <= Signalled(log, lo, hi)[k] < hi && Signals(log[Signalled(log, lo, hi)[k]])
  {
    if lo < hi {
      SignalledBounds(log, lo, hi - 1);
    }
  }

  lemma {:induction false} SignalledSplit(log: seq<Request>, lo: nat, mid: nat, hi: nat)
    requires lo <= mid <= hi <= |log|
    ensures Signalled(log, lo, hi) == Signalled(log, lo, mid) + Signalled(log, mid, hi)
  {
    if mid < hi {
      SignalledSplit(log, lo, mid, hi - 1);
    }
  }

  lemma {:induction false} SignalledGrows(log: seq<Request>, r: Request, lo: nat, hi: nat)
    requires hi <= |log|
    ensures Signalled(log + [r], lo, hi) == Signalled(log, lo, hi)
  {
    if lo < hi {
      SignalledGrows(log, r, lo, hi - 1);
    }
  }

  /** Dropping everything up to the first signalled request drops just that one. */
  lemma {:induction false} SignalledTail(log: seq<Request>, lo: nat, hi: nat)
    requires hi <= |log| && Signalled(log, lo, hi) != []
    ensures var h := Signalled(log, lo, hi)[0];
            lo <= h < hi && Signals(log[h]) && Signalled(log, h + 1, hi) == Signalled(log, lo, hi)[1..]
  {
    SignalledBounds(log, lo, hi);
    if Signalled(log, lo, hi - 1) == [] {
      assert Signalled(log, hi, hi) == [];
    } else {
      SignalledTail(log, lo, hi - 1);
    }
  }

  lemma {:induction false} SignalledHas(log: seq<Request>, lo: nat, i: nat, hi: nat)
    requires lo <= i < hi <= |log| && Signals(log[i])
    ensures |Signalled(log, lo, hi)| == |Signalled(log, lo, i)| + 1 + |Signalled(log, i + 1, hi)|
  {
    SignalledSplit(log, lo, i + 1, hi);
    SignalledSplit(log, lo, i, i + 1);
  }

  // ----- the invariant -----

  /** Signalled requests that the card has not finished. */
  function Open(s: State): seq<nat> {
    if s.completed <= |s.log| then Signalled(s.log, s.completed, |s.log|) else []
  }

  /** Outside of `waitForCompletion` there is exactly one token: a pending event or an armed notification. */
  ghost predicate OneToken(s: State) {
    s.events + (if s.armed then 1 else 0) == if s.pc.Rearm? then 0 else 1
  }

  ghost predicate QueueOk(s: State) {
    && s.retired <= s.completed <= |s.log|
    && s.cq == Signalled(s.log, s.retired, s.completed)
    && (s.armed && !s.pc.Drain? ==> s.cq == [])
  }

  /** How many signalled requests can be in the completion queue or still open, and what a pending event
      promises about them. */
  ghost predicate FewOpen(pc: Pc, queued: nat, open: nat, events: nat) {
    match pc
    case Idle => queued + open <= 1 && (events == 1 ==> open == 0)
    case SecondWrite => queued + open <= 1 && (events == 1 ==> open == 0)
    case PollRead => queued + open <= 2 && (events == 1 ==> open <= 1)
    case AwaitEvent => queued + open <= 2 && (events == 1 ==> open <= 1)
    case Rearm => queued + open <= 2 && open <= 1
    case Drain => queued + open <= 2 && open <= 1 && (events == 1 ==> open == 0)
  }

  predicate SignalNumber(double: bool, num: nat) {
    num % (PerMessage(double) * PERIOD) == PerMessage(double) - 1
  }

  /** Number of trailing reads in the log: one while a read is polled for. */
  function Reads(pc: Pc): nat {
    if pc.PollRead? then 1 else 0
  }

  /** The requests that still occupy send queue slots: consecutive writes, then possibly one read. */
  ghost predicate Consecutive(double: bool, log: seq<Request>, retired: nat, tail: nat, writes: nat) {
    && retired + tail <= |log| && |log| - tail - retired <= writes
    && (tail == 1 ==> log[|log| - 1] == Read)
    && forall i :: retired <= i < |log| - tail ==>
         log[i].Write? && log[i].num == writes - (|log| - tail - i) && log[i].signaled == SignalNumber(double, log[i].num)
  }

  ghost predicate CurrentIsSignalled(s: State) {
    (s.pc.AwaitEvent? || s.pc.Rearm? ==> s.retired < |s.log| && Signals(s.log[|s.log| - 1])) &&
    (s.pc.Drain? && s.retired < |s.log| ==> Signals(s.log[|s.log| - 1]))
  }

  ghost predicate Inv(s: State) {
    && OneToken(s)
    && QueueOk(s)
    && FewOpen(s.pc, |s.cq|, |Open(s)|, s.events)
    && Consecutive(s.double, s.log, s.retired, Reads(s.pc), Writes(s))
    && CurrentIsSignalled(s)
    && (s.pc.SecondWrite? ==> s.double)
  }

  lemma {:induction false} InitInv(double: bool)
    ensures Inv(Init(double))
  {
  }

  // ----- preservation -----

  lemma {:induction false} CompleteMoves(log: seq<Request>, completed: nat)
    requires completed < |log|
    ensures |Signalled(log, completed, |log|)| ==
            (if Signals(log[completed]) then 1 else 0) + |Signalled(log, completed + 1, |log|)|
  {
    SignalledSplit(log, completed, completed + 1, |log|);
    assert Signalled(log, completed, completed) == [];
  }

  /** A completion that hits an armed queue turns the token into an event. */
  lemma {:induction false} TokenMoves(pc: Pc, queued: nat, open: nat, events: nat, armed: bool)
    requires FewOpen(pc, queued, open, events) && open > 0
    requires events + (if armed then 1 else 0) == if pc.Rearm? then 0 else 1
    requires armed && !pc.Drain? ==> queued == 0
    ensures FewOpen(pc, queued + 1, open - 1, if armed then events + 1 else events)
  {
  }

  lemma {:induction false} CompletedQueue(s: State)
    requires QueueOk(s) && Enabled(s, Complete)
    ensures QueueOk(Do(s, Complete))
    ensures |Do(s, Complete).cq| == |s.cq| + if Signals(s.log[s.completed]) then 1 else 0
  {
    CompletedSignals(s.log, s.retired, s.completed, s.cq);
  }

  lemma {:induction false} CompletedOpen(s: State)
    requires Enabled(s, Complete)
    ensures |Open(s)| == (if Signals(s.log[s.completed]) then 1 else 0) + |Open(Do(s, Complete))|
  {
    CompleteMoves(s.log, s.completed);
  }

  lemma {:induction false} CompletedSignals(log: seq<Request>, retired: nat, completed: nat, cq: seq<nat>)
    requires retired <= completed < |log| && cq == Signalled(log, retired, completed)
    ensures Signalled(log, retired, completed + 1) == if Signals(log[completed]) then cq + [completed] else cq
  {
  }

  lemma {:induction false} CompleteKeepsQueue(s: State)
    requires QueueOk(s) && OneToken(s) && FewOpen(s.pc, |s.cq|, |Open(s)|, s.events) && Enabled(s, Complete)
    ensures QueueOk(Do(s, Complete)) && OneToken(Do(s, Complete))
    ensures var s' := Do(s, Complete); FewOpen(s'.pc, |s'.cq|, |Open(s')|, s'.events)
  {
    CompletedQueue(s);
    CompletedOpen(s);
    if Signals(s.log[s.completed]) {
      TokenMoves(s.pc, |s.cq|, |Open(s)|, s.events, s.armed);
    }
  }

  lemma {:induction false} CompleteKeeps(s: State)
    requires Inv(s) && Enabled(s, Complete)
    ensures Inv(Do(s, Complete))
  {
    CompleteKeepsQueue(s);
  }

  lemma {:induction false} Appended(s: State, r: Request)
    requires QueueOk(s)
    ensures s.cq == Signalled(s.log + [r], s.retired, s.completed)
    ensures Signalled(s.log + [r], s.completed, |s.log| + 1) == Open(s) + if Signals(r) then [|s.log|] else []
  {
    SignalledGrows(s.log, r, s.retired, s.completed);
    SignalledGrows(s.log, r, s.completed, |s.log|);
  }

  lemma {:induction false} SignalNumbers(double: bool, messageCounter: nat)
    ensures SignalNumber(double, WritesOf(double, messageCounter) + PerMessage(double) - 1) <==> messageCounter % PERIOD == 0
    ensures double ==> !SignalNumber(double, 2 * messageCounter)
  {
  }

  lemma {:induction false} OneMoreWrite(double: bool, log: seq<Request>, retired: nat, writes: nat, signaled: bool)
    requires Consecutive(double, log, retired, 0, writes)
    requires signaled == SignalNumber(double, writes)
    ensures Consecutive(double, log + [Write(writes, signaled)], retired, 0, writes + 1)
  {
  }

  lemma {:induction false} PostLastKeepsQueue(s: State)
    requires QueueOk(s) && OneToken(s) && FewOpen(s.pc, |s.cq|, |Open(s)|, s.events)
    requires s.pc.SecondWrite? || s.pc.Idle?
    ensures QueueOk(PostLast(s)) && OneToken(PostLast(s))
    ensures var s' := PostLast(s); FewOpen(s'.pc, |s'.cq|, |Open(s')|, s'.events)
  {
    Appended(s, Write(Writes(s), s.messageCounter % PERIOD == 0));
  }

  lemma {:induction false} PostLastCounts(s: State)
    requires (s.pc.SecondWrite? && s.double) || (s.pc.Idle? && !s.double)
    ensures Writes(PostLast(s)) == Writes(s) + 1
    ensures SignalNumber(s.double, Writes(s)) <==> s.messageCounter % PERIOD == 0
  {
    SignalNumbers(s.double, s.messageCounter);
  }

  lemma {:induction false} PostLastKeeps(s: State)
    requires Inv(s) && (s.pc.SecondWrite? || (s.pc.Idle? && !s.double))
    ensures Inv(PostLast(s))
  {
    PostLastKeepsQueue(s);
    PostLastCounts(s);
    OneMoreWrite(s.double, s.log, s.retired, Writes(s), s.messageCounter % PERIOD == 0);
  }

  lemma {:induction false} PostReadKeeps(s: State)
    requires Inv(s) && Enabled(s, PostRead)
    ensures Inv(Do(s, PostRead))
  {
    Appended(s, Read);
  }

  lemma {:induction false} PostDataKeeps(s: State)
    requires Inv(s) && Enabled(s, PostWrite) && s.double
    ensures Inv(Do(s, PostWrite))
  {
    Appended(s, Write(Writes(s), false));
    SignalNumbers(s.double, s.messageCounter);
    OneMoreWrite(s.double, s.log, s.retired, Writes(s), false);
  }

  lemma {:induction false} PostKeeps(s: State, step: Step)
    requires Inv(s) && Enabled(s, step) && (step.PostWrite? || step.PostSecond?)
    ensures Inv(Do(s, step))
  {
    if s.double && step.PostWrite? {
      PostDataKeeps(s);
    } else {
      PostLastKeeps(s);
    }
  }

  lemma {:induction false} GetEventKeeps(s: State)
    requires Inv(s) && Enabled(s, GetEvent)
    ensures Inv(Do(s, GetEvent))
  {
  }

  lemma {:induction false} RequestNotifyKeeps(s: State)
    requires Inv(s) && Enabled(s, RequestNotify)
    ensures Inv(Do(s, RequestNotify))
  {
  }

  lemma {:induction false} EndDrainKeeps(s: State)
    requires Inv(s) && Enabled(s, EndDrain)
    ensures Inv(Do(s, EndDrain))
  {
  }

  /** Polling the head of the completion queue retires it and everything before it. */
  lemma {:induction false} Polled(s: State)
    requires QueueOk(s) && s.cq != []
    ensures s.retired <= s.cq[0] < s.completed && Signals(s.log[s.cq[0]])
    ensures s.cq[1..] == Signalled(s.log, s.cq[0] + 1, s.completed)
  {
    SignalledTail(s.log, s.retired, s.completed);
  }

  lemma {:induction false} PollOneKeeps(s: State)
    requires Inv(s) && Enabled(s, PollOne)
    ensures Inv(Do(s, PollOne))
  {
    Polled(s);
  }

  lemma {:induction false} DrainOneKeeps(s: State)
    requires Inv(s) && Enabled(s, DrainOne)
    ensures Inv(Do(s, DrainOne))
  {
    Polled(s);
  }

  lemma {:induction false} StepKeeps(s: State, step: Step)
    requires Inv(s) && Enabled(s, step)
    ensures Inv(Do(s, step))
  {
    match step
    case Complete => CompleteKeeps(s);
    case PostRead => PostReadKeeps(s);
    case PollOne => PollOneKeeps(s);
    case PostWrite => PostKeeps(s, step);
    case PostSecond => PostKeeps(s, step);
    case GetEvent => GetEventKeeps(s);
    case RequestNotify => RequestNotifyKeeps(s);
    case DrainOne => DrainOneKeeps(s);
    case EndDrain => EndDrainKeeps(s);
  }

  // ----- whole runs -----

  predicate Legal(s: State, steps: seq<Step>)
    decreases |steps|
  {
    steps == [] || (Enabled(s, steps[0]) && Legal(Do(s, steps[0]), steps[1..]))
  }

  function Run(s: State, steps: seq<Step>): State
    requires Legal(s, steps)
    decreases |steps|
  {
    if steps == [] then s else Run(Do(s, steps[0]), steps[1..])
  }

  lemma {:induction false} RunKeeps(s: State, steps: seq<Step>)
    requires Inv(s) && Legal(s, steps)
    ensures Inv(Run(s, steps)) && Run(s, steps).double == s.double
    decreases |steps|
  {
    if steps != [] {
      StepKeeps(s, steps[0]);
      RunKeeps(Do(s, steps[0]), steps[1..]);
    }
  }

  lemma {:induction false} RunConcat(s: State, a: seq<Step>, b: seq<Step>)
    requires Legal(s, a) && Legal(Run(s, a), b)
    ensures Legal(s, a + b) && Run(s, a + b) == Run(Run(s, a), b)
    decreases |a|
  {
    if a == [] {
      assert a + b == b;
    } else {
      assert (a + b)[0] == a[0] && (a + b)[1..] == a[1..] + b;
      RunConcat(Do(s, a[0]), a[1..], b);
    }
  }

  lemma {:induction false} RunCons(s: State, step: Step, b: seq<Step>)
    requires Enabled(s, step) && Legal(Do(s, step), b)
    ensures Legal(s, [step] + b) && Run(s, [step] + b) == Run(Do(s, step), b)
  {
    assert ([step] + b)[1..] == b;
  }

  // ----- what the protocol guarantees -----

  function NextMultiple(a: nat): (k: nat)
    ensures a <= k < a + 4096 && k % 4096 == 0
  {
    (a + 4095) / 4096 * 4096
  }

  function NextSecond(a: nat): (k: nat)
    ensures a <= k < a + 8192 && k % 8192 == 1
  {
    (a + 8190) / 8192 * 8192 + 1
  }

  /** Some number in every stretch of one period is signalled. */
  lemma {:induction false} NextSignal(double: bool, a: nat) returns (k: nat)
    ensures a <= k < a + PerMessage(double) * PERIOD && SignalNumber(double, k)
  {
    k := if double then NextSecond(a) else NextMultiple(a);
  }

  /** So two whole periods of unretired writes contain two signalled ones. */
  lemma {:induction false} TwoSignals(double: bool, log: seq<Request>, retired: nat, tail: nat, writes: nat, hi: nat)
    requires Consecutive(double, log, retired, tail, writes)
    requires retired + 2 * PerMessage(double) * PERIOD <= hi <= |log| - tail
    ensures |Signalled(log, retired, hi)| >= 2
  {
    var p := PerMessage(double) * PERIOD;
    var first := writes - (|log| - tail - retired);
    var n1 := NextSignal(double, first);
    var n2 := NextSignal(double, first + p);
    var i1, i2 := retired + (n1 - first), retired + (n2 - first);
    assert log[i1].num == n1 && log[i2].num == n2;
    SignalledHas(log, retired, i2, hi);
    SignalledHas(log, retired, i1, i2);
  }

  lemma {:induction false} PendingCount(s: State)
    requires QueueOk(s)
    ensures |Signalled(s.log, s.retired, |s.log|)| == |s.cq| + |Open(s)|
  {
    SignalledSplit(s.log, s.retired, s.completed, |s.log|);
  }

  /** More than two periods of unretired requests contain two signalled ones besides the last request. */
  lemma {:induction false} ManySignals(double: bool, log: seq<Request>, retired: nat, tail: nat, writes: nat)
    requires Consecutive(double, log, retired, tail, writes) && tail <= 1
    requires retired + 2 * PerMessage(double) * PERIOD < |log|
    ensures |Signalled(log, retired, |log|)| >= 2 + if Signals(log[|log| - 1]) then 1 else 0
  {
    TwoSignals(double, log, retired, tail, writes, |log| - 1);
  }

  /** The invariant allows fewer than that. */
  lemma {:induction false} FewSignals(s: State)
    requires Inv(s) && s.retired < |s.log|
    ensures |s.cq| + |Open(s)| < 2 + if Signals(s.log[|s.log| - 1]) then 1 else 0
  {
  }

  /** Never more than two periods of requests occupy the send queue. */
  lemma {:induction false} OutstandingBound(s: State)
    requires Inv(s)
    ensures |s.log| - s.retired <= if s.double then 16384 else 8192
  {
    if s.retired < |s.log| {
      PendingCount(s);
      FewSignals(s);
      if s.retired + 2 * PerMessage(s.double) * PERIOD < |s.log| {
        ManySignals(s.double, s.log, s.retired, Reads(s.pc), Writes(s));
      }
    }
  }

  /** Between two sends every signalled request but the very last is retired. */
  lemma {:induction false} EarlierOnesRetired(s: State, i: nat, j: nat)
    requires Inv(s) && s.pc.Idle?
    requires i < j < |s.log| && Signals(s.log[i]) && Signals(s.log[j])
    ensures i < s.retired
  {
    PendingCount(s);
    if s.retired <= i {
      SignalledHas(s.log, s.retired, j, |s.log|);
      SignalledHas(s.log, s.retired, i, j);
      assert false;
    }
  }

  /** All of it, for every run of `send`: at most 8192 requests in a send queue of 16351, at most two completions in a
      queue of 100, and outside of the wait one pending event or one armed notification. */
  lemma {:induction false} SendNeverOverflows(steps: seq<Step>)
    requires Legal(Init(false), steps)
    ensures var s := Run(Init(false), steps);
            && |s.log| - s.retired <= 8192
            && |s.cq| <= 2
            && s.events + (if s.armed then 1 else 0) == if s.pc.Rearm? then 0 else 1
  {
    InitInv(false);
    RunKeeps(Init(false), steps);
    OutstandingBound(Run(Init(false), steps));
  }

  // ----- no wait blocks forever -----

  ghost predicate OnlyCompletions(steps: seq<Step>) {
    forall i :: 0 <= i < |steps| ==> steps[i] == Complete
  }

  lemma {:induction false} LastIsPending(s: State)
    requires QueueOk(s) && s.retired < |s.log| && Signals(s.log[|s.log| - 1])
    ensures s.cq == [] ==> s.completed < |s.log|
  {
    SignalledHas(s.log, s.retired, |s.log| - 1, |s.log|);
    PendingCount(s);
  }

  lemma {:induction false} EventArrives(s: State) returns (steps: seq<Step>)
    requires Inv(s) && s.pc.AwaitEvent?
    ensures |steps| <= |s.log| - s.completed && OnlyCompletions(steps)
    ensures Legal(s, steps) && Enabled(Run(s, steps), GetEvent)
    decreases |s.log| - s.completed
  {
    if s.events > 0 {
      return [];
    }
    LastIsPending(s);
    CompleteKeeps(s);
    steps := EventArrives(Do(s, Complete));
    RunCons(s, Complete, steps);
    steps := [Complete] + steps;
  }

  /** Polling for a read ends after finitely many completions and polls. */
  lemma {:induction false} ReadIsPolled(s: State) returns (steps: seq<Step>)
    requires Inv(s) && s.pc.PollRead?
    ensures Legal(s, steps) && Run(s, steps).pc.Idle?
    decreases |s.log| - s.completed, |s.cq|
  {
    var step := if s.cq == [] then Complete else PollOne;
    LastIsPending(s);
    if s.cq != [] {
      Polled(s);
    }
    StepKeeps(s, step);
    var s1 := Do(s, step);
    steps := [];
    if s1.pc.PollRead? {
      steps := ReadIsPolled(s1);
    }
    RunCons(s, step, steps);
    steps := [step] + steps;
  }

  // ----- two writes a message are too many -----

  /** k messages of two unsignalled writes each. */
  lemma {:induction false} PostMessages(s: State, k: nat) returns (steps: seq<Step>, s': State)
    requires s.double && s.pc.Idle?
    requires forall c :: s.messageCounter <= c < s.messageCounter + k ==> c % PERIOD != 0
    ensures Legal(s, steps) && Run(s, steps) == s'
    ensures s' == s.(log := s'.log, messageCounter := s.messageCounter + k) && |s'.log| == |s.log| + 2 * k
    decreases k
  {
    if k == 0 {
      return [], s;
    }
    var s1 := Do(s, PostWrite);
    var s2 := Do(s1, PostSecond);
    steps, s' := PostMessages(s2, k - 1);
    RunCons(s1, PostSecond, steps);
    RunCons(s, PostWrite, [PostSecond] + steps);
    steps := [PostWrite] + ([PostSecond] + steps);
  }

  /** A state in which a stale event is pending and everything is retired. */
  ghost predicate Stale(s: State, counter: nat) {
    && s.double && s.pc.Idle? && s.messageCounter == counter
    && s.events == 1 && !s.armed && s.cq == [] && s.retired == s.completed == |s.log|
  }

  /** The first message completes before the sender waits for it ... */
  lemma {:induction false} FirstMessage() returns (steps: seq<Step>, s: State)
    ensures Legal(Init(true), steps) && Run(Init(true), steps) == s
    ensures s == State(true, [Write(0, false), Write(1, true)], 2, 0, [1], 1, false, AwaitEvent, 0)
  {
    s := Do(Do(Do(Do(Init(true), PostWrite), PostSecond), Complete), Complete);
    RunFour(Init(true), PostWrite, PostSecond, Complete, Complete);
    steps := [PostWrite, PostSecond, Complete, Complete];
  }

  /** ... and its wait retires it. */
  lemma {:induction false} FirstWait(s: State) returns (steps: seq<Step>, s': State)
    requires s.double && s.pc.AwaitEvent? && s.events == 1 && !s.armed && s.cq == [|s.log| - 1]
    requires s.completed == |s.log| > 0
    ensures Legal(s, steps) && Run(s, steps) == s'
    ensures s' == s.(cq := [], retired := |s.log|, events := 0, armed := true, pc := Idle, messageCounter := s.messageCounter + 1)
  {
    s' := Do(Do(Do(Do(s, GetEvent), RequestNotify), DrainOne), EndDrain);
    RunFour(s, GetEvent, RequestNotify, DrainOne, EndDrain);
    steps := [GetEvent, RequestNotify, DrainOne, EndDrain];
  }

  /** A read that is polled directly leaves its event behind. */
  lemma {:induction false} StaleRead(s: State) returns (steps: seq<Step>, s': State)
    requires s.double && s.pc.Idle? && s.events == 0 && s.armed && s.cq == [] && s.retired == s.completed == |s.log|
    ensures Legal(s, steps) && Run(s, steps) == s' && Stale(s', s.messageCounter)
  {
    var s1 := Do(s, PostRead);
    var s2 := Do(s1, Complete);
    s' := Do(s2, PollOne);
    RunCons(s2, PollOne, []);
    RunCons(s1, Complete, [PollOne] + []);
    RunCons(s, PostRead, [Complete] + ([PollOne] + []));
    steps := [PostRead] + ([Complete] + ([PollOne] + []));
  }

  lemma {:induction false} LeaveStaleEvent() returns (steps: seq<Step>, s: State)
    ensures Legal(Init(true), steps) && Run(Init(true), steps) == s && Stale(s, 1)
  {
    var s1, s2, wait, read;
    steps, s1 := FirstMessage();
    wait, s2 := FirstWait(s1);
    RunConcat(Init(true), steps, wait);
    read, s := StaleRead(s2);
    RunConcat(Init(true), steps + wait, read);
    steps := steps + wait + read;
  }

  /** With the stale event, the next wait returns although the card has not finished anything. */
  lemma {:induction false} EmptyWait(s: State) returns (steps: seq<Step>, s': State)
    requires s.double && s.pc.Idle? && s.events == 1 && !s.armed && s.cq == [] && s.messageCounter % PERIOD == 0
    ensures Legal(s, steps) && Run(s, steps) == s'
    ensures s' == s.(log := s'.log, events := 0, armed := true, messageCounter := s.messageCounter + 1)
    ensures |s'.log| == |s.log| + 2
  {
    var s1 := Do(Do(s, PostWrite), PostSecond);
    RunCons(Do(s, PostWrite), PostSecond, []);
    RunCons(s, PostWrite, [PostSecond] + []);
    var s2 := Do(Do(s1, GetEvent), RequestNotify);
    RunCons(s2, EndDrain, []);
    RunCons(Do(s1, GetEvent), RequestNotify, [EndDrain] + []);
    RunCons(s1, GetEvent, [RequestNotify] + ([EndDrain] + []));
    s' := Do(s2, EndDrain);
    RunConcat(s, [PostWrite] + ([PostSecond] + []), [GetEvent] + ([RequestNotify] + ([EndDrain] + [])));
    steps := [PostWrite] + ([PostSecond] + []) + ([GetEvent] + ([RequestNotify] + ([EndDrain] + [])));
  }

  lemma {:induction false} NotSignalled(lo: nat, c: nat)
    requires lo % PERIOD == 1 && lo <= c < lo + PERIOD - 1
    ensures c % PERIOD != 0
  {
  }

  lemma {:induction false} QuietPeriod(s: State) returns (steps: seq<Step>, s': State)
    requires s.double && s.pc.Idle? && s.messageCounter % PERIOD == 1
    ensures Legal(s, steps) && Run(s, steps) == s'
    ensures s' == s.(log := s'.log, messageCounter := s.messageCounter + (PERIOD - 1))
    ensures |s'.log| == |s.log| + 2 * (PERIOD - 1)
  {
    forall c | s.messageCounter <= c < s.messageCounter + (PERIOD - 1) ensures c % PERIOD != 0 {
      NotSignalled(s.messageCounter, c);
    }
    steps, s' := PostMessages(s, PERIOD - 1);
  }

  /** `sendParanoid` can fill 16384 slots of a send queue that has 16351. */
  lemma {:induction false} ParanoidOverflows() returns (steps: seq<Step>)
    ensures Legal(Init(true), steps)
    ensures var s := Run(Init(true), steps); |s.log| - s.retired == 16384
  {
    var s1, s2, s3, s4, quiet, wait, quiet2;
    steps, s1 := LeaveStaleEvent();
    quiet, s2 := QuietPeriod(s1);
    RunConcat(Init(true), steps, quiet);
    steps := steps + quiet;
    wait, s3 := EmptyWait(s2);
    RunConcat(Init(true), steps, wait);
    steps := steps + wait;
    quiet2, s4 := QuietPeriod(s3);
    RunConcat(Init(true), steps, quiet2);
    steps := steps + quiet2;
    RunCons(Do(s4, PostWrite), PostSecond, []);
    RunCons(s4, PostWrite, [PostSecond] + []);
    RunConcat(Init(true), steps, [PostWrite] + ([PostSecond] + []));
    steps := steps + ([PostWrite] + ([PostSecond] + []));
  }

  lemma {:induction false} RunFour(s: State, a: Step, b: Step, c: Step, d: Step)
    requires Enabled(s, a) && Enabled(Do(s, a), b) && Enabled(Do(Do(s, a), b), c) && Enabled(Do(Do(Do(s, a), b), c), d)
    ensures Legal(s, [a, b, c, d]) && Run(s, [a, b, c, d]) == Do(Do(Do(Do(s, a), b), c), d)
  {
    var s1 := Do(s, a);
    var s2 := Do(s1, b);
    var s3 := Do(s2, c);
    RunCons(s3, d, []);
    RunCons(s2, c, [d] + []);
    RunCons(s1, b, [c] + ([d] + []));
    RunCons(s, a, [b] + ([c] + ([d] + [])));
    assert [a] + ([b] + ([c] + ([d] + []))) == [a, b, c, d];
  }

  // ----- runs in which the ring never ran full -----

  /** Nobody ever had to read the remote position. */
  ghost predicate NoReads(steps: seq<Step>) {
    forall i :: 0 <= i < |steps| ==> !steps[i].PostRead?
  }

  /** Without directly polled reads there are no stale events: an event is there if and only if the one signalled
      write that is waited for has completed. */
  ghost predicate NothingStale(pc: Pc, queued: nat, open: nat, events: nat) {
    match pc
    case Idle => queued == 0 && open == 0 && events == 0
    case SecondWrite => queued == 0 && open == 0 && events == 0
    case PollRead => false
    case AwaitEvent => queued + open == 1 && events == queued
    case Rearm => queued == 1 && open == 0
    case Drain => queued <= 1 && open == 0 && events == 0
  }

  ghost predicate CleanInv(s: State) {
    Inv(s) && NothingStale(s.pc, |s.cq|, |Open(s)|, s.events)
  }

  lemma {:induction false} CleanComplete(s: State)
    requires CleanInv(s) && Enabled(s, Complete)
    ensures CleanInv(Do(s, Complete))
  {
    CompleteKeeps(s);
    CompletedQueue(s);
    CompletedOpen(s);
  }

  lemma {:induction false} CleanPost(s: State, step: Step)
    requires CleanInv(s) && Enabled(s, step) && (step.PostWrite? || step.PostSecond?)
    ensures CleanInv(Do(s, step))
  {
    PostKeeps(s, step);
    if s.messageCounter % PERIOD == 0 && !(s.double && step.PostWrite?) {
      Appended(s, Write(Writes(s), true));
    } else {
      Appended(s, Write(Writes(s), false));
    }
  }

  lemma {:induction false} CleanWait(s: State, step: Step)
    requires CleanInv(s) && Enabled(s, step) && (step.GetEvent? || step.RequestNotify? || step.EndDrain?)
    ensures CleanInv(Do(s, step))
  {
    StepKeeps(s, step);
  }

  lemma {:induction false} CleanDrain(s: State)
    requires CleanInv(s) && Enabled(s, DrainOne)
    ensures CleanInv(Do(s, DrainOne))
  {
    DrainOneKeeps(s);
  }

  lemma {:induction false} CleanStep(s: State, step: Step)
    requires CleanInv(s) && Enabled(s, step) && !step.PostRead?
    ensures CleanInv(Do(s, step))
  {
    match step
    case Complete => CleanComplete(s);
    case PostWrite => CleanPost(s, step);
    case PostSecond => CleanPost(s, step);
    case DrainOne => CleanDrain(s);
    case _ => CleanWait(s, step);
  }

  lemma {:induction false} CleanRun(s: State, steps: seq<Step>)
    requires CleanInv(s) && Legal(s, steps) && NoReads(steps)
    ensures CleanInv(Run(s, steps)) && Run(s, steps).double == s.double
    decreases |steps|
  {
    if steps != [] {
      CleanStep(s, steps[0]);
      CleanRun(Do(s, steps[0]), steps[1..]);
    }
  }

  /** A whole period of unretired writes contains a signalled one. */
  lemma {:induction false} OneSignal(double: bool, log: seq<Request>, retired: nat, writes: nat, hi: nat)
    requires Consecutive(double, log, retired, 0, writes)
    requires retired + PerMessage(double) * PERIOD <= hi <= |log|
    ensures |Signalled(log, retired, hi)| >= 1
  {
    var first := writes - (|log| - retired);
    var num := NextSignal(double, first);
    var i := retired + (num - first);
    assert log[i].num == num;
    SignalledHas(log, retired, i, hi);
  }

  /** So with none but possibly the last, no more than a period is unretired. */
  lemma {:induction false} OnePeriod(double: bool, log: seq<Request>, retired: nat, writes: nat)
    requires Consecutive(double, log, retired, 0, writes) && retired < |log|
    requires |Signalled(log, retired, |log|)| < 1 + if Signals(log[|log| - 1]) then 1 else 0
    ensures |log| - retired <= PerMessage(double) * PERIOD
  {
    if retired + PerMessage(double) * PERIOD <= |log| - 1 {
      OneSignal(double, log, retired, writes, |log| - 1);
    }
  }

  lemma {:induction false} FewSignalsWhenClean(s: State)
    requires CleanInv(s) && s.retired < |s.log|
    ensures |s.cq| + |Open(s)| < 1 + if Signals(s.log[|s.log| - 1]) then 1 else 0
  {
  }

  lemma {:induction false} CleanBound(s: State)
    requires CleanInv(s)
    ensures |s.log| - s.retired <= PerMessage(s.double) * PERIOD
  {
    if s.retired < |s.log| {
      PendingCount(s);
      FewSignalsWhenClean(s);
      OnePeriod(s.double, s.log, s.retired, Writes(s));
    }
  }

  /** While the ring never runs full, one period of requests is the most that is outstanding: 4096 with `send`, 8192
      with `sendParanoid`. */
  lemma {:induction false} WithoutReadsOnePeriod(double: bool, steps: seq<Step>)
    requires Legal(Init(double), steps) && NoReads(steps)
    ensures |Run(Init(double), steps).log| - Run(Init(double), steps).retired <= if double then 8192 else 4096
  {
    InitInv(double);
    CleanRun(Init(double), steps);
    CleanBound(Run(Init(double), steps));
  }

  /** The unretired requests fit the send queue of 16351 entries. */
  ghost predicate WithinDepth(double: bool, steps: seq<Step>)
    requires Legal(Init(double), steps)
  {
    |Run(Init(double), steps).log| - Run(Init(double), steps).retired <= 16351
  }

  /** The send queue is deep enough in all runs if and only if a message is a single write or the ring never runs
      full. */
  lemma {:induction false} DepthIsExact(double: bool, mayRunFull: bool)
    ensures !double || !mayRunFull <==>
            forall steps :: Legal(Init(double), steps) && (mayRunFull || NoReads(steps)) ==> WithinDepth(double, steps)
  {
    if !double || !mayRunFull {
      forall steps | Legal(Init(double), steps) && (mayRunFull || NoReads(steps)) ensures WithinDepth(double, steps) {
        if mayRunFull {
          SendNeverOverflows(steps);
        } else {
          WithoutReadsOnePeriod(double, steps);
        }
      }
    } else {
      var steps := ParanoidOverflows();
      assert Legal(Init(double), steps) && !WithinDepth(double, steps);
    }
  }

  // ----- which writes are signalled -----

  /** The writes among the requests, in order. */
  function WritesIn(log: seq<Request>): seq<Request> {
    if log == [] then [] else WritesIn(log[..|log| - 1]) + if log[|log| - 1].Write? then [log[|log| - 1]] else []
  }

  lemma {:induction false} WritesInSnoc(log: seq<Request>, r: Request)
    ensures WritesIn(log + [r]) == WritesIn(log) + if r.Write? then [r] else []
  {
    assert (log + [r])[..|log|] == log;
  }

  /** `send` posts write k for message k; `sendParanoid` posts writes 2k and 2k + 1, and only the second can be
      signalled.  Every 4096th message is. */
  predicate AsksForCompletion(double: bool, j: nat) {
    if double then j % 2 == 1 && j / 2 % 4096 == 0 else j % 4096 == 0
  }

  ghost predicate SignalledAsWritten(double: bool, writes: seq<Request>) {
    forall j :: 0 <= j < |writes| ==> writes[j] == Write(j, AsksForCompletion(double, j))
  }

  lemma {:induction false} AsksEvery4096th(k: nat)
    ensures AsksForCompletion(false, k) == (k % PERIOD == 0)
    ensures !AsksForCompletion(true, 2 * k) && AsksForCompletion(true, 2 * k + 1) == (k % PERIOD == 0)
  {
  }

  lemma {:induction false} OneMoreAsWritten(double: bool, log: seq<Request>, num: nat, signaled: bool)
    requires SignalledAsWritten(double, WritesIn(log)) && num == |WritesIn(log)| && signaled == AsksForCompletion(double, num)
    ensures |WritesIn(log + [Write(num, signaled)])| == num + 1
    ensures SignalledAsWritten(double, WritesIn(log + [Write(num, signaled)]))
  {
    WritesInSnoc(log, Write(num, signaled));
  }

  ghost predicate AllAsWritten(s: State) {
    && |WritesIn(s.log)| == Writes(s) && SignalledAsWritten(s.double, WritesIn(s.log))
    && (s.pc.SecondWrite? ==> s.double)
  }

  lemma {:induction false} PostAsWritten(s: State, step: Step)
    requires AllAsWritten(s) && Enabled(s, step) && (step.PostWrite? || step.PostSecond?)
    ensures AllAsWritten(Do(s, step))
  {
    AsksEvery4096th(s.messageCounter);
    OneMoreAsWritten(s.double, s.log, Writes(s), AsksForCompletion(s.double, Writes(s)));
  }

  lemma {:induction false} StepAsWritten(s: State, step: Step)
    requires AllAsWritten(s) && Enabled(s, step)
    ensures AllAsWritten(Do(s, step)) && Do(s, step).double == s.double
  {
    if step.PostWrite? || step.PostSecond? {
      PostAsWritten(s, step);
    } else if step.PostRead? {
      WritesInSnoc(s.log, Read);
    }
  }

  lemma {:induction false} RunAsWritten(s: State, steps: seq<Step>)
    requires AllAsWritten(s) && Legal(s, steps)
    ensures AllAsWritten(Run(s, steps)) && Run(s, steps).double == s.double
    decreases |steps|
  {
    if steps != [] {
      StepAsWritten(s, steps[0]);
      RunAsWritten(Do(s, steps[0]), steps[1..]);
    }
  }

  function Posts(steps: seq<Step>): nat {
    if steps == [] then 0 else (if steps[0].PostWrite? || steps[0].PostSecond? then 1 else 0) + Posts(steps[1..])
  }

  lemma {:induction false} PostsAreLogged(s: State, steps: seq<Step>)
    requires Legal(s, steps)
    ensures |WritesIn(Run(s, steps).log)| == |WritesIn(s.log)| + Posts(steps)
    decreases |steps|
  {
    if steps != [] {
      LogGrows(s, steps[0]);
      PostsAreLogged(Do(s, steps[0]), steps[1..]);
    }
  }

  lemma {:induction false} LogGrows(s: State, step: Step)
    requires Enabled(s, step)
    ensures |WritesIn(Do(s, step).log)| == |WritesIn(s.log)| + if step.PostWrite? || step.PostSecond? then 1 else 0
  {
    WritesInSnoc(s.log, Read);
    WritesInSnoc(s.log, Write(Writes(s), false));
    WritesInSnoc(s.log, Write(Writes(s), true));
  }

  /** In every run: every post is a write of its own, and exactly the (last) write of every 4096th message, counted from
      the first, asks for a completion. */
  lemma {:induction false} SignalsAreExact(double: bool, steps: seq<Step>)
    requires Legal(Init(double), steps)
    ensures |WritesIn(Run(Init(double), steps).log)| == Posts(steps)
    ensures SignalledAsWritten(double, WritesIn(Run(Init(double), steps).log))
  {
    RunAsWritten(Init(double), steps);
    PostsAreLogged(Init(double), steps);
  }
}
