/** Every run of the pipelined clients can be completed: card and server work off what is outstanding, and each thread
    gets through both of its loops. */
module PipelineProgress {
  import D = Doorbell
  import P = DoorbellProgress
  import opened Pipeline

  lemma {:induction false} RunCons(msgs: seq<nat>, s: State, step: Step, rest: seq<Step>)
    requires Enabled(msgs, s, step) && Legal(msgs, Do(msgs, s, step), rest)
    ensures Legal(msgs, s, [step] + rest) && Run(msgs, s, [step] + rest) == Run(msgs, Do(msgs, s, step), rest)
  {
    assert ([step] + rest)[1..] == rest;
  }

  lemma {:induction false} RunConcat(msgs: seq<nat>, s: State, a: seq<Step>, b: seq<Step>)
    requires Legal(msgs, s, a) && Legal(msgs, Run(msgs, s, a), b)
    ensures Legal(msgs, s, a + b) && Run(msgs, s, a + b) == Run(msgs, Run(msgs, s, a), b)
    decreases |a|
  {
    if a == [] {
      assert a + b == b;
    } else {
      assert (a + b)[0] == a[0] && (a + b)[1..] == a[1..] + b;
      RunConcat(msgs, Do(msgs, s, a[0]), a[1..], b);
    }
  }

  // ----- runs of the protocol as runs of the whole -----

  function Behinds(steps: seq<D.Step>): seq<Step> {
    if steps == [] then [] else [Behind(steps[0])] + Behinds(steps[1..])
  }

  lemma {:induction false} BehindRuns(msgs: seq<nat>, s: State, steps: seq<D.Step>)
    requires D.Legal(s.bell, steps) && P.Scanned(s.bell, steps)
    ensures Legal(msgs, s, Behinds(steps)) && Run(msgs, s, Behinds(steps)) == s.(bell := D.Run(s.bell, steps))
    decreases |steps|
  {
    if steps != [] {
      var s1 := Do(msgs, s, Behind(steps[0]));
      BehindRuns(msgs, s1, steps[1..]);
      RunCons(msgs, s, Behind(steps[0]), Behinds(steps[1..]));
    }
  }

  /** The answer to the client that thread t waits for is placed in its buffer. */
  lemma {:induction false} AnswerArrives(msgs: seq<nat>, s: State, t: nat) returns (steps: seq<Step>)
    requires Inv(msgs, s) && Values(msgs) && t < |s.threads| && s.threads[t].pc.Await? && |s.bell.bells| % 16 == 0
    ensures Legal(msgs, s, steps) && Inv(msgs, Run(msgs, s, steps)) && Run(msgs, s, steps).threads == s.threads
    ensures |Run(msgs, s, steps).bell.bells| == |s.bell.bells|
    ensures var c := s.threads[t].pc.c;
            c < |Run(msgs, s, steps).bell.clients| && Run(msgs, s, steps).bell.clients[c].Answered?
  {
    var th := s.threads[t];
    assert ThreadOk(msgs, s.bell.clients, th) && Busy(msgs, s.bell.clients, th.base, th.n, th.done);
    var coming := P.AnswerComes(s.bell, th.pc.c);
    BehindRuns(msgs, s, coming);
    D.RunKeeps(s.bell, coming);
    RunKeeps(msgs, s, Behinds(coming));
    steps := Behinds(coming);
  }

  // ----- the client takes its answer -----

  /** Client and thread get through `read`: the answer is there. */
  lemma {:induction false} AnswerIsRead(msgs: seq<nat>, s: State, t: nat) returns (steps: seq<Step>)
    requires Inv(msgs, s) && Values(msgs) && t < |s.threads| && s.threads[t].pc.Await?
    requires s.threads[t].pc.c < |s.bell.clients| && s.bell.clients[s.threads[t].pc.c].Answered?
    ensures Legal(msgs, s, steps) && Inv(msgs, Run(msgs, s, steps))
    ensures Run(msgs, s, steps).threads == s.threads[t := Read(s.threads[t])]
    ensures |Run(msgs, s, steps).bell.bells| == |s.bell.bells|
    decreases P.LooksLeft(s.bell, s.threads[t].pc.c)
  {
    var th := s.threads[t];
    assert ThreadOk(msgs, s.bell.clients, th) && Busy(msgs, s.bell.clients, th.base, th.n, th.done);
    P.LookWorks(s.bell, th.pc.c);
    var step, rest := Finish(t), [];
    if D.Enabled(s.bell, D.Collect(th.pc.c)) {
      FinishKeeps(msgs, s, t);
    } else {
      step := Look(t, P.LookStep(s.bell, th.pc.c));
      BellStepKeeps(msgs, s, step.step);
      rest := AnswerIsRead(msgs, Do(msgs, s, step), t);
    }
    RunCons(msgs, s, step, rest);
    steps := [step] + rest;
  }

  // ----- a thread gets on -----

  /** Thread t is at u; nothing else has moved on the clients' side. */
  ghost predicate Moved(msgs: seq<nat>, s: State, s': State, t: nat) {
    && Inv(msgs, s') && |s'.bell.bells| == |s.bell.bells| && |s'.threads| == |s.threads| && t < |s.threads|
    && (forall u :: 0 <= u < |s.threads| && u != t ==> s'.threads[u] == s.threads[u])
    && s'.threads[t].total == s.threads[t].total
  }

  function Left(th: Thread): int {
    (th.total - th.i) + (th.total - th.done)
  }

  lemma {:induction false} ReadNext(msgs: seq<nat>, s: State, t: nat) returns (steps: seq<Step>)
    requires Inv(msgs, s) && Values(msgs) && t < |s.threads| && s.threads[t].pc.Await? && |s.bell.bells| % 16 == 0
    ensures Legal(msgs, s, steps) && Moved(msgs, s, Run(msgs, s, steps), t)
    ensures Left(Run(msgs, s, steps).threads[t]) == Left(s.threads[t]) - 1
  {
    steps := AnswerArrives(msgs, s, t);
    var rest := AnswerIsRead(msgs, Run(msgs, s, steps), t);
    RunConcat(msgs, s, steps, rest);
    steps := steps + rest;
  }

  lemma {:induction false} PopAndRead(msgs: seq<nat>, s: State, t: nat) returns (steps: seq<Step>)
    requires Inv(msgs, s) && Values(msgs) && t < |s.threads| && MustRead(s.threads[t]) && |s.bell.bells| % 16 == 0
    ensures Legal(msgs, s, steps) && Moved(msgs, s, Run(msgs, s, steps), t)
    ensures Left(Run(msgs, s, steps).threads[t]) == Left(s.threads[t]) - 1
  {
    PopKeeps(msgs, s, t);
    var s1 := Do(msgs, s, Pop(t));
    assert ThreadOk(msgs, s.bell.clients, s.threads[t]);
    var rest := ReadNext(msgs, s1, t);
    RunCons(msgs, s, Pop(t), rest);
    steps := [Pop(t)] + rest;
  }

  lemma {:induction false} WriteNext(msgs: seq<nat>, s: State, t: nat) returns (steps: seq<Step>)
    requires Inv(msgs, s) && t < |s.threads| && MustWrite(s.threads[t])
    ensures Legal(msgs, s, steps) && Moved(msgs, s, Run(msgs, s, steps), t)
    ensures Left(Run(msgs, s, steps).threads[t]) == Left(s.threads[t]) - 1
  {
    assert ThreadOk(msgs, s.bell.clients, s.threads[t]);
    WritesToFreeClient(msgs, s, t);
    WriteKeeps(msgs, s, t);
    RunCons(msgs, s, Write(t), []);
    steps := [Write(t)] + [];
  }

  lemma {:induction false} ThreadMoves(msgs: seq<nat>, s: State, t: nat) returns (steps: seq<Step>)
    requires Inv(msgs, s) && Values(msgs) && t < |s.threads| && !Finished(s.threads[t]) && |s.bell.bells| % 16 == 0
    ensures Legal(msgs, s, steps) && Moved(msgs, s, Run(msgs, s, steps), t)
    ensures Left(Run(msgs, s, steps).threads[t]) < Left(s.threads[t])
  {
    var th := s.threads[t];
    assert ThreadOk(msgs, s.bell.clients, th);
    if th.pc.Await? {
      steps := ReadNext(msgs, s, t);
    } else if MustRead(th) {
      steps := PopAndRead(msgs, s, t);
    } else {
      steps := WriteNext(msgs, s, t);
    }
  }

  /** Thread t works off all its messages. */
  lemma {:induction false} ThreadFinishes(msgs: seq<nat>, s: State, t: nat) returns (steps: seq<Step>)
    requires Inv(msgs, s) && Values(msgs) && t < |s.threads| && |s.bell.bells| % 16 == 0
    ensures Legal(msgs, s, steps) && Moved(msgs, s, Run(msgs, s, steps), t) && Finished(Run(msgs, s, steps).threads[t])
    decreases Left(s.threads[t])
  {
    assert ThreadOk(msgs, s.bell.clients, s.threads[t]);
    if Finished(s.threads[t]) {
      return [];
    }
    steps := ThreadMoves(msgs, s, t);
    var s1 := Run(msgs, s, steps);
    assert ThreadOk(msgs, s1.bell.clients, s1.threads[t]);
    var rest := ThreadFinishes(msgs, s1, t);
    RunConcat(msgs, s, steps, rest);
    steps := steps + rest;
  }

  ghost predicate FinishedUpTo(threads: seq<Thread>, t: nat) {
    t <= |threads| && forall u :: 0 <= u < t ==> Finished(threads[u])
  }

  ghost predicate SameTotals(a: seq<Thread>, b: seq<Thread>) {
    |a| == |b| && forall u :: 0 <= u < |a| ==> a[u].total == b[u].total
  }

  lemma {:induction false} AllFinish(msgs: seq<nat>, s: State, t: nat) returns (steps: seq<Step>)
    requires Inv(msgs, s) && Values(msgs) && FinishedUpTo(s.threads, t) && |s.bell.bells| % 16 == 0
    ensures Legal(msgs, s, steps) && Inv(msgs, Run(msgs, s, steps)) && SameTotals(s.threads, Run(msgs, s, steps).threads)
    ensures FinishedUpTo(Run(msgs, s, steps).threads, |s.threads|)
    decreases |s.threads| - t
  {
    if t == |s.threads| {
      return [];
    }
    steps := ThreadFinishes(msgs, s, t);
    var s1 := Run(msgs, s, steps);
    var rest := AllFinish(msgs, s1, t + 1);
    RunConcat(msgs, s, steps, rest);
    steps := steps + rest;
  }

  // ----- whole runs -----

  lemma {:induction false} BellsStay(b: D.State, step: D.Step)
    requires D.Enabled(b, step)
    ensures |D.Do(b, step).bells| == |b.bells|
  {
  }

  lemma {:induction false} BellCountStays(msgs: seq<nat>, s: State, step: Step)
    requires Enabled(msgs, s, step)
    ensures |Do(msgs, s, step).bell.bells| == |s.bell.bells|
  {
    match step
    case Behind(d) => BellsStay(s.bell, d);
    case Look(_, d) => BellsStay(s.bell, d);
    case Pop(_) =>
    case Finish(t) => BellsStay(s.bell, D.Collect(s.threads[t].pc.c));
    case Write(_) =>
  }

  lemma {:induction false} RunKeepsBells(msgs: seq<nat>, s: State, steps: seq<Step>)
    requires Legal(msgs, s, steps)
    ensures |Run(msgs, s, steps).bell.bells| == |s.bell.bells|
    decreases |steps|
  {
    if steps != [] {
      BellCountStays(msgs, s, steps[0]);
      RunKeepsBells(msgs, Do(msgs, s, steps[0]), steps[1..]);
    }
  }

  function AllDone(threads: seq<Thread>, k: nat): nat
    requires k <= |threads|
  {
    if k == 0 then 0 else AllDone(threads, k - 1) + threads[k - 1].done
  }

  lemma {:induction false} DoneIsShares(threads: seq<Thread>, total: nat, k: nat)
    requires FinishedUpTo(threads, |threads|) && k <= |threads|
    requires forall t :: 0 <= t < |threads| ==> threads[t].total == Share(total, |threads|, t)
    ensures k > 0 ==> AllDone(threads, k) == Shares(total, |threads|, k)
    ensures k == 0 ==> AllDone(threads, k) == 0
  {
    if k > 0 {
      DoneIsShares(threads, total, k - 1);
    }
  }

  /** Continued by `more`, every thread is through, and together they have got all answers. */
  ghost predicate Completes(msgs: seq<nat>, s: State, steps: seq<Step>, more: seq<Step>) {
    && Legal(msgs, s, steps + more)
    && var s' := Run(msgs, s, steps + more);
       && FinishedUpTo(s'.threads, |s'.threads|) && AllDone(s'.threads, |s'.threads|) == |msgs|
       && !s'.unexpected && !s'.violated
  }

  /** Every run of all threads, card and server can be continued until each thread has sent its share of the messages
      and read back every answer, all of them as expected. */
  lemma {:induction false} EveryRunCompletes(msgs: seq<nat>, clients: nat, threads: nat, slots: nat, cap: nat, steps: seq<Step>)
    requires 0 < threads <= clients <= slots && slots % 16 == 0 && cap >= 13 && Values(msgs)
    requires Legal(msgs, Init(msgs, clients, threads, slots, cap), steps)
    ensures exists more :: Completes(msgs, Init(msgs, clients, threads, slots, cap), steps, more)
  {
    var s0 := Init(msgs, clients, threads, slots, cap);
    InitInv(msgs, clients, threads, slots, cap);
    RunKeeps(msgs, s0, steps);
    ShapesStay(msgs, s0, steps);
    RunKeepsBells(msgs, s0, steps);
    var s := Run(msgs, s0, steps);
    var more := AllFinish(msgs, s, 0);
    RunConcat(msgs, s0, steps, more);
    var s' := Run(msgs, s, more);
    DoneIsShares(s'.threads, |msgs|, threads);
    SplitIsExact(|msgs|, threads);
    assert Completes(msgs, s0, steps, more);
  }
}
