/** Two peers on the shared-memory ring, each working through its own list of calls, byte by byte: they lock up
    exactly where the counting argument says so, and with the same list on both sides every run can be completed. */
module SharedRuns {
  import opened Frames
  import opened Chunking
  import opened SharedDeadlock
  import SharedRing

  /** The byte-level ring with a writer working through ws and a reader working through rs; i writes and j reads
      are complete. */
  datatype Peers = Peers(s: SharedRing.State, i: nat, j: nat)

  predicate Enabled(ws: seq<nat>, rs: seq<nat>, p: Peers, step: SharedRing.Step) {
    && SharedRing.Enabled(p.s, step)
    && (step.BeginSend? ==> p.i < |ws| && |step.data| == ws[p.i])
    && (step.BeginReceive? ==> p.j < |rs| && step.max == rs[p.j])
    && !step.BeginReceiveSome?
  }

  function Do(ws: seq<nat>, rs: seq<nat>, p: Peers, step: SharedRing.Step): Peers
    requires Enabled(ws, rs, p, step)
  {
    Peers(SharedRing.Do(p.s, step),
          if step.PublishWritten? then p.i + 1 else p.i,
          if step.PublishRead? then p.j + 1 else p.j)
  }

  ghost predicate WriterCall(writer: SharedRing.Writer, ws: seq<nat>, i: nat) {
    i <= |ws| && match writer
                 case Idle => true
                 case Entering(data) => i < |ws| && |data| == ws[i]
                 case Looping(data) => i < |ws| && |data| == ws[i]
                 case Copying(data, _) => i < |ws| && |data| == ws[i]
  }

  ghost predicate ReaderCall(reader: SharedRing.Reader, rs: seq<nat>, j: nat) {
    j <= |rs| && match reader
                 case Ready => true
                 case Waiting(max, some) => j < |rs| && max == rs[j] && !some
                 case CopyingOut(size, _) => j < |rs| && size == rs[j]
  }

  /** The published positions are the sums of the completed calls. */
  ghost predicate Inv(ws: seq<nat>, rs: seq<nat>, p: Peers) {
    && SharedRing.Inv(p.s) && p.s.intended
    && WriterCall(p.s.writer, ws, p.i) && ReaderCall(p.s.reader, rs, p.j)
    && p.s.written == Sum(ws[..p.i]) && p.s.read == Sum(rs[..p.j])
  }

  lemma {:induction false} NextSum(s: seq<nat>, i: nat)
    requires i < |s|
    ensures Sum(s[..i + 1]) == Sum(s[..i]) + s[i]
  {
    assert s[..i + 1] == s[..i] + [s[i]];
    SumSnoc(s[..i], s[i]);
  }

  lemma {:induction false} StepKeeps(ws: seq<nat>, rs: seq<nat>, p: Peers, step: SharedRing.Step)
    requires Inv(ws, rs, p) && Enabled(ws, rs, p, step)
    ensures Inv(ws, rs, Do(ws, rs, p, step))
  {
    SharedRing.StepKeeps(p.s, step);
    if step.PublishWritten? {
      NextSum(ws, p.i);
    } else if step.PublishRead? {
      NextSum(rs, p.j);
    }
  }

  /** The writer re-reads the read position and still has to wait. */
  predicate WriterWaits(s: SharedRing.State) {
    SharedRing.Enabled(s, SharedRing.Refresh) && SharedRing.Do(s, SharedRing.Refresh).writer.Looping?
  }

  /** The reader does not see enough bytes. */
  predicate ReaderWaits(s: SharedRing.State) {
    s.reader.Waiting? && !SharedRing.Enabled(s, SharedRing.StartRead)
  }

  /** Waiting bytewise is waiting for a call. */
  lemma {:induction false} WaitingIsDeadlock(ws: seq<nat>, rs: seq<nat>, p: Peers)
    requires Inv(ws, rs, p)
    ensures WriterWaits(p.s) && ReaderWaits(p.s) ==> Deadlock(|p.s.ring|, ws, rs, p.i, p.j)
  {
  }

  predicate Legal(ws: seq<nat>, rs: seq<nat>, p: Peers, steps: seq<SharedRing.Step>)
    decreases |steps|
  {
    steps == [] || (Enabled(ws, rs, p, steps[0]) && Legal(ws, rs, Do(ws, rs, p, steps[0]), steps[1..]))
  }

  function Run(ws: seq<nat>, rs: seq<nat>, p: Peers, steps: seq<SharedRing.Step>): Peers
    requires Legal(ws, rs, p, steps)
    decreases |steps|
  {
    if steps == [] then p else Run(ws, rs, Do(ws, rs, p, steps[0]), steps[1..])
  }

  lemma {:induction false} RunKeeps(ws: seq<nat>, rs: seq<nat>, p: Peers, steps: seq<SharedRing.Step>)
    requires Inv(ws, rs, p) && Legal(ws, rs, p, steps)
    ensures Inv(ws, rs, Run(ws, rs, p, steps)) && |Run(ws, rs, p, steps).s.ring| == |p.s.ring|
    decreases |steps|
  {
    if steps != [] {
      StepKeeps(ws, rs, p, steps[0]);
      RunKeeps(ws, rs, Do(ws, rs, p, steps[0]), steps[1..]);
    }
  }

  /** In every interleaving: both sides wait only where the call counts say so. */
  lemma {:induction false} BothWaitOnlyInDeadlock(n: nat, ws: seq<nat>, rs: seq<nat>, steps: seq<SharedRing.Step>)
    requires n > 0
    requires Legal(ws, rs, Start(n), steps)
    ensures var p := Run(ws, rs, Start(n), steps);
            WriterWaits(p.s) && ReaderWaits(p.s) ==> Deadlock(n, ws, rs, p.i, p.j)
  {
    var p0 := Peers(SharedRing.Init(n, true), 0, 0);
    SharedRing.InitInv(n, true);
    assert ws[..0] == [] && rs[..0] == [];
    RunKeeps(ws, rs, p0, steps);
    WaitingIsDeadlock(ws, rs, Run(ws, rs, p0, steps));
  }

  // ----- completing calls -----

  lemma {:induction false} RunCons(ws: seq<nat>, rs: seq<nat>, p: Peers, step: SharedRing.Step, rest: seq<SharedRing.Step>)
    requires Enabled(ws, rs, p, step) && Legal(ws, rs, Do(ws, rs, p, step), rest)
    ensures Legal(ws, rs, p, [step] + rest) && Run(ws, rs, p, [step] + rest) == Run(ws, rs, Do(ws, rs, p, step), rest)
  {
    assert ([step] + rest)[1..] == rest;
  }

  lemma {:induction false} RunConcat(ws: seq<nat>, rs: seq<nat>, p: Peers, a: seq<SharedRing.Step>, b: seq<SharedRing.Step>)
    requires Legal(ws, rs, p, a) && Legal(ws, rs, Run(ws, rs, p, a), b)
    ensures Legal(ws, rs, p, a + b) && Run(ws, rs, p, a + b) == Run(ws, rs, Run(ws, rs, p, a), b)
    decreases |a|
  {
    if a == [] {
      assert a + b == b;
    } else {
      assert (a + b)[0] == a[0] && (a + b)[1..] == a[1..] + b;
      RunConcat(ws, rs, Do(ws, rs, p, a[0]), a[1..], b);
    }
  }

  function WriterLeft(writer: SharedRing.Writer): nat {
    match writer
    case Idle => 0
    case Entering(data) => 3 + |data|
    case Looping(data) => 2 + |data|
    case Copying(data, k) => if k <= |data| then 1 + |data| - k else 0
  }

  function WriterStep(s: SharedRing.State): SharedRing.Step {
    match s.writer
    case Idle => SharedRing.PublishWritten
    case Entering(data) => if SharedRing.ReturnsEarly(s, |data|) then SharedRing.EarlyReturn else SharedRing.EnterLoop
    case Looping(_) => SharedRing.Refresh
    case Copying(data, k) => if k < |data| then SharedRing.CopyByte else SharedRing.PublishWritten
  }

  /** The call that the writer is in finds room. */
  predicate WriterCanFinish(s: SharedRing.State) {
    !s.writer.Idle? && (s.writer.Copying? || s.written - s.read + |s.writer.data| <= |s.ring|)
  }

  lemma {:induction false} WriterStepWorks(ws: seq<nat>, rs: seq<nat>, p: Peers)
    requires Inv(ws, rs, p) && WriterCanFinish(p.s)
    ensures Enabled(ws, rs, p, WriterStep(p.s))
    ensures var p' := Do(ws, rs, p, WriterStep(p.s));
            && Inv(ws, rs, p') && WriterLeft(p'.s.writer) < WriterLeft(p.s.writer)
            && p'.j == p.j && p'.s.reader == p.s.reader && |p'.s.ring| == |p.s.ring|
            && SharedRing.Accepted(p'.s) == SharedRing.Accepted(p.s)
            && (if p'.s.writer.Idle? then p'.i == p.i + 1 else p'.i == p.i && WriterCanFinish(p'.s))
  {
    StepKeeps(ws, rs, p, WriterStep(p.s));
    SharedRing.StepSends(p.s, WriterStep(p.s));
  }

  /** A writer that has room completes its call; the reader is not needed. */
  lemma {:induction false} FinishWrite(ws: seq<nat>, rs: seq<nat>, p: Peers) returns (steps: seq<SharedRing.Step>)
    requires Inv(ws, rs, p) && WriterCanFinish(p.s)
    ensures Legal(ws, rs, p, steps)
    ensures var p' := Run(ws, rs, p, steps);
            && Inv(ws, rs, p') && p'.i == p.i + 1 && p'.j == p.j && p'.s.writer.Idle? && p'.s.reader == p.s.reader
            && |p'.s.ring| == |p.s.ring| && SharedRing.Accepted(p'.s) == SharedRing.Accepted(p.s)
    decreases WriterLeft(p.s.writer)
  {
    WriterStepWorks(ws, rs, p);
    var step, rest := WriterStep(p.s), [];
    var p1 := Do(ws, rs, p, step);
    if !p1.s.writer.Idle? {
      rest := FinishWrite(ws, rs, p1);
    }
    RunCons(ws, rs, p, step, rest);
    steps := [step] + rest;
  }

  function ReaderLeft(reader: SharedRing.Reader): nat {
    match reader
    case Ready => 0
    case Waiting(max, _) => 2 + max
    case CopyingOut(size, out) => if |out| <= size then 1 + size - |out| else 0
  }

  function ReaderStep(s: SharedRing.State): SharedRing.Step {
    match s.reader
    case Ready => SharedRing.PublishRead
    case Waiting(_, _) => SharedRing.StartRead
    case CopyingOut(size, out) => if |out| < size then SharedRing.ReadByte else SharedRing.PublishRead
  }

  predicate ReaderCanFinish(s: SharedRing.State) {
    !s.reader.Ready? && (s.reader.CopyingOut? || SharedRing.Available(s) >= s.reader.max)
  }

  lemma {:induction false} ReaderStepWorks(ws: seq<nat>, rs: seq<nat>, p: Peers)
    requires Inv(ws, rs, p) && ReaderCanFinish(p.s)
    ensures Enabled(ws, rs, p, ReaderStep(p.s))
    ensures var p' := Do(ws, rs, p, ReaderStep(p.s));
            && Inv(ws, rs, p') && ReaderLeft(p'.s.reader) < ReaderLeft(p.s.reader)
            && p'.i == p.i && p'.s.writer == p.s.writer && |p'.s.ring| == |p.s.ring|
            && SharedRing.Accepted(p'.s) == SharedRing.Accepted(p.s)
            && (if p'.s.reader.Ready? then p'.j == p.j + 1 else p'.j == p.j && ReaderCanFinish(p'.s))
  {
    StepKeeps(ws, rs, p, ReaderStep(p.s));
    SharedRing.StepSends(p.s, ReaderStep(p.s));
  }

  /** A reader that sees enough bytes completes its call; the writer is not needed. */
  lemma {:induction false} FinishRead(ws: seq<nat>, rs: seq<nat>, p: Peers) returns (steps: seq<SharedRing.Step>)
    requires Inv(ws, rs, p) && ReaderCanFinish(p.s)
    ensures Legal(ws, rs, p, steps)
    ensures var p' := Run(ws, rs, p, steps);
            && Inv(ws, rs, p') && p'.i == p.i && p'.j == p.j + 1 && p'.s.writer == p.s.writer && p'.s.reader.Ready?
            && |p'.s.ring| == |p.s.ring| && SharedRing.Accepted(p'.s) == SharedRing.Accepted(p.s)
    decreases ReaderLeft(p.s.reader)
  {
    ReaderStepWorks(ws, rs, p);
    var step, rest := ReaderStep(p.s), [];
    var p1 := Do(ws, rs, p, step);
    if !p1.s.reader.Ready? {
      rest := FinishRead(ws, rs, p1);
    }
    RunCons(ws, rs, p, step, rest);
    steps := [step] + rest;
  }

  ghost predicate CallsFit(ws: seq<nat>, n: nat) {
    forall i :: 0 <= i < |ws| ==> ws[i] <= n
  }

  lemma {:induction false} BeginWrite(ws: seq<nat>, rs: seq<nat>, p: Peers, data: seq<byte>) returns (step: SharedRing.Step)
    requires Inv(ws, rs, p) && CallsFit(ws, |p.s.ring|) && p.s.writer.Idle? && p.i < |ws| && |data| == ws[p.i]
    ensures step == SharedRing.BeginSend(data) && Enabled(ws, rs, p, step) && Inv(ws, rs, Do(ws, rs, p, step))
    ensures Do(ws, rs, p, step) == p.(s := p.s.(writer := SharedRing.Entering(data)))
  {
    step := SharedRing.BeginSend(data);
    StepKeeps(ws, rs, p, step);
  }

  lemma {:induction false} BeginRead(ws: seq<nat>, rs: seq<nat>, p: Peers) returns (step: SharedRing.Step)
    requires Inv(ws, rs, p) && p.s.reader.Ready? && p.j < |rs|
    ensures Enabled(ws, rs, p, step) && Inv(ws, rs, Do(ws, rs, p, step))
    ensures Do(ws, rs, p, step) == p.(s := p.s.(reader := SharedRing.Waiting(rs[p.j], false)))
  {
    step := SharedRing.BeginReceive(rs[p.j]);
    StepKeeps(ws, rs, p, step);
  }

  // ----- every schedule of calls is a run -----

  /** i writes and j reads are complete and no call is underway. */
  ghost predicate Between(n: nat, ws: seq<nat>, rs: seq<nat>, p: Peers, i: nat, j: nat) {
    Inv(ws, rs, p) && |p.s.ring| == n && p.i == i && p.j == j && p.s.writer.Idle? && p.s.reader.Ready?
  }

  lemma {:induction false} WriteCall(n: nat, ws: seq<nat>, rs: seq<nat>, p: Peers) returns (steps: seq<SharedRing.Step>)
    requires Between(n, ws, rs, p, p.i, p.j) && CallsFit(ws, n) && CanWrite(n, ws, rs, p.i, p.j)
    ensures Legal(ws, rs, p, steps) && Between(n, ws, rs, Run(ws, rs, p, steps), p.i + 1, p.j)
  {
    var step := BeginWrite(ws, rs, p, Zeros(ws[p.i]));
    var rest := FinishWrite(ws, rs, Do(ws, rs, p, step));
    RunCons(ws, rs, p, step, rest);
    steps := [step] + rest;
  }

  lemma {:induction false} ReadCall(n: nat, ws: seq<nat>, rs: seq<nat>, p: Peers) returns (steps: seq<SharedRing.Step>)
    requires Between(n, ws, rs, p, p.i, p.j) && CanRead(ws, rs, p.i, p.j)
    ensures Legal(ws, rs, p, steps) && Between(n, ws, rs, Run(ws, rs, p, steps), p.i, p.j + 1)
  {
    var step := BeginRead(ws, rs, p);
    var rest := FinishRead(ws, rs, Do(ws, rs, p, step));
    RunCons(ws, rs, p, step, rest);
    steps := [step] + rest;
  }

  lemma {:induction false} ScheduleIsRun(n: nat, ws: seq<nat>, rs: seq<nat>, p: Peers, moves: seq<bool>)
    returns (steps: seq<SharedRing.Step>)
    requires Between(n, ws, rs, p, p.i, p.j) && CallsFit(ws, n) && Schedule(n, ws, rs, p.i, p.j, moves)
    ensures Legal(ws, rs, p, steps)
    ensures Between(n, ws, rs, Run(ws, rs, p, steps), p.i + Count(moves, true), p.j + Count(moves, false))
    decreases |moves|
  {
    if moves == [] {
      return [];
    }
    if moves[0] {
      steps := WriteCall(n, ws, rs, p);
    } else {
      steps := ReadCall(n, ws, rs, p);
    }
    var rest := ScheduleIsRun(n, ws, rs, Run(ws, rs, p, steps), moves[1..]);
    RunConcat(ws, rs, p, steps, rest);
    steps := steps + rest;
  }

  /** Where the counts say that both wait, both begin their next call and wait. */
  lemma {:induction false} BothBlock(n: nat, ws: seq<nat>, rs: seq<nat>, p: Peers) returns (steps: seq<SharedRing.Step>)
    requires Between(n, ws, rs, p, p.i, p.j) && CallsFit(ws, n) && Deadlock(n, ws, rs, p.i, p.j)
    ensures Legal(ws, rs, p, steps)
    ensures WriterWaits(Run(ws, rs, p, steps).s) && ReaderWaits(Run(ws, rs, p, steps).s)
  {
    var read := BeginRead(ws, rs, p);
    var p1 := Do(ws, rs, p, read);
    var write := BeginWrite(ws, rs, p1, Zeros(ws[p1.i]));
    var p2 := Do(ws, rs, p1, write);
    RunCons(ws, rs, p2, SharedRing.EnterLoop, []);
    RunCons(ws, rs, p1, write, [SharedRing.EnterLoop] + []);
    RunCons(ws, rs, p, read, [write] + ([SharedRing.EnterLoop] + []));
    steps := [read] + ([write] + ([SharedRing.EnterLoop] + []));
  }

  function Start(n: nat): Peers {
    Peers(SharedRing.Init(n, true), 0, 0)
  }

  lemma {:induction false} StartInv(n: nat, ws: seq<nat>, rs: seq<nat>)
    requires n > 0
    ensures Between(n, ws, rs, Start(n), 0, 0)
  {
    SharedRing.InitInv(n, true);
    assert ws[..0] == [] && rs[..0] == [];
  }

  /** A run that leaves both peers waiting. */
  ghost predicate LocksUp(n: nat, ws: seq<nat>, rs: seq<nat>, steps: seq<SharedRing.Step>) {
    && Legal(ws, rs, Start(n), steps)
    && WriterWaits(Run(ws, rs, Start(n), steps).s) && ReaderWaits(Run(ws, rs, Start(n), steps).s)
  }

  ghost predicate CanLockUp(n: nat, ws: seq<nat>, rs: seq<nat>) {
    exists steps :: LocksUp(n, ws, rs, steps)
  }

  /** Two peers whose writes fit the ring can block each other in some interleaving of their memory accesses if and
      only if some pair of call counts makes both wait. */
  lemma {:induction false} LockUpIsExact(n: nat, ws: seq<nat>, rs: seq<nat>)
    requires n > 0 && CallsFit(ws, n)
    ensures CanLockUp(n, ws, rs) <==> exists i, j :: Deadlock(n, ws, rs, i, j)
  {
    if steps :| LocksUp(n, ws, rs, steps) {
      BothWaitOnlyInDeadlock(n, ws, rs, steps);
    }
    if i, j :| Deadlock(n, ws, rs, i, j) {
      var moves := RunsIntoDeadlock(n, ws, rs, i, j, 0, 0);
      StartInv(n, ws, rs);
      var steps := ScheduleIsRun(n, ws, rs, Start(n), moves);
      var blocking := BothBlock(n, ws, rs, Run(ws, rs, Start(n), steps));
      RunConcat(ws, rs, Start(n), steps, blocking);
      assert LocksUp(n, ws, rs, steps + blocking);
    }
  }

  /** The writer publishes only what it had room for, the reader takes only what was there. */
  lemma {:induction false} StepStaysConfined(n: nat, ws: seq<nat>, rs: seq<nat>, p: Peers, step: SharedRing.Step, i: nat, j: nat)
    requires Inv(ws, rs, p) && |p.s.ring| == n && Enabled(ws, rs, p, step)
    requires Deadlock(n, ws, rs, i, j) && p.i <= i && p.j <= j
    ensures Do(ws, rs, p, step).i <= i && Do(ws, rs, p, step).j <= j
  {
    Confined(n, ws, rs, i, j, p.i, p.j);
    assert step.PublishWritten? ==> CanWrite(n, ws, rs, p.i, p.j);
    assert step.PublishRead? ==> CanRead(ws, rs, p.i, p.j);
  }

  lemma {:induction false} RunStaysConfined(n: nat, ws: seq<nat>, rs: seq<nat>, p: Peers, steps: seq<SharedRing.Step>, i: nat, j: nat)
    requires Inv(ws, rs, p) && |p.s.ring| == n && Legal(ws, rs, p, steps)
    requires Deadlock(n, ws, rs, i, j) && p.i <= i && p.j <= j
    ensures Run(ws, rs, p, steps).i <= i && Run(ws, rs, p, steps).j <= j
    decreases |steps|
  {
    if steps != [] {
      StepKeeps(ws, rs, p, steps[0]);
      StepStaysConfined(n, ws, rs, p, steps[0], i, j);
      RunStaysConfined(n, ws, rs, Do(ws, rs, p, steps[0]), steps[1..], i, j);
    }
  }

  /** If two peers can lock up at all, then no run whatsoever completes either list of calls. */
  lemma {:induction false} LockUpIsInevitable(n: nat, ws: seq<nat>, rs: seq<nat>, steps: seq<SharedRing.Step>)
    requires n > 0 && CallsFit(ws, n) && CanLockUp(n, ws, rs)
    requires Legal(ws, rs, Start(n), steps)
    ensures Run(ws, rs, Start(n), steps).i < |ws| && Run(ws, rs, Start(n), steps).j < |rs|
  {
    LockUpIsExact(n, ws, rs);
    var i, j :| Deadlock(n, ws, rs, i, j);
    StartInv(n, ws, rs);
    RunStaysConfined(n, ws, rs, Start(n), steps, i, j);
  }

  /** `write(1), write(n)` against `read(n + 1)` locks up for every ring of at least two bytes. */
  lemma {:induction false} MismatchLocksUp(n: nat)
    requires n >= 2
    ensures CanLockUp(n, AllChunks([1, n], n), AllChunks([n + 1], n))
  {
    MismatchWaits(n);
    LockUpIsExact(n, AllChunks([1, n], n), AllChunks([n + 1], n));
  }

  // ----- the same calls on both sides -----

  /** Peers that write and read the same sequence of sizes through the chunk loops never both wait. */
  lemma {:induction false} SameSizesNeverLockUp(n: nat, sizes: seq<nat>, steps: seq<SharedRing.Step>)
    requires n > 0
    requires Legal(AllChunks(sizes, n), AllChunks(sizes, n), Start(n), steps)
    ensures var p := Run(AllChunks(sizes, n), AllChunks(sizes, n), Start(n), steps);
            !(WriterWaits(p.s) && ReaderWaits(p.s))
  {
    var cs := AllChunks(sizes, n);
    var p := Run(cs, cs, Start(n), steps);
    BothWaitOnlyInDeadlock(n, cs, cs, steps);
    AllChunksWithin(sizes, n);
    SameCallsNeverWait(n, cs, p.i, p.j);
  }

  lemma {:induction false} SumLeft(cs: seq<nat>, i: nat, j: nat)
    requires i < |cs| && j <= |cs| && cs[i] > 0 && Sum(cs[..j]) <= Sum(cs[..i])
    ensures j <= i
  {
    if i < j {
      SumPrefix(cs, i, j);
      assert false;
    }
  }

  /** While calls are left, one of the two peers can complete the call it is in. */
  lemma {:induction false} OneCanFinish(n: nat, cs: seq<nat>, p: Peers)
    requires Inv(cs, cs, p) && |p.s.ring| == n && AllWithin(cs, n)
    requires p.s.writer.Idle? ==> p.i == |cs|
    requires p.s.reader.Ready? ==> p.j == |cs|
    ensures WriterCanFinish(p.s) || ReaderCanFinish(p.s) || (p.i == |cs| && p.j == |cs|)
  {
    SameCallsNeverWait(n, cs, p.i, p.j);
    if p.i < |cs| && p.j == |cs| {
      SumLeft(cs, p.i, p.j);
    } else if p.j < |cs| && p.i == |cs| {
      SumPrefix(cs, p.j, p.i);
    }
  }

  function Flat(datas: seq<seq<byte>>): seq<byte> {
    if datas == [] then [] else datas[0] + Flat(datas[1..])
  }

  /** The data of the calls cs. */
  ghost predicate DataOf(datas: seq<seq<byte>>, cs: seq<nat>) {
    |datas| == |cs| && forall i :: 0 <= i < |cs| ==> |datas[i]| == cs[i]
  }

  /** The next call that was not begun. */
  function Next(p: Peers): nat {
    p.i + if p.s.writer.Idle? then 0 else 1
  }

  /** The calls not begun in p were made with their data, and all calls are complete. */
  ghost predicate WorkedOff(n: nat, cs: seq<nat>, datas: seq<seq<byte>>, p: Peers, p': Peers) {
    && Between(n, cs, cs, p', |cs|, |cs|)
    && Next(p) <= |datas| && SharedRing.Accepted(p'.s) == SharedRing.Accepted(p.s) + Flat(datas[Next(p)..])
  }

  lemma {:induction false} NextData(datas: seq<seq<byte>>, k: nat)
    requires k < |datas|
    ensures Flat(datas[k..]) == datas[k] + Flat(datas[k + 1..])
  {
    assert datas[k..][1..] == datas[k + 1..];
  }

  /** From any state of any run both peers can work off their calls, with any data in those that were not begun. */
  lemma {:induction false} Complete(n: nat, cs: seq<nat>, datas: seq<seq<byte>>, p: Peers) returns (steps: seq<SharedRing.Step>)
    requires Inv(cs, cs, p) && |p.s.ring| == n && AllWithin(cs, n) && DataOf(datas, cs)
    ensures Legal(cs, cs, p, steps) && WorkedOff(n, cs, datas, p, Run(cs, cs, p, steps))
    decreases |cs| - p.i + (|cs| - p.j), (if p.s.writer.Idle? then 1 else 0) + (if p.s.reader.Ready? then 1 else 0), 1
  {
    if p.s.writer.Idle? && p.i < |cs| {
      var data := datas[p.i];
      var step := BeginWrite(cs, cs, p, data);
      SharedRing.StepSends(p.s, step);
      NextData(datas, p.i);
      Associative(SharedRing.Accepted(p.s), data, Flat(datas[p.i + 1..]));
      steps := Complete(n, cs, datas, Do(cs, cs, p, step));
      RunCons(cs, cs, p, step, steps);
      steps := [step] + steps;
    } else if p.s.reader.Ready? && p.j < |cs| {
      var step := BeginRead(cs, cs, p);
      steps := Complete(n, cs, datas, Do(cs, cs, p, step));
      RunCons(cs, cs, p, step, steps);
      steps := [step] + steps;
    } else {
      steps := FinishOne(n, cs, datas, p);
    }
  }

  lemma {:induction false} FinishOne(n: nat, cs: seq<nat>, datas: seq<seq<byte>>, p: Peers) returns (steps: seq<SharedRing.Step>)
    requires Inv(cs, cs, p) && |p.s.ring| == n && AllWithin(cs, n) && DataOf(datas, cs)
    requires p.s.writer.Idle? ==> p.i == |cs|
    requires p.s.reader.Ready? ==> p.j == |cs|
    ensures Legal(cs, cs, p, steps) && WorkedOff(n, cs, datas, p, Run(cs, cs, p, steps))
    decreases |cs| - p.i + (|cs| - p.j), (if p.s.writer.Idle? then 1 else 0) + (if p.s.reader.Ready? then 1 else 0), 0
  {
    OneCanFinish(n, cs, p);
    if WriterCanFinish(p.s) {
      steps := FinishWrite(cs, cs, p);
    } else if ReaderCanFinish(p.s) {
      steps := FinishRead(cs, cs, p);
    } else {
      assert datas[|cs|..] == [];
      return [];
    }
    var rest := Complete(n, cs, datas, Run(cs, cs, p, steps));
    RunConcat(cs, cs, p, steps, rest);
    steps := steps + rest;
  }

  /** A run of the peers is a run of the ring. */
  lemma {:induction false} RunOfRing(ws: seq<nat>, rs: seq<nat>, p: Peers, steps: seq<SharedRing.Step>)
    requires Legal(ws, rs, p, steps)
    ensures SharedRing.Legal(p.s, steps) && Run(ws, rs, p, steps).s == SharedRing.Run(p.s, steps)
    decreases |steps|
  {
    if steps != [] {
      RunOfRing(ws, rs, Do(ws, rs, p, steps[0]), steps[1..]);
    }
  }

  /** All calls are complete, and exactly what was handed over is received. */
  ghost predicate AllDone(n: nat, cs: seq<nat>, steps: seq<SharedRing.Step>) {
    && Legal(cs, cs, Start(n), steps)
    && var p := Run(cs, cs, Start(n), steps);
       p.i == |cs| && p.j == |cs| && |SharedRing.Handed(steps)| == Sum(cs) && p.s.received == SharedRing.Handed(steps)
  }

  lemma {:induction false} BetweenIsAllDone(n: nat, cs: seq<nat>, steps: seq<SharedRing.Step>)
    requires n > 0 && Legal(cs, cs, Start(n), steps) && Between(n, cs, cs, Run(cs, cs, Start(n), steps), |cs|, |cs|)
    ensures AllDone(n, cs, steps)
  {
    var p := Run(cs, cs, Start(n), steps);
    RunOfRing(cs, cs, Start(n), steps);
    SharedRing.PublishedIsHanded(n, true, steps);
    assert p.s.sent[..|p.s.sent|] == p.s.sent && cs[..|cs|] == cs;
  }

  function ZeroData(cs: seq<nat>): seq<seq<byte>> {
    seq(|cs|, i requires 0 <= i < |cs| => Zeros(cs[i]))
  }

  /** Every run of two peers with the same sizes can be continued until both have worked off all their calls, and then
      everything handed over is received. */
  lemma {:induction false} SameSizesComplete(n: nat, sizes: seq<nat>, steps: seq<SharedRing.Step>)
    requires n > 0 && Legal(AllChunks(sizes, n), AllChunks(sizes, n), Start(n), steps)
    ensures exists more :: AllDone(n, AllChunks(sizes, n), steps + more)
  {
    var cs := AllChunks(sizes, n);
    AllChunksWithin(sizes, n);
    StartInv(n, cs, cs);
    RunKeeps(cs, cs, Start(n), steps);
    var more := Complete(n, cs, ZeroData(cs), Run(cs, cs, Start(n), steps));
    RunConcat(cs, cs, Start(n), steps, more);
    BetweenIsAllDone(n, cs, steps + more);
  }

  /** Any data can be handed over in calls that fit the ring, and is then received. */
  lemma {:induction false} AnyDataGetsThrough(n: nat, cs: seq<nat>, datas: seq<seq<byte>>)
    requires n > 0 && AllWithin(cs, n) && DataOf(datas, cs)
    ensures exists steps :: AllDone(n, cs, steps) && SharedRing.Handed(steps) == Flat(datas)
  {
    StartInv(n, cs, cs);
    var steps := Complete(n, cs, datas, Start(n));
    BetweenIsAllDone(n, cs, steps);
    RunOfRing(cs, cs, Start(n), steps);
    SharedRing.PublishedIsHanded(n, true, steps);
    assert datas[0..] == datas && [] + Flat(datas) == Flat(datas);
  }
}
