/** The pipelined client loop of the benchmark on top of the doorbell protocol: every thread drives its own clients,
    with at most one request outstanding at each, while card and server work in the background.  One step is one access
    of a thread, the card or the server. */
module Pipeline {
  import opened Frames
  import opened Rings
  import D = Doorbell

  // ----- the split over threads -----

  /** Thread `id` gets `total / threads`, and one more while the remainder lasts. */
  function Share(total: nat, threads: nat, id: nat): nat
    requires threads > 0
  {
    total / threads + if total % threads > id then 1 else 0
  }

  function Shares(total: nat, threads: nat, k: nat): nat
    requires threads > 0
  {
    if k == 0 then 0 else Shares(total, threads, k - 1) + Share(total, threads, k - 1)
  }

  lemma {:induction false} SharesSoFar(total: nat, threads: nat, k: nat)
    requires threads > 0
    ensures Shares(total, threads, k) == k * (total / threads) + if k < total % threads then k else total % threads
  {
    if k > 0 {
      SharesSoFar(total, threads, k - 1);
      assert k * (total / threads) == (k - 1) * (total / threads) + total / threads;
    }
  }

  /** All threads together do exactly the requested work; with no more threads than clients each has a client. */
  lemma {:induction false} SplitIsExact(total: nat, threads: nat)
    requires threads > 0
    ensures Shares(total, threads, threads) == total
    ensures threads <= total ==> forall id: nat :: id < threads ==> Share(total, threads, id) >= 1
  {
    SharesSoFar(total, threads, threads);
    var q := total / threads;
    assert total == threads * q + total % threads;
    assert threads * q == q * threads;
    assert q == 0 ==> q * threads == 0;
  }

  /** Earlier threads get at most one piece more than later ones, and never less. */
  lemma {:induction false} SplitIsEven(total: nat, threads: nat, i: nat, j: nat)
    requires threads > 0 && i <= j
    ensures Share(total, threads, j) <= Share(total, threads, i) <= Share(total, threads, j) + 1
  {
  }

  // ----- threads -----

  /** Top: at the head of either loop; Await: inside `read` of the client that was popped; Writing: about to write. */
  datatype Pc = Top | Await(c: nat, expected: nat) | Writing

  datatype Thread = Thread(
    base: nat,                        // its clients are base, ..., base + n - 1
    n: nat,
    total: nat,                       // messages to send
    i: nat,
    done: nat,
    inFlight: seq<(nat, nat)>,        // client and expected value
    pc: Pc)

  datatype State = State(
    bell: D.State,
    threads: seq<Thread>,
    unexpected: bool,                 // "unexpected value!" was thrown
    violated: bool)                   // popped an empty queue, or wrote to a client that still waits for an answer

  datatype Step =
    | Behind(step: D.Step)            // card and server
    | Pop(t: nat)
    | Look(t: nat, step: D.Step)      // the awaited client polls its buffer or copies a byte
    | Finish(t: nat)                  // `read` returns and the answer is compared
    | Write(t: nat)

  /** A message as it is sent: four bytes. */
  function Bytes(v: nat): (m: Message)
    ensures |m| == 4
  {
    LittleEndian(v, 4)
  }

  /** Values are 32-bit words. */
  ghost predicate Values(msgs: seq<nat>) {
    forall i :: 0 <= i < |msgs| ==> msgs[i] < 0x1_0000_0000
  }

  predicate Looks(step: D.Step, c: nat) {
    (step.LoadSize? || step.LoadTrailer? || step.CopyByte?) && step.c == c
  }

  /** The loop reads an answer here: every client has been used, or everything was sent. */
  predicate MustRead(th: Thread) {
    th.pc.Top? && (if th.i < th.total then th.i >= th.n else th.done < th.total)
  }

  predicate MustWrite(th: Thread) {
    th.i < th.total && (th.pc.Writing? || (th.pc.Top? && th.i < th.n))
  }

  predicate Finished(th: Thread) {
    th.pc.Top? && th.i == th.total == th.done
  }

  predicate Enabled(msgs: seq<nat>, s: State, step: Step) {
    match step
    case Behind(d) => D.Background(d) && D.Enabled(s.bell, d)
    case Pop(t) => t < |s.threads| && MustRead(s.threads[t])
    case Look(t, d) =>
      t < |s.threads| && s.threads[t].pc.Await? && Looks(d, s.threads[t].pc.c) && D.Enabled(s.bell, d)
    case Finish(t) => t < |s.threads| && s.threads[t].pc.Await? && D.Enabled(s.bell, D.Collect(s.threads[t].pc.c))
    case Write(t) => t < |s.threads| && MustWrite(s.threads[t]) && s.threads[t].n > 0 && s.threads[t].i < |msgs|
  }

  function Do(msgs: seq<nat>, s: State, step: Step): State
    requires Enabled(msgs, s, step)
  {
    match step
    case Behind(d) => s.(bell := D.Do(s.bell, d))
    case Pop(t) =>
      var th := s.threads[t];
      if th.inFlight == [] then s.(violated := true)
      else
        var (c, expected) := th.inFlight[0];
        s.(threads := s.threads[t := th.(inFlight := th.inFlight[1..], pc := Await(c, expected))])
    case Look(t, d) => s.(bell := D.Do(s.bell, d))
    case Finish(t) =>
      var th := s.threads[t];
      var answer := s.bell.outs[th.pc.c];
      s.(bell := D.Do(s.bell, D.Collect(th.pc.c)),
         unexpected := s.unexpected || |answer| > 4 || Value(answer) != th.pc.expected,
         threads := s.threads[t := Read(th)])
    case Write(t) =>
      var th := s.threads[t];
      var c, v := th.base + th.i % th.n, msgs[th.i];
      if !D.Enabled(s.bell, D.Issue(c, Bytes(v))) then s.(violated := true)
      else s.(bell := D.Do(s.bell, D.Issue(c, Bytes(v))),
              threads := s.threads[t := Wrote(th, c, v)])
  }

  /** `threads` threads share `clients` clients and all messages; the server has room for `slots` clients. */
  function Init(msgs: seq<nat>, clients: nat, threads: nat, slots: nat, cap: nat): State
    requires threads > 0
  {
    State(D.Init(slots, cap),
          seq(threads, t requires 0 <= t < threads =>
                Thread(Shares(clients, threads, t), Share(clients, threads, t), Share(|msgs|, threads, t), 0, 0, [], Top)),
          false, false)
  }

  predicate Legal(msgs: seq<nat>, s: State, steps: seq<Step>)
    decreases |steps|
  {
    steps == [] || (Enabled(msgs, s, steps[0]) && Legal(msgs, Do(msgs, s, steps[0]), steps[1..]))
  }

  function Run(msgs: seq<nat>, s: State, steps: seq<Step>): State
    requires Legal(msgs, s, steps)
    decreases |steps|
  {
    if steps == [] then s else Run(msgs, Do(msgs, s, steps[0]), steps[1..])
  }

  /** Nothing that goes wrong stays unnoticed: an answer with another value, a pop of an empty queue and a write to a
      client that still waits each leave their mark for good. */
  lemma {:induction false} FaultsAreNoticed(msgs: seq<nat>, s: State, step: Step)
    requires Enabled(msgs, s, step)
    ensures s.unexpected ==> Do(msgs, s, step).unexpected
    ensures s.violated ==> Do(msgs, s, step).violated
    ensures step.Finish? && Value(s.bell.outs[s.threads[step.t].pc.c]) != s.threads[step.t].pc.expected ==>
              Do(msgs, s, step).unexpected
    ensures step.Pop? && s.threads[step.t].inFlight == [] ==> Do(msgs, s, step).violated
    ensures step.Write? ==>
              var th := s.threads[step.t];
              var c := th.base + th.i % th.n;
              c < |s.bell.clients| && !s.bell.clients[c].Free? ==> Do(msgs, s, step).violated
  {
  }

  // ----- the invariant -----

  /** Message k is outstanding at its client. */
  ghost predicate Busy(msgs: seq<nat>, clients: seq<D.Client>, base: nat, n: nat, k: nat)
    requires k < |msgs| && n > 0 && base + n <= |clients|
  {
    var client := clients[base + k % n];
    !client.Free? && client.req == Bytes(msgs[k])
  }

  /** Exactly messages lo to hi are outstanding, each at its client. */
  ghost predicate Outstanding(msgs: seq<nat>, clients: seq<D.Client>, base: nat, n: nat, lo: nat, hi: nat) {
    && n > 0 && base + n <= |clients| && lo <= hi <= |msgs| && hi <= lo + n
    && (forall k: nat :: lo <= k < hi ==> Busy(msgs, clients, base, n, k))
    && (forall c: nat :: c < n ==> FreeIfUnused(clients, base, n, lo, hi, c))
  }

  ghost predicate FreeIfUnused(clients: seq<D.Client>, base: nat, n: nat, lo: nat, hi: nat, c: nat)
    requires c < n && base + n <= |clients|
  {
    Unused(n, lo, hi, c) ==> clients[base + c].Free?
  }

  /** None of the messages lo to hi goes to client c. */
  ghost predicate Unused(n: nat, lo: nat, hi: nat, c: nat)
    requires n > 0
  {
    forall k: nat :: lo <= k < hi ==> k % n != c
  }

  ghost predicate Queue(msgs: seq<nat>, inFlight: seq<(nat, nat)>, base: nat, n: nat, lo: nat, hi: nat) {
    && n > 0 && lo <= hi <= |msgs| && |inFlight| == hi - lo
    && forall k: nat :: lo <= k < hi ==> inFlight[k - lo] == Entry(msgs, base, n, k)
  }

  /** Message k goes to client k mod n of the thread. */
  function Entry(msgs: seq<nat>, base: nat, n: nat, k: nat): (nat, nat)
    requires n > 0 && k < |msgs|
  {
    (base + k % n, msgs[k])
  }

  /** How many answers have been read when message i is next. */
  function Before(i: nat, n: nat): nat {
    if i < n then 0 else i - n
  }

  ghost predicate CountersOk(th: Thread) {
    && th.done <= th.i <= th.total
    && match th.pc
       case Top => th.i < th.total ==> th.done == Before(th.i, th.n)
       case Await(_, _) => th.done < th.i && (th.i < th.total ==> th.i >= th.n && th.done == th.i - th.n)
       case Writing => th.i < th.total && th.i >= th.n && th.done == th.i - th.n + 1
  }

  ghost predicate ThreadOk(msgs: seq<nat>, clients: seq<D.Client>, th: Thread) {
    && CountersOk(th) && th.total <= |msgs|
    && Outstanding(msgs, clients, th.base, th.n, th.done, th.i)
    && Queue(msgs, th.inFlight, th.base, th.n, if th.pc.Await? then th.done + 1 else th.done, th.i)
    && (th.pc.Await? ==> (th.pc.c, th.pc.expected) == Entry(msgs, th.base, th.n, th.done))
  }

  /** Threads own disjoint ranges of clients. */
  ghost predicate Apart(threads: seq<Thread>) {
    forall t, u :: 0 <= t < u < |threads| ==> threads[t].base + threads[t].n <= threads[u].base
  }

  ghost predicate Inv(msgs: seq<nat>, s: State) {
    && D.Inv(s.bell) && D.Roomy(s.bell, 13) && Apart(s.threads) && !s.unexpected && !s.violated
    && forall t :: 0 <= t < |s.threads| ==> ThreadOk(msgs, s.bell.clients, s.threads[t])
  }

  // ----- the start -----

  lemma {:induction false} SharesGrow(total: nat, threads: nat, t: nat, u: nat)
    requires threads > 0 && t <= u
    ensures Shares(total, threads, t) <= Shares(total, threads, u)
    ensures t < u ==> Shares(total, threads, t) + Share(total, threads, t) <= Shares(total, threads, u)
    decreases u - t
  {
    if t < u {
      SharesGrow(total, threads, t + 1, u);
    }
  }

  lemma {:induction false} ShareIsPart(total: nat, threads: nat, t: nat)
    requires t < threads
    ensures Shares(total, threads, t) + Share(total, threads, t) <= total
  {
    SharesGrow(total, threads, t, threads);
    SplitIsExact(total, threads);
  }

  lemma {:induction false} InitThreads(msgs: seq<nat>, clients: nat, threads: nat, slots: nat, cap: nat, t: nat)
    requires 0 < threads <= clients <= slots && t < threads
    ensures var s := Init(msgs, clients, threads, slots, cap); ThreadOk(msgs, s.bell.clients, s.threads[t])
  {
    SplitIsExact(clients, threads);
    ShareIsPart(clients, threads, t);
    ShareIsPart(|msgs|, threads, t);
    assert Share(clients, threads, t) >= 1;
  }

  lemma {:induction false} InitInv(msgs: seq<nat>, clients: nat, threads: nat, slots: nat, cap: nat)
    requires 0 < threads <= clients <= slots && cap >= 13
    ensures Inv(msgs, Init(msgs, clients, threads, slots, cap))
  {
    var s := Init(msgs, clients, threads, slots, cap);
    D.InitInv(slots, cap);
    forall t | 0 <= t < threads ensures ThreadOk(msgs, s.bell.clients, s.threads[t]) {
      InitThreads(msgs, clients, threads, slots, cap, t);
    }
    forall t, u | 0 <= t < u < threads ensures s.threads[t].base + s.threads[t].n <= s.threads[u].base {
      SharesGrow(clients, threads, t, u);
    }
  }

  // ----- steps of the protocol, seen by the threads -----

  /** Free or not, and if not, with the same request. */
  ghost predicate SameUse(a: seq<D.Client>, b: seq<D.Client>, lo: nat, hi: nat) {
    && |a| == |b| && hi <= |a|
    && forall c: nat :: lo <= c < hi ==> a[c].Free? == b[c].Free? && (!a[c].Free? ==> a[c].req == b[c].req)
  }

  lemma {:induction false} BackgroundKeepsUse(b: D.State, step: D.Step)
    requires D.Inv(b) && D.Enabled(b, step) && !step.Issue? && !step.Collect?
    ensures SameUse(b.clients, D.Do(b, step).clients, 0, |b.clients|)
  {
    if step.Take? {
      D.TakenIsRequest(b);
    }
  }

  lemma {:induction false} SameUseKeepsThread(msgs: seq<nat>, a: seq<D.Client>, b: seq<D.Client>, th: Thread)
    requires ThreadOk(msgs, a, th) && SameUse(a, b, th.base, th.base + th.n)
    ensures ThreadOk(msgs, b, th)
  {
    forall k: nat | th.done <= k < th.i ensures Busy(msgs, b, th.base, th.n, k) {
      assert Busy(msgs, a, th.base, th.n, k);
    }
    forall c: nat | c < th.n ensures FreeIfUnused(b, th.base, th.n, th.done, th.i, c) {
      assert FreeIfUnused(a, th.base, th.n, th.done, th.i, c);
    }
  }

  lemma {:induction false} SameUseKeepsThreads(msgs: seq<nat>, s: State, bell: D.State)
    requires Inv(msgs, s) && SameUse(s.bell.clients, bell.clients, 0, |s.bell.clients|) && D.Inv(bell) && D.Roomy(bell, 13)
    ensures Inv(msgs, s.(bell := bell))
  {
    forall t | 0 <= t < |s.threads| ensures ThreadOk(msgs, bell.clients, s.threads[t]) {
      SameUseKeepsThread(msgs, s.bell.clients, bell.clients, s.threads[t]);
    }
  }

  lemma {:induction false} BellStepKeeps(msgs: seq<nat>, s: State, step: D.Step)
    requires Inv(msgs, s) && D.Enabled(s.bell, step) && !step.Issue? && !step.Collect?
    ensures Inv(msgs, s.(bell := D.Do(s.bell, step)))
  {
    D.StepKeeps(s.bell, step);
    D.StepKeepsRoom(s.bell, step, 13);
    BackgroundKeepsUse(s.bell, step);
    SameUseKeepsThreads(msgs, s, D.Do(s.bell, step));
  }

  // ----- steps of a thread -----

  /** One thread and its own clients change; the others do not notice. */
  lemma {:induction false} OthersKeep(msgs: seq<nat>, s: State, t: nat, th: Thread, bell: D.State, c: nat)
    requires Inv(msgs, s) && t < |s.threads| && th.base == s.threads[t].base && th.n == s.threads[t].n
    requires th.base <= c < th.base + th.n && |bell.clients| == |s.bell.clients|
    requires forall d: nat :: d < |s.bell.clients| && d != c ==> bell.clients[d] == s.bell.clients[d]
    requires D.Inv(bell) && D.Roomy(bell, 13) && ThreadOk(msgs, bell.clients, th)
    ensures Inv(msgs, s.(bell := bell, threads := s.threads[t := th]))
  {
    var threads := s.threads[t := th];
    forall u | 0 <= u < |threads| ensures ThreadOk(msgs, bell.clients, threads[u]) {
      if u != t {
        var other := s.threads[u];
        assert other.base + other.n <= th.base || th.base + th.n <= other.base;
        SameUseKeepsThread(msgs, s.bell.clients, bell.clients, other);
      }
    }
  }

  lemma {:induction false} PopKeeps(msgs: seq<nat>, s: State, t: nat)
    requires Inv(msgs, s) && Enabled(msgs, s, Pop(t))
    ensures Inv(msgs, Do(msgs, s, Pop(t)))
  {
    var th := s.threads[t];
    assert ThreadOk(msgs, s.bell.clients, th);
    assert th.inFlight[th.done - th.done] == Entry(msgs, th.base, th.n, th.done);
    var rest := th.inFlight[1..];
    forall k: nat | th.done + 1 <= k < th.i ensures rest[k - (th.done + 1)] == Entry(msgs, th.base, th.n, k) {
      assert th.inFlight[k - th.done] == Entry(msgs, th.base, th.n, k);
    }
    var th' := th.(inFlight := rest, pc := Await(th.inFlight[0].0, th.inFlight[0].1));
    assert ThreadOk(msgs, s.bell.clients, th');
  }

  /** The oldest request is answered and its client is free again. */
  lemma {:induction false} AfterRead(msgs: seq<nat>, clients: seq<D.Client>, base: nat, n: nat, lo: nat, hi: nat)
    requires Outstanding(msgs, clients, base, n, lo, hi) && lo < hi
    ensures Outstanding(msgs, clients[base + lo % n := D.Free], base, n, lo + 1, hi)
  {
    var next := clients[base + lo % n := D.Free];
    forall k: nat | lo + 1 <= k < hi ensures Busy(msgs, next, base, n, k) {
      SlotsDiffer(lo, k, n);
      assert Busy(msgs, clients, base, n, k);
    }
    var lo' := lo + 1;
    forall c: nat | c < n ensures FreeIfUnused(next, base, n, lo', hi, c) {
      assert FreeIfUnused(clients, base, n, lo, hi, c);
      if c != lo % n && Unused(n, lo', hi, c) {
        assert Unused(n, lo, hi, c);
      }
    }
  }

  /** The client that is written next has nothing outstanding. */
  lemma {:induction false} NextIsFree(msgs: seq<nat>, clients: seq<D.Client>, base: nat, n: nat, lo: nat, hi: nat, client: D.Client)
    requires Outstanding(msgs, clients, base, n, lo, hi) && hi < lo + n && hi < |msgs|
    requires !client.Free? && client.req == Bytes(msgs[hi])
    ensures clients[base + hi % n].Free?
    ensures Outstanding(msgs, clients[base + hi % n := client], base, n, lo, hi + 1)
  {
    forall k: nat | lo <= k < hi ensures k % n != hi % n {
      SlotsDiffer(k, hi, n);
    }
    assert Unused(n, lo, hi, hi % n) && FreeIfUnused(clients, base, n, lo, hi, hi % n);
    var next := clients[base + hi % n := client];
    forall k: nat | lo <= k < hi + 1 ensures Busy(msgs, next, base, n, k) {
      if k < hi {
        assert Busy(msgs, clients, base, n, k);
      }
    }
    var hi' := hi + 1;
    forall c: nat | c < n ensures FreeIfUnused(next, base, n, lo, hi', c) {
      assert FreeIfUnused(clients, base, n, lo, hi, c);
      if Unused(n, lo, hi', c) {
        assert hi % n != c;
        assert Unused(n, lo, hi, c);
      }
    }
  }

  lemma {:induction false} BytesRoundTrip(v: nat)
    requires v < 0x1_0000_0000
    ensures Value(Bytes(v)) == v
  {
    assert Pow256(4) == 0x1_0000_0000;
    SizeWordRoundTrip(v, 4);
  }

  /** What `read` returns is the value that was popped with the client. */
  lemma {:induction false} AnswerIsExpected(msgs: seq<nat>, s: State, t: nat)
    requires Inv(msgs, s) && Values(msgs) && Enabled(msgs, s, Finish(t))
    ensures var th := s.threads[t];
            s.bell.outs[th.pc.c] == Bytes(th.pc.expected) && Value(s.bell.outs[th.pc.c]) == th.pc.expected
  {
    var th := s.threads[t];
    assert ThreadOk(msgs, s.bell.clients, th);
    assert Busy(msgs, s.bell.clients, th.base, th.n, th.done);
    D.CollectedIsEcho(s.bell, th.pc.c);
    BytesRoundTrip(msgs[th.done]);
  }

  /** The thread after it has read an answer. */
  function Read(th: Thread): Thread {
    th.(done := th.done + 1, pc := if th.i < th.total then Writing else Top)
  }

  lemma {:induction false} ReadKeepsThread(msgs: seq<nat>, clients: seq<D.Client>, th: Thread)
    requires ThreadOk(msgs, clients, th) && th.pc.Await?
    ensures th.pc.c < |clients| && ThreadOk(msgs, clients[th.pc.c := D.Free], Read(th))
  {
    AfterRead(msgs, clients, th.base, th.n, th.done, th.i);
  }

  lemma {:induction false} FinishKeeps(msgs: seq<nat>, s: State, t: nat)
    requires Inv(msgs, s) && Values(msgs) && Enabled(msgs, s, Finish(t))
    ensures Inv(msgs, Do(msgs, s, Finish(t)))
  {
    var th := s.threads[t];
    var bell := D.Do(s.bell, D.Collect(th.pc.c));
    assert ThreadOk(msgs, s.bell.clients, th);
    AnswerIsExpected(msgs, s, t);
    D.CollectKeeps(s.bell, th.pc.c);
    D.StepKeepsRoom(s.bell, D.Collect(th.pc.c), 13);
    ReadKeepsThread(msgs, s.bell.clients, th);
    OthersKeep(msgs, s, t, Read(th), bell, th.pc.c);
  }

  /** Whenever the loop writes, its client is free and its request fits. */
  lemma {:induction false} WritesToFreeClient(msgs: seq<nat>, s: State, t: nat)
    requires Inv(msgs, s) && Enabled(msgs, s, Write(t))
    ensures var th := s.threads[t]; D.Enabled(s.bell, D.Issue(th.base + th.i % th.n, Bytes(msgs[th.i])))
  {
    var th := s.threads[t];
    assert ThreadOk(msgs, s.bell.clients, th);
    NextIsFree(msgs, s.bell.clients, th.base, th.n, th.done, th.i, D.BellPending(Bytes(msgs[th.i])));
  }

  lemma {:induction false} QueueGrows(msgs: seq<nat>, inFlight: seq<(nat, nat)>, base: nat, n: nat, lo: nat, hi: nat)
    requires Queue(msgs, inFlight, base, n, lo, hi) && hi < |msgs|
    ensures Queue(msgs, inFlight + [Entry(msgs, base, n, hi)], base, n, lo, hi + 1)
  {
  }

  /** The thread after it has written value v to client c. */
  function Wrote(th: Thread, c: nat, v: nat): Thread {
    th.(i := th.i + 1, inFlight := th.inFlight + [(c, v)], pc := Top)
  }

  lemma {:induction false} WriteKeepsThread(msgs: seq<nat>, clients: seq<D.Client>, th: Thread, client: D.Client)
    requires ThreadOk(msgs, clients, th) && MustWrite(th) && !client.Free? && client.req == Bytes(msgs[th.i])
    ensures var c := th.base + th.i % th.n;
            c < |clients| && clients[c].Free? && ThreadOk(msgs, clients[c := client], Wrote(th, c, msgs[th.i]))
  {
    NextIsFree(msgs, clients, th.base, th.n, th.done, th.i, client);
    QueueGrows(msgs, th.inFlight, th.base, th.n, th.done, th.i);
  }

  lemma {:induction false} IssueKeepsBell(b: D.State, c: nat, m: Message) returns (bell: D.State)
    requires D.Inv(b) && D.Roomy(b, 13) && D.Enabled(b, D.Issue(c, m))
    ensures bell == D.Do(b, D.Issue(c, m)) && D.Inv(bell) && D.Roomy(bell, 13)
    ensures bell.clients == b.clients[c := D.DataLanding(m, {})]
  {
    bell := D.Do(b, D.Issue(c, m));
    D.ClientStepKeeps(b, D.Issue(c, m));
    D.StepKeepsRoom(b, D.Issue(c, m), 13);
  }

  lemma {:induction false} WriteKeeps(msgs: seq<nat>, s: State, t: nat)
    requires Inv(msgs, s) && Enabled(msgs, s, Write(t))
    ensures Inv(msgs, Do(msgs, s, Write(t)))
  {
    var th := s.threads[t];
    var c, m := th.base + th.i % th.n, Bytes(msgs[th.i]);
    assert ThreadOk(msgs, s.bell.clients, th);
    WritesToFreeClient(msgs, s, t);
    var bell := IssueKeepsBell(s.bell, c, m);
    assert Do(msgs, s, Write(t)) == s.(bell := bell, threads := s.threads[t := Wrote(th, c, msgs[th.i])]);
    WriteKeepsThread(msgs, s.bell.clients, th, D.DataLanding(m, {}));
    OthersKeep(msgs, s, t, Wrote(th, c, msgs[th.i]), bell, c);
  }

  lemma {:induction false} StepKeeps(msgs: seq<nat>, s: State, step: Step)
    requires Inv(msgs, s) && Values(msgs) && Enabled(msgs, s, step)
    ensures Inv(msgs, Do(msgs, s, step))
  {
    match step
    case Behind(d) => BellStepKeeps(msgs, s, d);
    case Pop(t) => PopKeeps(msgs, s, t);
    case Look(_, d) => BellStepKeeps(msgs, s, d);
    case Finish(t) => FinishKeeps(msgs, s, t);
    case Write(t) => WriteKeeps(msgs, s, t);
  }

  lemma {:induction false} RunKeeps(msgs: seq<nat>, s: State, steps: seq<Step>)
    requires Inv(msgs, s) && Values(msgs) && Legal(msgs, s, steps)
    ensures Inv(msgs, Run(msgs, s, steps))
    decreases |steps|
  {
    if steps != [] {
      StepKeeps(msgs, s, steps[0]);
      RunKeeps(msgs, Do(msgs, s, steps[0]), steps[1..]);
    }
  }

  /** What thread t is about to do is right: the queue it pops is led by its oldest open message, the answer it has
      read is that message, and the client it writes to is free. */
  ghost predicate OnCourse(msgs: seq<nat>, s: State, t: nat)
    requires t < |s.threads|
  {
    var th := s.threads[t];
    && th.n > 0 && th.done <= th.i <= |msgs|
    && (Enabled(msgs, s, Pop(t)) ==>
          th.done < th.i && |th.inFlight| > 0 && th.inFlight[0] == (th.base + th.done % th.n, msgs[th.done]))
    && (Enabled(msgs, s, Finish(t)) ==>
          && th.done < th.i && th.pc.c == th.base + th.done % th.n && th.pc.expected == msgs[th.done]
          && s.bell.outs[th.pc.c] == Bytes(msgs[th.done]) && Value(s.bell.outs[th.pc.c]) == msgs[th.done])
    && (Enabled(msgs, s, Write(t)) ==> D.Enabled(s.bell, D.Issue(th.base + th.i % th.n, Bytes(msgs[th.i]))))
  }

  lemma {:induction false} StaysOnCourse(msgs: seq<nat>, s: State, t: nat)
    requires Inv(msgs, s) && Values(msgs) && t < |s.threads|
    ensures OnCourse(msgs, s, t)
  {
    var th := s.threads[t];
    assert ThreadOk(msgs, s.bell.clients, th);
    if Enabled(msgs, s, Write(t)) {
      WritesToFreeClient(msgs, s, t);
    }
    if Enabled(msgs, s, Finish(t)) {
      AnswerIsExpected(msgs, s, t);
    }
    if Enabled(msgs, s, Pop(t)) {
      assert th.inFlight[th.done - th.done] == Entry(msgs, th.base, th.n, th.done);
    }
  }

  /** In every interleaving of all threads, the card and the server: what a thread pops is the client of its oldest open
      message, what it reads there is the value of that message, so that the "unexpected value" branch is never taken,
      and no client is written to while it waits for an answer. */
  lemma {:induction false} NothingUnexpected(msgs: seq<nat>, clients: nat, threads: nat, slots: nat, cap: nat, steps: seq<Step>)
    requires 0 < threads <= clients <= slots && cap >= 13 && Values(msgs)
    requires Legal(msgs, Init(msgs, clients, threads, slots, cap), steps)
    ensures var s := Run(msgs, Init(msgs, clients, threads, slots, cap), steps);
            && !s.unexpected && !s.violated
            && forall t :: 0 <= t < |s.threads| ==> OnCourse(msgs, s, t)
  {
    InitInv(msgs, clients, threads, slots, cap);
    RunKeeps(msgs, Init(msgs, clients, threads, slots, cap), steps);
    var s := Run(msgs, Init(msgs, clients, threads, slots, cap), steps);
    forall t | 0 <= t < |s.threads| ensures OnCourse(msgs, s, t) {
      StaysOnCourse(msgs, s, t);
    }
  }

  // ----- who gets which message -----

  /** The messages below i that go to client j of n: every n-th one, starting with the j-th, in order. */
  function DealtTo(msgs: seq<nat>, n: nat, j: nat, i: nat): seq<Message>
    requires n > 0 && i <= |msgs|
  {
    if i == 0 then [] else DealtTo(msgs, n, j, i - 1) + if (i - 1) % n == j then [Bytes(msgs[i - 1])] else []
  }

  /** Client j of the thread was sent its messages below i, and has answered those below `done`. */
  ghost predicate DealtOne(msgs: seq<nat>, issued: seq<seq<Message>>, replies: seq<seq<Message>>, th: Thread, j: nat) {
    && j < th.n && th.base + j < |issued| && th.base + j < |replies| && th.done <= |msgs| && th.i <= |msgs|
    && issued[th.base + j] == DealtTo(msgs, th.n, j, th.i)
    && replies[th.base + j] == DealtTo(msgs, th.n, j, th.done)
  }

  ghost predicate Dealt(msgs: seq<nat>, issued: seq<seq<Message>>, replies: seq<seq<Message>>, th: Thread) {
    forall j: nat :: j < th.n ==> DealtOne(msgs, issued, replies, th, j)
  }

  ghost predicate DealtToAll(msgs: seq<nat>, issued: seq<seq<Message>>, replies: seq<seq<Message>>, threads: seq<Thread>) {
    forall t :: 0 <= t < |threads| ==> Dealt(msgs, issued, replies, threads[t])
  }

  ghost predicate AllDealt(msgs: seq<nat>, s: State) {
    DealtToAll(msgs, s.bell.issued, s.bell.replies, s.threads)
  }

  lemma {:induction false} BellKeepsRecords(b: D.State, step: D.Step)
    requires D.Enabled(b, step) && !step.Issue? && !step.Collect?
    ensures D.Do(b, step).issued == b.issued && D.Do(b, step).replies == b.replies
  {
  }

  lemma {:induction false} OtherThreadsDealt(msgs: seq<nat>, s: State, t: nat, th: Thread, issued: seq<seq<Message>>, replies: seq<seq<Message>>, c: nat)
    requires AllDealt(msgs, s) && Apart(s.threads) && t < |s.threads| && th.base == s.threads[t].base && th.n == s.threads[t].n
    requires th.base <= c < th.base + th.n && |issued| == |s.bell.issued| && |replies| == |s.bell.replies|
    requires forall d: nat :: d < |issued| && d != c ==> issued[d] == s.bell.issued[d]
    requires forall d: nat :: d < |replies| && d != c ==> replies[d] == s.bell.replies[d]
    requires Dealt(msgs, issued, replies, th)
    ensures DealtToAll(msgs, issued, replies, s.threads[t := th])
  {
    var threads := s.threads[t := th];
    forall u | 0 <= u < |threads| ensures Dealt(msgs, issued, replies, threads[u]) {
      if u != t {
        var other := s.threads[u];
        assert Dealt(msgs, s.bell.issued, s.bell.replies, other);
        assert other.base + other.n <= th.base || th.base + th.n <= other.base;
        forall j: nat | j < other.n ensures DealtOne(msgs, issued, replies, other, j) {
          assert DealtOne(msgs, s.bell.issued, s.bell.replies, other, j);
        }
      }
    }
  }

  lemma {:induction false} FinishDeals(msgs: seq<nat>, s: State, t: nat)
    requires Inv(msgs, s) && Values(msgs) && AllDealt(msgs, s) && Enabled(msgs, s, Finish(t))
    ensures AllDealt(msgs, Do(msgs, s, Finish(t)))
  {
    var th := s.threads[t];
    assert ThreadOk(msgs, s.bell.clients, th) && Dealt(msgs, s.bell.issued, s.bell.replies, th);
    AnswerIsExpected(msgs, s, t);
    var c := th.pc.c;
    var replies := s.bell.replies[c := s.bell.replies[c] + [Bytes(msgs[th.done])]];
    forall j: nat | j < th.n ensures DealtOne(msgs, s.bell.issued, replies, Read(th), j) {
      assert DealtOne(msgs, s.bell.issued, s.bell.replies, th, j);
    }
    OtherThreadsDealt(msgs, s, t, Read(th), s.bell.issued, replies, c);
  }

  lemma {:induction false} WriteDeals(msgs: seq<nat>, s: State, t: nat)
    requires Inv(msgs, s) && AllDealt(msgs, s) && Enabled(msgs, s, Write(t))
    ensures AllDealt(msgs, Do(msgs, s, Write(t)))
  {
    var th := s.threads[t];
    assert ThreadOk(msgs, s.bell.clients, th) && Dealt(msgs, s.bell.issued, s.bell.replies, th);
    WritesToFreeClient(msgs, s, t);
    var c, v := th.base + th.i % th.n, msgs[th.i];
    var issued := s.bell.issued[c := s.bell.issued[c] + [Bytes(v)]];
    var th' := Wrote(th, c, v);
    forall j: nat | j < th.n ensures DealtOne(msgs, issued, s.bell.replies, th', j) {
      assert DealtOne(msgs, s.bell.issued, s.bell.replies, th, j);
    }
    OtherThreadsDealt(msgs, s, t, th', issued, s.bell.replies, c);
  }

  lemma {:induction false} PopDeals(msgs: seq<nat>, s: State, t: nat)
    requires Inv(msgs, s) && AllDealt(msgs, s) && Enabled(msgs, s, Pop(t))
    ensures AllDealt(msgs, Do(msgs, s, Pop(t)))
  {
    var s' := Do(msgs, s, Pop(t));
    forall u | 0 <= u < |s'.threads| ensures Dealt(msgs, s'.bell.issued, s'.bell.replies, s'.threads[u]) {
      assert Dealt(msgs, s.bell.issued, s.bell.replies, s.threads[u]);
      forall j: nat | j < s'.threads[u].n ensures DealtOne(msgs, s'.bell.issued, s'.bell.replies, s'.threads[u], j) {
        assert DealtOne(msgs, s.bell.issued, s.bell.replies, s.threads[u], j);
      }
    }
  }

  lemma {:induction false} StepDeals(msgs: seq<nat>, s: State, step: Step)
    requires Inv(msgs, s) && Values(msgs) && AllDealt(msgs, s) && Enabled(msgs, s, step)
    ensures AllDealt(msgs, Do(msgs, s, step))
  {
    match step
    case Behind(d) => BellKeepsRecords(s.bell, d);
    case Look(_, d) => BellKeepsRecords(s.bell, d);
    case Pop(t) => PopDeals(msgs, s, t);
    case Finish(t) => FinishDeals(msgs, s, t);
    case Write(t) => WriteDeals(msgs, s, t);
  }

  lemma {:induction false} RunDeals(msgs: seq<nat>, s: State, steps: seq<Step>)
    requires Inv(msgs, s) && Values(msgs) && AllDealt(msgs, s) && Legal(msgs, s, steps)
    ensures AllDealt(msgs, Run(msgs, s, steps))
    decreases |steps|
  {
    if steps != [] {
      StepKeeps(msgs, s, steps[0]);
      StepDeals(msgs, s, steps[0]);
      RunDeals(msgs, Do(msgs, s, steps[0]), steps[1..]);
    }
  }

  lemma {:induction false} InitDealt(msgs: seq<nat>, clients: nat, threads: nat, slots: nat, cap: nat)
    requires 0 < threads <= clients <= slots && cap >= 13
    ensures AllDealt(msgs, Init(msgs, clients, threads, slots, cap))
  {
    var s := Init(msgs, clients, threads, slots, cap);
    InitInv(msgs, clients, threads, slots, cap);
    forall t | 0 <= t < |s.threads| ensures Dealt(msgs, s.bell.issued, s.bell.replies, s.threads[t]) {
      assert ThreadOk(msgs, s.bell.clients, s.threads[t]);
    }
  }

  /** In every run each client has been sent exactly its messages, every n-th of the thread's, once and in order, and has
      given back the answers to exactly those that the thread has counted. */
  lemma {:induction false} EachClientGetsItsMessages(msgs: seq<nat>, clients: nat, threads: nat, slots: nat, cap: nat,
                                                     steps: seq<Step>, t: nat, j: nat)
    requires 0 < threads <= clients <= slots && cap >= 13 && Values(msgs)
    requires Legal(msgs, Init(msgs, clients, threads, slots, cap), steps)
    requires t < threads && j < Share(clients, threads, t)
    ensures var s, c := Run(msgs, Init(msgs, clients, threads, slots, cap), steps), Shares(clients, threads, t) + j;
            && |s.threads| == threads && c < |s.bell.issued| == |s.bell.replies|
            && s.threads[t].done <= s.threads[t].i <= Share(|msgs|, threads, t) <= |msgs|
            && s.bell.issued[c] == DealtTo(msgs, Share(clients, threads, t), j, s.threads[t].i)
            && s.bell.replies[c] == DealtTo(msgs, Share(clients, threads, t), j, s.threads[t].done)
  {
    ReachedShape(msgs, clients, threads, slots, cap, steps, t);
    ReachedDealt(msgs, clients, threads, slots, cap, steps);
    ThreadDealt(msgs, Run(msgs, Init(msgs, clients, threads, slots, cap), steps), t, j);
  }

  lemma {:induction false} ReachedShape(msgs: seq<nat>, clients: nat, threads: nat, slots: nat, cap: nat, steps: seq<Step>, t: nat)
    requires t < threads && Legal(msgs, Init(msgs, clients, threads, slots, cap), steps)
    ensures var s := Run(msgs, Init(msgs, clients, threads, slots, cap), steps);
            && |s.threads| == threads && s.threads[t].base == Shares(clients, threads, t)
            && s.threads[t].n == Share(clients, threads, t) && s.threads[t].total == Share(|msgs|, threads, t)
  {
    ShapesStay(msgs, Init(msgs, clients, threads, slots, cap), steps);
  }

  lemma {:induction false} ReachedDealt(msgs: seq<nat>, clients: nat, threads: nat, slots: nat, cap: nat, steps: seq<Step>)
    requires 0 < threads <= clients <= slots && cap >= 13 && Values(msgs)
    requires Legal(msgs, Init(msgs, clients, threads, slots, cap), steps)
    ensures var s0 := Init(msgs, clients, threads, slots, cap);
            Inv(msgs, Run(msgs, s0, steps)) && AllDealt(msgs, Run(msgs, s0, steps))
  {
    var s0 := Init(msgs, clients, threads, slots, cap);
    InitInv(msgs, clients, threads, slots, cap);
    InitDealt(msgs, clients, threads, slots, cap);
    RunKeeps(msgs, s0, steps);
    RunDeals(msgs, s0, steps);
  }

  lemma {:induction false} ThreadDealt(msgs: seq<nat>, s: State, t: nat, j: nat)
    requires Inv(msgs, s) && AllDealt(msgs, s) && t < |s.threads| && j < s.threads[t].n
    ensures var th := s.threads[t];
            && th.done <= th.i <= th.total <= |msgs| && th.n > 0 && th.base + j < |s.bell.issued| == |s.bell.replies|
            && s.bell.issued[th.base + j] == DealtTo(msgs, th.n, j, th.i)
            && s.bell.replies[th.base + j] == DealtTo(msgs, th.n, j, th.done)
  {
    assert ThreadOk(msgs, s.bell.clients, s.threads[t]) && Dealt(msgs, s.bell.issued, s.bell.replies, s.threads[t]);
    assert DealtOne(msgs, s.bell.issued, s.bell.replies, s.threads[t], j);
  }

  ghost predicate SameShapes(a: seq<Thread>, b: seq<Thread>) {
    |a| == |b| && forall u :: 0 <= u < |a| ==> a[u].total == b[u].total && a[u].base == b[u].base && a[u].n == b[u].n
  }

  lemma {:induction false} ShapesStay(msgs: seq<nat>, s: State, steps: seq<Step>)
    requires Legal(msgs, s, steps)
    ensures SameShapes(s.threads, Run(msgs, s, steps).threads)
    decreases |steps|
  {
    if steps != [] {
      StepKeepsShapes(msgs, s, steps[0]);
      ShapesStay(msgs, Do(msgs, s, steps[0]), steps[1..]);
    }
  }

  lemma {:induction false} StepKeepsShapes(msgs: seq<nat>, s: State, step: Step)
    requires Enabled(msgs, s, step)
    ensures SameShapes(s.threads, Do(msgs, s, step).threads)
  {
  }
}
