/** Receive credits of the receive-queue server: every accepted connection posts one receive request; a client's
    write with immediate consumes one and produces a completion that names its queue pair; `receive` polls a
    completion, finds the connection by queue pair number and replaces the consumed request at once.  Clients are
    closed loops, as in the doorbell protocol. */
module Credits {

  /** `Held` waits for its answer; `Lost` was refused: the exception names no client, so nobody will answer. */
  datatype Client = Free | InFlight(size: nat) | Arrived(size: nat) | Held | Lost

  datatype Server =
    | Idle
    | Polled(qpn: nat)          // completion taken off the queue, receive not replaced yet
    | Copying(c: nat)           // receive replaced, message about to be copied or refused

  datatype State = State(
    qpns: seq<nat>,             // queue pair number of each connection
    index: map<nat, nat>,       // qpnToConnection
    clients: seq<Client>,
    posted: nat,                // receive requests ready to be consumed
    cq: seq<nat>,               // receive completions, by queue pair number
    server: Server,
    dropped: bool,              // a write arrived and found no receive request
    arrivals: seq<nat>,         // clients in the order in which their writes arrived
    taken: seq<nat>,            // clients in the order in which the server looked them up
    delivered: seq<nat>)        // those of them whose message was handed to the caller

  datatype Step =
    | Accept(qpn: nat)
    | Send(c: nat, size: nat)
    | Arrive(c: nat)
    | Poll
    | Repost
    | Deliver(maxSize: nat)
    | Refuse(maxSize: nat)
    | Reply(c: nat)

  predicate Enabled(s: State, step: Step) {
    match step
    case Accept(qpn) => s.server.Idle? && qpn !in s.index
    case Send(c, _) => c < |s.clients| && s.clients[c].Free?
    case Arrive(c) => c < |s.clients| == |s.qpns| && s.clients[c].InFlight?
    case Poll => s.server.Idle? && s.cq != []
    case Repost => s.server.Polled? && s.server.qpn in s.index
    case Deliver(max) =>
      s.server.Copying? && s.server.c < |s.clients| && s.clients[s.server.c].Arrived? && s.clients[s.server.c].size <= max
    case Refuse(max) =>
      s.server.Copying? && s.server.c < |s.clients| && s.clients[s.server.c].Arrived? && max < s.clients[s.server.c].size
    case Reply(c) => c < |s.clients| && s.clients[c].Held?
  }

  function Do(s: State, step: Step): State
    requires Enabled(s, step)
  {
    match step
    case Accept(qpn) =>
      s.(index := s.index[qpn := |s.qpns|], qpns := s.qpns + [qpn], clients := s.clients + [Free], posted := s.posted + 1)
    case Send(c, size) => s.(clients := s.clients[c := InFlight(size)])
    case Arrive(c) =>
      if s.posted == 0 then s.(dropped := true)
      else s.(posted := s.posted - 1, cq := s.cq + [s.qpns[c]], clients := s.clients[c := Arrived(s.clients[c].size)], arrivals := s.arrivals + [c])
    case Poll => s.(server := Polled(s.cq[0]), cq := s.cq[1..])
    case Repost => s.(posted := s.posted + 1, server := Copying(s.index[s.server.qpn]))
    case Deliver(_) =>
      s.(server := Idle, taken := s.taken + [s.server.c], delivered := s.delivered + [s.server.c],
         clients := s.clients[s.server.c := Held])
    // the exception for an oversized message comes after the credit was replaced
    case Refuse(_) => s.(server := Idle, taken := s.taken + [s.server.c], clients := s.clients[s.server.c := Lost])
    case Reply(c) => s.(clients := s.clients[c := Free])
  }

  function Init(): State {
    State([], map[], [], 0, [], Idle, false, [], [], [])
  }

  /** A write that arrives without a posted receive would be noticed for good. */
  lemma {:induction false} LossIsNoticed(s: State, step: Step)
    requires Enabled(s, step)
    ensures s.dropped ==> Do(s, step).dropped
    ensures step.Arrive? && s.posted == 0 ==> Do(s, step).dropped
  {
  }

  // ----- the invariant -----

  /** The index is the inverse of the list of queue pair numbers. */
  ghost predicate IndexOk(qpns: seq<nat>, index: map<nat, nat>) {
    && (forall i: nat :: i < |qpns| ==> qpns[i] in index && index[qpns[i]] == i)
    && (forall q :: q in index ==> index[q] < |qpns| && qpns[index[q]] == q)
  }

  /** 1 while the server holds a completion whose receive was not replaced. */
  function Unreplaced(server: Server): nat {
    if server.Polled? then 1 else 0
  }

  /** The clients whose writes have arrived and were not taken yet, in order. */
  ghost function Underway(s: State): seq<nat>
    requires |s.taken| <= |s.arrivals|
  {
    s.arrivals[|s.taken|..]
  }

  ghost predicate Distinct(q: seq<nat>) {
    forall i, j :: 0 <= i < j < |q| ==> q[i] != q[j]
  }

  /** Who is underway: the one the server is busy with, then the queued completions. */
  ghost predicate QueueOk(qpns: seq<nat>, cq: seq<nat>, server: Server, underway: seq<nat>) {
    && (forall k :: 0 <= k < |underway| ==> underway[k] < |qpns|)
    && var busy := if server.Idle? then 0 else 1;
       && |underway| == busy + |cq|
       && (server.Polled? ==> server.qpn == qpns[underway[0]])
       && (server.Copying? ==> server.c == underway[0])
       && forall k :: 0 <= k < |cq| ==> cq[k] == qpns[underway[busy + k]]
  }

  /** Clients whose message was refused. */
  function Refusals(clients: seq<Client>): nat {
    if clients == [] then 0 else Refusals(clients[..|clients| - 1]) + if clients[|clients| - 1].Lost? then 1 else 0
  }

  ghost predicate Inv(s: State) {
    && !s.dropped && |s.taken| == |s.delivered| + Refusals(s.clients)
    && |s.clients| == |s.qpns| && IndexOk(s.qpns, s.index)
    && s.posted + |s.cq| + Unreplaced(s.server) == |s.qpns|
    && s.taken <= s.arrivals
    && QueueOk(s.qpns, s.cq, s.server, Underway(s))
    && Distinct(Underway(s))
    && (forall k :: 0 <= k < |Underway(s)| ==> s.clients[Underway(s)[k]].Arrived?)
  }

  lemma {:induction false} InitInv()
    ensures Inv(Init())
  {
  }

  // ----- preservation -----

  /** Fewer distinct indices below n than n, if one is missing. */
  lemma {:induction false} Pigeonhole(q: seq<nat>, n: nat, c: nat)
    requires Distinct(q) && c < n && c !in q && forall k :: 0 <= k < |q| ==> q[k] < n
    ensures |q| < n
  {
    var used, all := Elements(q), Upto(n);
    ElementsSize(q);
    UptoSize(n);
    assert used <= all - {c};
    SubsetSize(used, all - {c});
  }

  ghost function Elements(q: seq<nat>): set<nat> {
    set x | x in q
  }

  ghost function Upto(n: nat): set<nat> {
    if n == 0 then {} else Upto(n - 1) + {n - 1}
  }

  lemma {:induction false} ElementsSize(q: seq<nat>)
    requires Distinct(q)
    ensures |Elements(q)| == |q|
    decreases |q|
  {
    if q != [] {
      var init, last := q[..|q| - 1], q[|q| - 1];
      ElementsSize(init);
      assert last !in init;
      assert Elements(q) == Elements(init) + {last};
    }
  }

  lemma {:induction false} UptoSize(n: nat)
    ensures |Upto(n)| == n && forall i: nat :: i in Upto(n) <==> i < n
  {
    if n > 0 {
      UptoSize(n - 1);
    }
  }

  lemma {:induction false} SubsetSize(a: set<nat>, b: set<nat>)
    requires a <= b
    ensures |a| <= |b|
  {
    assert |b| == |a| + |b - a| by {
      assert b == a + (b - a);
    }
  }

  /** A write that arrives always finds a receive request. */
  lemma {:induction false} CreditAvailable(s: State, c: nat)
    requires Inv(s) && Enabled(s, Arrive(c))
    ensures s.posted > 0 && c !in Underway(s)
  {
    assert c !in Underway(s);
    Pigeonhole(Underway(s), |s.qpns|, c);
  }

  lemma {:induction false} RefusalsChange(clients: seq<Client>, c: nat, client: Client)
    requires c < |clients|
    ensures Refusals(clients[c := client]) + (if clients[c].Lost? then 1 else 0)
         == Refusals(clients) + if client.Lost? then 1 else 0
    decreases |clients|
  {
    var k := |clients| - 1;
    if c < k {
      RefusalsChange(clients[..k], c, client);
      assert clients[c := client][..k] == clients[..k][c := client];
    } else {
      assert clients[c := client][..k] == clients[..k];
    }
  }

  lemma {:induction false} AcceptKeeps(s: State, qpn: nat)
    requires Inv(s) && Enabled(s, Accept(qpn))
    ensures Inv(Do(s, Accept(qpn)))
  {
    assert Underway(Do(s, Accept(qpn))) == Underway(s);
    assert (s.clients + [Free])[..|s.clients|] == s.clients;
  }

  lemma {:induction false} ArriveKeeps(s: State, c: nat)
    requires Inv(s) && Enabled(s, Arrive(c))
    ensures Inv(Do(s, Arrive(c)))
  {
    CreditAvailable(s, c);
    RefusalsChange(s.clients, c, Arrived(s.clients[c].size));
    assert Underway(Do(s, Arrive(c))) == Underway(s) + [c];
  }

  lemma {:induction false} ServerStepKeeps(s: State, step: Step)
    requires Inv(s) && Enabled(s, step) && (step.Poll? || step.Repost?)
    ensures Inv(Do(s, step))
  {
    assert Underway(Do(s, step)) == Underway(s);
    if step.Repost? {
      assert s.server.qpn == s.qpns[Underway(s)[0]];
    }
  }

  lemma {:induction false} FinishKeeps(s: State, step: Step)
    requires Inv(s) && Enabled(s, step) && (step.Deliver? || step.Refuse?)
    ensures Inv(Do(s, step))
  {
    var u := Underway(s);
    assert s.server.c == u[0] == s.arrivals[|s.taken|];
    RefusalsChange(s.clients, s.server.c, if step.Refuse? then Lost else Held);
    assert Underway(Do(s, step)) == u[1..];
    forall k | 0 <= k < |u| - 1 ensures u[1..][k] != u[0] {
      assert u[0] != u[k + 1];
    }
  }

  lemma {:induction false} StepKeeps(s: State, step: Step)
    requires Inv(s) && Enabled(s, step)
    ensures Inv(Do(s, step))
  {
    match step
    case Accept(qpn) => AcceptKeeps(s, qpn);
    case Send(c, size) => RefusalsChange(s.clients, c, InFlight(size));
    case Arrive(c) => ArriveKeeps(s, c);
    case Poll => ServerStepKeeps(s, step);
    case Repost => ServerStepKeeps(s, step);
    case Deliver(_) => FinishKeeps(s, step);
    case Refuse(_) => FinishKeeps(s, step);
    case Reply(c) => RefusalsChange(s.clients, c, Free);
  }

  // ----- whole runs -----

  predicate Legal(s: State, steps: seq<Step>)
    decreases |steps|
  {
    steps == [] || (Enabled(s, steps[0]) && Legal(Do(s, steps[0]), steps[1..]))
  }

  function Run(s: State, steps: seq<Step>): State
    requires Legal(s, steps)
    decreases |steps|
  {
    if steps == [] then s else Run(Do(s, steps[0]), steps[1..])
  }

  lemma {:induction false} RunKeeps(s: State, steps: seq<Step>)
    requires Inv(s) && Legal(s, steps)
    ensures Inv(Run(s, steps))
    decreases |steps|
  {
    if steps != [] {
      StepKeeps(s, steps[0]);
      RunKeeps(Do(s, steps[0]), steps[1..]);
    }
  }

  // ----- what a run says by itself -----

  /** Connections accepted. */
  function Accepts(steps: seq<Step>): nat {
    if steps == [] then 0 else Accepts(steps[..|steps| - 1]) + if steps[|steps| - 1].Accept? then 1 else 0
  }

  /** The size that client c sent last. */
  function LastSize(steps: seq<Step>, c: nat): nat {
    if steps == [] then 0
    else
      var last := steps[|steps| - 1];
      if last.Send? && last.c == c then last.size else LastSize(steps[..|steps| - 1], c)
  }

  /** The messages that arrived: from whom and of what size. */
  function Arrivals(steps: seq<Step>): seq<(nat, nat)> {
    if steps == [] then []
    else
      var before, last := steps[..|steps| - 1], steps[|steps| - 1];
      Arrivals(before) + if last.Arrive? then [(last.c, LastSize(before, last.c))] else []
  }

  /** The completed calls of `receive`: the maximum size of each, and whether it returned or threw. */
  function Calls(steps: seq<Step>): seq<(nat, bool)> {
    if steps == [] then []
    else
      var last := steps[|steps| - 1];
      Calls(steps[..|steps| - 1])
      + if last.Deliver? then [(last.maxSize, true)] else if last.Refuse? then [(last.maxSize, false)] else []
  }

  /** What the first k calls should have returned: the sender of the k-th arrival, if its message was not too long. */
  function Returned(arrivals: seq<(nat, nat)>, calls: seq<(nat, bool)>, k: nat): seq<nat>
    requires k <= |arrivals| && k <= |calls|
  {
    if k == 0 then []
    else Returned(arrivals, calls, k - 1) + if arrivals[k - 1].1 <= calls[k - 1].0 then [arrivals[k - 1].0] else []
  }

  lemma {:induction false} RunSnoc(s: State, steps: seq<Step>)
    requires Legal(s, steps) && steps != []
    ensures var before := steps[..|steps| - 1];
            Legal(s, before) && Enabled(Run(s, before), steps[|steps| - 1])
            && Run(s, steps) == Do(Run(s, before), steps[|steps| - 1])
    decreases |steps|
  {
    if |steps| > 1 {
      RunSnoc(Do(s, steps[0]), steps[1..]);
      assert steps[1..][..|steps| - 2] == steps[..|steps| - 1][1..];
    }
  }

  // ----- and what the server does with it -----

  /** Clients in flight have the size they sent; those that have arrived have it still. */
  ghost predicate SizesOk(clients: seq<Client>, steps: seq<Step>, arrivals: seq<(nat, nat)>, taken: nat) {
    && (forall c: nat :: c < |clients| && clients[c].InFlight? ==> clients[c].size == LastSize(steps, c))
    && (forall k :: taken <= k < |arrivals| ==> arrivals[k].0 < |clients| && clients[arrivals[k].0] == Arrived(arrivals[k].1))
  }

  ghost predicate NamesMatch(names: seq<nat>, arrivals: seq<(nat, nat)>) {
    |names| <= |arrivals| && forall k :: 0 <= k < |names| ==> names[k] == arrivals[k].0
  }

  ghost predicate VerdictsOk(arrivals: seq<(nat, nat)>, calls: seq<(nat, bool)>) {
    |calls| <= |arrivals| && forall k :: 0 <= k < |calls| ==> calls[k].1 == (arrivals[k].1 <= calls[k].0)
  }

  ghost predicate HistoryOk(s: State, steps: seq<Step>) {
    var arrivals, calls := Arrivals(steps), Calls(steps);
    && |s.qpns| == Accepts(steps)
    && |s.arrivals| == |arrivals| && NamesMatch(s.arrivals, arrivals)
    && |s.taken| == |calls| && NamesMatch(s.taken, arrivals)
    && VerdictsOk(arrivals, calls) && s.delivered == Returned(arrivals, calls, |calls|)
    && SizesOk(s.clients, steps, arrivals, |calls|)
  }

  lemma {:induction false} ReturnedStable(arrivals: seq<(nat, nat)>, a: (nat, nat), calls: seq<(nat, bool)>, k: nat)
    requires k <= |arrivals| && k <= |calls|
    ensures Returned(arrivals + [a], calls, k) == Returned(arrivals, calls, k)
  {
    if k > 0 {
      ReturnedStable(arrivals, a, calls, k - 1);
    }
  }

  lemma {:induction false} ReturnedMore(arrivals: seq<(nat, nat)>, calls: seq<(nat, bool)>, call: (nat, bool), k: nat)
    requires k <= |arrivals| && k <= |calls|
    ensures Returned(arrivals, calls + [call], k) == Returned(arrivals, calls, k)
  {
    if k > 0 {
      ReturnedMore(arrivals, calls, call, k - 1);
    }
  }

  /** What one more step adds to the record. */
  lemma {:induction false} OneMoreStep(before: seq<Step>, step: Step)
    ensures var steps := before + [step];
            && Accepts(steps) == Accepts(before) + (if step.Accept? then 1 else 0)
            && Arrivals(steps) == (if step.Arrive? then Arrivals(before) + [(step.c, LastSize(before, step.c))] else Arrivals(before))
            && Calls(steps) == (if step.Deliver? || step.Refuse? then Calls(before) + [(step.maxSize, step.Deliver?)] else Calls(before))
    ensures forall c :: LastSize(before + [step], c) == if step.Send? && step.c == c then step.size else LastSize(before, c)
  {
    assert (before + [step])[..|before|] == before;
  }

  lemma {:induction false} ArriveSizes(clients: seq<Client>, before: seq<Step>, arrivals: seq<(nat, nat)>, taken: nat, c: nat)
    requires SizesOk(clients, before, arrivals, taken) && c < |clients| && clients[c].InFlight?
    ensures SizesOk(clients[c := Arrived(clients[c].size)], before + [Arrive(c)], arrivals + [(c, LastSize(before, c))], taken)
  {
    OneMoreStep(before, Arrive(c));
  }

  lemma {:induction false} ArriveHistory(s: State, before: seq<Step>, c: nat)
    requires Inv(s) && HistoryOk(s, before) && Enabled(s, Arrive(c))
    ensures HistoryOk(Do(s, Arrive(c)), before + [Arrive(c)])
  {
    var arrivals, calls := Arrivals(before), Calls(before);
    OneMoreStep(before, Arrive(c));
    CreditAvailable(s, c);
    ReturnedStable(arrivals, (c, LastSize(before, c)), calls, |calls|);
    ArriveSizes(s.clients, before, arrivals, |calls|, c);
  }

  lemma {:induction false} FinishSizes(clients: seq<Client>, before: seq<Step>, step: Step, arrivals: seq<(nat, nat)>, taken: nat, client: Client)
    requires SizesOk(clients, before, arrivals, taken) && taken < |arrivals| && !step.Send? && !client.InFlight?
    requires forall k :: taken < k < |arrivals| ==> arrivals[k].0 != arrivals[taken].0
    ensures SizesOk(clients[arrivals[taken].0 := client], before + [step], arrivals, taken + 1)
  {
    OneMoreStep(before, step);
  }

  lemma {:induction false} OldestIsServed(s: State, before: seq<Step>)
    requires Inv(s) && HistoryOk(s, before) && s.server.Copying?
    ensures var arrivals, t := Arrivals(before), |Calls(before)|;
            && t < |arrivals| && s.server.c == arrivals[t].0 < |s.clients| && s.clients[s.server.c] == Arrived(arrivals[t].1)
            && forall k :: t < k < |arrivals| ==> arrivals[k].0 != arrivals[t].0
  {
    var arrivals, t, u := Arrivals(before), |Calls(before)|, Underway(s);
    assert s.server.c == u[0] == s.arrivals[t] == arrivals[t].0;
    forall k | t < k < |arrivals| ensures arrivals[k].0 != arrivals[t].0 {
      assert u[0] != u[k - t];
      assert u[k - t] == s.arrivals[k];
    }
  }

  lemma {:induction false} FinishHistory(s: State, before: seq<Step>, step: Step)
    requires Inv(s) && HistoryOk(s, before) && Enabled(s, step) && (step.Deliver? || step.Refuse?)
    ensures HistoryOk(Do(s, step), before + [step])
  {
    var arrivals, calls := Arrivals(before), Calls(before);
    OldestIsServed(s, before);
    OneMoreStep(before, step);
    ReturnedMore(arrivals, calls, (step.maxSize, step.Deliver?), |calls|);
    FinishSizes(s.clients, before, step, arrivals, |calls|, if step.Deliver? then Held else Lost);
  }

  lemma {:induction false} OtherSizes(s: State, before: seq<Step>, step: Step, arrivals: seq<(nat, nat)>, taken: nat)
    requires SizesOk(s.clients, before, arrivals, taken)
    requires Enabled(s, step) && !step.Arrive? && !step.Deliver? && !step.Refuse?
    ensures SizesOk(Do(s, step).clients, before + [step], arrivals, taken)
  {
    OneMoreStep(before, step);
  }

  lemma {:induction false} OtherHistory(s: State, before: seq<Step>, step: Step)
    requires Inv(s) && HistoryOk(s, before) && Enabled(s, step) && !step.Arrive? && !step.Deliver? && !step.Refuse?
    ensures HistoryOk(Do(s, step), before + [step])
  {
    OtherSizes(s, before, step, Arrivals(before), |Calls(before)|);
    OneMoreStep(before, step);
  }

  lemma {:induction false} StepHistory(s: State, before: seq<Step>, step: Step)
    requires Inv(s) && HistoryOk(s, before) && Enabled(s, step)
    ensures HistoryOk(Do(s, step), before + [step])
  {
    match step
    case Arrive(c) => ArriveHistory(s, before, c);
    case Deliver(_) => FinishHistory(s, before, step);
    case Refuse(_) => FinishHistory(s, before, step);
    case _ => OtherHistory(s, before, step);
  }

  lemma {:induction false} ReachedInv(steps: seq<Step>)
    requires Legal(Init(), steps)
    ensures Inv(Run(Init(), steps))
  {
    InitInv();
    RunKeeps(Init(), steps);
  }

  lemma {:induction false} RunHistory(steps: seq<Step>)
    requires Legal(Init(), steps)
    ensures HistoryOk(Run(Init(), steps), steps)
    decreases |steps|
  {
    if steps != [] {
      var before, step := steps[..|steps| - 1], steps[|steps| - 1];
      assert before + [step] == steps;
      RunSnoc(Init(), steps);
      ReachedInv(before);
      RunHistory(before);
      StepHistory(Run(Init(), before), before, step);
    }
  }

  /** Between server operations posted receives and unpolled completions add up to the accepted connections, also after
      calls that threw; no write is ever dropped, and the completion queue holds at most one entry a connection. */
  lemma {:induction false} CreditsAreConserved(steps: seq<Step>)
    requires Legal(Init(), steps)
    ensures var s := Run(Init(), steps);
            && !s.dropped
            && s.posted + |s.cq| + (if s.server.Polled? then 1 else 0) == Accepts(steps)
            && |s.cq| <= Accepts(steps)
            && |s.taken| == |s.delivered| + Refusals(s.clients)
            && forall c: nat :: Enabled(s, Arrive(c)) ==> s.posted > 0
  {
    ReachedInv(steps);
    RunHistory(steps);
    var s := Run(Init(), steps);
    forall c: nat | Enabled(s, Arrive(c)) ensures s.posted > 0 {
      CreditAvailable(s, c);
    }
  }

  /** The k-th call of `receive` is about the k-th message that arrived: it throws if and only if that message is longer
      than the maximum of the call, and otherwise returns the client that sent it.  With nothing underway every message
      that arrived was taken. */
  lemma {:induction false} CallsNameTheirSenders(steps: seq<Step>)
    requires Legal(Init(), steps)
    ensures var s, arrivals, calls := Run(Init(), steps), Arrivals(steps), Calls(steps);
            && |calls| <= |arrivals|
            && (forall k :: 0 <= k < |calls| ==> calls[k].1 == (arrivals[k].1 <= calls[k].0))
            && s.delivered == Returned(arrivals, calls, |calls|)
            && (s.server.Idle? && s.cq == [] ==> |calls| == |arrivals|)
  {
    ReachedInv(steps);
    RunHistory(steps);
  }

  lemma {:induction false} RunConcat(s: State, a: seq<Step>, b: seq<Step>)
    requires Legal(s, a) && Legal(Run(s, a), b)
    ensures Legal(s, a + b) && Run(s, a + b) == Run(Run(s, a), b)
    decreases |a|
  {
    if a == [] {
      assert a + b == b;
    } else {
      assert (a + b)[0] == a[0] && (a + b)[1..] == a[1..] + b;
      RunConcat(Do(s, a[0]), a[1..], b);
    }
  }

  lemma {:induction false} ServerReceives(s: State, before: seq<Step>, maxSize: nat) returns (end: Step)
    requires Inv(s) && HistoryOk(s, before) && s.server.Idle? && |Calls(before)| < |Arrivals(before)|
    ensures end == if Arrivals(before)[|Calls(before)|].1 <= maxSize then Deliver(maxSize) else Refuse(maxSize)
    ensures Legal(s, [Poll, Repost, end])
  {
    var k := |Calls(before)|;
    end := if Arrivals(before)[k].1 <= maxSize then Deliver(maxSize) else Refuse(maxSize);
    assert s.cq[0] == s.qpns[Underway(s)[0]] && Underway(s)[0] == s.arrivals[k] == Arrivals(before)[k].0;
    var s1 := Do(s, Poll);
    var s2 := Do(s1, Repost);
    assert [Poll, Repost, end][1..] == [Repost, end] && [Repost, end][1..] == [end];
    assert Legal(s2, [end]);
    assert Legal(s1, [Repost, end]);
  }

  /** A call of `receive` gets through whenever a message has arrived that was not taken: it takes the oldest, returns it
      if it is not longer than maxSize and throws otherwise. */
  lemma {:induction false} ReceiveGetsThrough(steps: seq<Step>, maxSize: nat)
    requires Legal(Init(), steps) && Run(Init(), steps).server.Idle? && |Calls(steps)| < |Arrivals(steps)|
    ensures var end := if Arrivals(steps)[|Calls(steps)|].1 <= maxSize then Deliver(maxSize) else Refuse(maxSize);
            Legal(Init(), steps + [Poll, Repost, end])
  {
    ReachedInv(steps);
    RunHistory(steps);
    var end := ServerReceives(Run(Init(), steps), steps, maxSize);
    RunConcat(Init(), steps, [Poll, Repost, end]);
  }
}
