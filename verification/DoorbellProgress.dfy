/** No request is left lying: from every reachable state, whatever the server is busy with, a client that has sent a
    request gets its answer after no more services than bells are rung, although the scan always picks the highest bell of
    the first block that has one. */
module DoorbellProgress {
  import opened Frames
  import Answers
  import Polls
  import opened Doorbell

  lemma {:induction false} RunCons(s: State, step: Step, rest: seq<Step>)
    requires Enabled(s, step) && Legal(Do(s, step), rest)
    ensures Legal(s, [step] + rest) && Run(s, [step] + rest) == Run(Do(s, step), rest)
  {
    assert ([step] + rest)[1..] == rest;
  }

  lemma {:induction false} RunConcat(s: State, a: seq<Step>, b: seq<Step>)
    requires Legal(s, a) && Legal(Run(s, a), b)
    ensures Legal(s, a + b) && Run(s, a + b) == Run(Run(s, a), b)
    decreases |a|
  {
    if a == [] {
      assert a + b == b;
    } else {
      assert (a + b)[0] == a[0] && (a + b)[1..] == a[1..] + b;
      RunConcat(Do(s, a[0]), a[1..], b);
    }
  }

  // ----- runs of card and server -----

  /** What `pollSSE` finds in the bells: the highest one of the first block of 16 that has one. */
  function Cells(bells: seq<bool>): (r: seq<int>)
    ensures |r| == |bells|
  {
    seq(|bells|, i requires 0 <= i < |bells| => if bells[i] then 1 else 0)
  }

  ghost predicate ScanPicks(bells: seq<bool>, c: nat) {
    exists block :: Polls.HighestOfFirstBlock(Cells(bells), 0, 16, block, c)
  }

  /** A background run in which the server picks bells as the scan does. */
  ghost predicate Scanned(s: State, steps: seq<Step>)
    requires Legal(s, steps)
    decreases |steps|
  {
    steps == [] ||
    (Background(steps[0]) && (steps[0].SeeBell? ==> ScanPicks(s.bells, steps[0].c)) && Scanned(Do(s, steps[0]), steps[1..]))
  }

  /** How many bells were picked. */
  function Services(steps: seq<Step>): nat {
    if steps == [] then 0 else (if steps[0].SeeBell? then 1 else 0) + Services(steps[1..])
  }

  lemma {:induction false} ScannedCons(s: State, step: Step, rest: seq<Step>)
    requires Enabled(s, step) && Background(step) && (step.SeeBell? ==> ScanPicks(s.bells, step.c))
    requires Legal(Do(s, step), rest) && Scanned(Do(s, step), rest)
    ensures Legal(s, [step] + rest) && Scanned(s, [step] + rest) && Run(s, [step] + rest) == Run(Do(s, step), rest)
    ensures Services([step] + rest) == Services(rest) + if step.SeeBell? then 1 else 0
  {
    RunCons(s, step, rest);
    assert ([step] + rest)[1..] == rest;
  }

  lemma {:induction false} ScannedConcat(s: State, a: seq<Step>, b: seq<Step>)
    requires Legal(s, a) && Scanned(s, a) && Legal(Run(s, a), b) && Scanned(Run(s, a), b)
    ensures Legal(s, a + b) && Run(s, a + b) == Run(Run(s, a), b) && Scanned(s, a + b)
    ensures Services(a + b) == Services(a) + Services(b)
    decreases |a|
  {
    RunConcat(s, a, b);
    if a == [] {
      assert a + b == b;
    } else {
      assert (a + b)[0] == a[0] && (a + b)[1..] == a[1..] + b;
      ScannedConcat(Do(s, a[0]), a[1..], b);
    }
  }

  /** Only client c and what belongs to it may differ. */
  ghost predicate OnlyConcerns(s: State, s': State, c: nat) {
    && |s'.clients| == |s.clients| && s'.issued == s.issued && s'.replies == s.replies
    && forall d: nat :: d < |s.clients| && d != c ==> s'.clients[d] == s.clients[d]
  }

  // ----- the server finishes what it has begun -----

  function ServerStep(server: Server): Step {
    match server
    case Polling => ClearBell
    case SawBell(_) => ClearBell
    case Reading(_, buf) => if |buf| >= 8 && |buf| == Wanted(buf) then Take else ReadByte
    case Replying(_, _) => Reply
  }

  function ServerLeft(s: State): nat {
    match s.server
    case Polling => 0
    case Replying(_, _) => 1
    case Reading(c, buf) =>
      if c < |s.clients| && s.clients[c].BellRung? && |buf| <= |Request(s.clients[c].req)|
      then 2 + |Request(s.clients[c].req)| - |buf| else 0
    case SawBell(c) => if c < |s.clients| && s.clients[c].BellRung? then 3 + |Request(s.clients[c].req)| else 0
  }

  lemma {:induction false} ReadingStep(s: State)
    requires Inv(s) && s.server.Reading?
    ensures Enabled(s, ServerStep(s.server)) && ServerLeft(Do(s, ServerStep(s.server))) < ServerLeft(s)
  {
    var c, buf := s.server.c, s.server.buf;
    assert OneOk(s, c);
    ReadPrefix(s.clients[c].req, buf);
  }

  lemma {:induction false} ServerStepWorks(s: State)
    requires Inv(s) && !s.server.Polling?
    ensures Enabled(s, ServerStep(s.server)) && ServerLeft(Do(s, ServerStep(s.server))) < ServerLeft(s)
  {
    if s.server.Reading? {
      ReadingStep(s);
    } else if s.server.SawBell? {
      SetBellIsRung(s, s.server.c);
    } else {
      assert OneOk(s, s.server.c);
    }
  }

  /** The bell of the client being served is down, all others are as before. */
  ghost predicate OnlyItsBell(s: State, s': State, c: nat) {
    |s'.bells| == |s.bells| && forall d: nat :: d < |s.bells| ==> s'.bells[d] == (s.bells[d] && d != c)
  }

  lemma {:induction false} ServedBellIsDown(s: State)
    requires Inv(s) && !s.server.Polling? && !s.server.SawBell?
    ensures s.server.c < |s.bells| && !s.bells[s.server.c]
  {
    assert OneOk(s, s.server.c);
  }

  lemma {:induction false} ServerStepEffect(s: State)
    requires Inv(s) && !s.server.Polling? && Enabled(s, ServerStep(s.server))
    ensures var s' := Do(s, ServerStep(s.server));
            && Inv(s') && s.server.c < |s.clients| && OnlyConcerns(s, s', s.server.c) && OnlyItsBell(s, s', s.server.c)
            && (if s'.server.Polling? then s'.clients[s.server.c].Answered? else s'.server.c == s.server.c)
  {
    StepKeeps(s, ServerStep(s.server));
    if !s.server.SawBell? {
      ServedBellIsDown(s);
    }
  }

  /** Whoever the server is busy with gets its answer; the other clients are where they were. */
  lemma {:induction false} ServerFinishes(s: State) returns (steps: seq<Step>)
    requires Inv(s) && !s.server.Polling?
    ensures Legal(s, steps) && Scanned(s, steps) && Services(steps) == 0
    ensures var s' := Run(s, steps);
            && Inv(s') && s'.server.Polling? && s.server.c < |s.clients|
            && OnlyConcerns(s, s', s.server.c) && OnlyItsBell(s, s', s.server.c) && s'.clients[s.server.c].Answered?
    decreases ServerLeft(s)
  {
    var step := ServerStep(s.server);
    ServerStepWorks(s);
    ServerStepEffect(s);
    var s1, rest := Do(s, step), [];
    if !s1.server.Polling? {
      rest := ServerFinishes(s1);
    }
    ScannedCons(s, step, rest);
    steps := [step] + rest;
  }

  // ----- a request arrives -----

  ghost predicate LandedUpTo(client: Client, k: nat) {
    client.DataLanding? && forall j: nat :: j < k ==> j in client.landed
  }

  /** The bytes of the request land, from byte k on. */
  lemma {:induction false} DataLands(s: State, c: nat, k: nat) returns (steps: seq<Step>)
    requires Inv(s) && c < |s.clients| && LandedUpTo(s.clients[c], k) && k <= |Request(s.clients[c].req)|
    ensures Legal(s, steps) && Scanned(s, steps) && Services(steps) == 0
    ensures var s' := Run(s, steps);
            && Inv(s') && OnlyConcerns(s, s', c) && s'.server == s.server && s'.bells == s.bells
            && s'.clients[c] == BellPending(s.clients[c].req)
    decreases |Request(s.clients[c].req)| - k
  {
    assert OneOk(s, c);
    var step, rest := DataDone(c), [];
    if k < |Request(s.clients[c].req)| {
      step := LandByte(c, k);
      ClientStepKeeps(s, step);
      rest := DataLands(Do(s, step), c, k + 1);
    } else {
      ClientStepKeeps(s, step);
    }
    ScannedCons(s, step, rest);
    steps := [step] + rest;
  }

  // ----- and is served in its turn -----

  function RungCount(bells: seq<bool>): nat {
    if bells == [] then 0 else RungCount(bells[..|bells| - 1]) + if bells[|bells| - 1] then 1 else 0
  }

  lemma {:induction false} OneFewer(bells: seq<bool>, c: nat)
    requires c < |bells| && bells[c]
    ensures RungCount(bells[c := false]) == RungCount(bells) - 1
    decreases |bells|
  {
    var k := |bells| - 1;
    if c < k {
      OneFewer(bells[..k], c);
      assert bells[c := false][..k] == bells[..k][c := false];
    } else {
      assert bells[c := false][..k] == bells[..k];
    }
  }

  lemma {:induction false} HighestIn(cells: seq<int>, lo: nat, hi: nat) returns (h: nat)
    requires lo <= hi <= |cells| && !Polls.NoneSet(cells, 0, lo, hi)
    ensures lo <= h < hi && cells[h] != 0 && Polls.NoneSet(cells, 0, h + 1, hi)
    decreases hi - lo
  {
    h := hi - 1;
    if cells[h] == 0 {
      h := HighestIn(cells, lo, hi - 1);
    }
  }

  /** Some block has a set bell, so the scan finds one. */
  lemma {:induction false} ScanFinds(bells: seq<bool>, block: nat, c: nat) returns (d: nat)
    requires |bells| % 16 == 0 && block % 16 == 0 && block <= c < |bells| && bells[c]
    requires Polls.NoneSet(Cells(bells), 0, 0, block)
    ensures d < |bells| && bells[d] && ScanPicks(bells, d)
    decreases |bells| - block
  {
    var cells := Cells(bells);
    if Polls.NoneSet(cells, 0, block, block + 16) {
      assert cells[c] != 0;
      d := ScanFinds(bells, block + 16, c);
    } else {
      d := HighestIn(cells, block, block + 16);
      assert Polls.HighestOfFirstBlock(cells, 0, 16, block, d);
    }
  }

  /** One service: the scan picks a bell and its client is answered. */
  lemma {:induction false} ServeOne(s: State, d: nat) returns (steps: seq<Step>)
    requires Inv(s) && s.server.Polling? && d < |s.bells| && s.bells[d] && ScanPicks(s.bells, d)
    ensures Legal(s, steps) && Scanned(s, steps) && Services(steps) == 1
    ensures var s' := Run(s, steps);
            && Inv(s') && s'.server.Polling? && OnlyConcerns(s, s', d) && s'.bells == s.bells[d := false]
            && d < |s'.clients| && s'.clients[d].Answered?
  {
    BellStepKeeps(s, SeeBell(d));
    var s1 := Do(s, SeeBell(d));
    var rest := ServerFinishes(s1);
    ScannedCons(s, SeeBell(d), rest);
    steps := [SeeBell(d)] + rest;
  }

  /** A rung bell is answered after no more services than bells are rung. */
  lemma {:induction false} RungIsServed(s: State, c: nat) returns (steps: seq<Step>)
    requires Inv(s) && c < |s.clients| && s.bells[c] && s.server.Polling? && |s.bells| % 16 == 0
    ensures Legal(s, steps) && Scanned(s, steps) && Services(steps) <= RungCount(s.bells)
    ensures AnsweredIn(s, Run(s, steps), c)
    decreases RungCount(s.bells)
  {
    var d := ScanFinds(s.bells, 0, c);
    steps := ServeOne(s, d);
    OneFewer(s.bells, d);
    if d != c {
      var s1 := Run(s, steps);
      var rest := RungIsServed(s1, c);
      ScannedConcat(s, steps, rest);
      steps := steps + rest;
    }
  }

  /** c has its answer, and nobody has sent or collected anything. */
  ghost predicate AnsweredIn(s: State, s': State, c: nat) {
    Inv(s') && s'.issued == s.issued && s'.replies == s.replies && c < |s'.clients| == |s.clients| && s'.clients[c].Answered?
  }

  lemma {:induction false} FewerRung(a: seq<bool>, b: seq<bool>, c: nat)
    requires |a| == |b| && forall d: nat :: d < |a| ==> b[d] == (a[d] && d != c)
    ensures RungCount(b) <= RungCount(a)
    decreases |a|
  {
    if a != [] {
      FewerRung(a[..|a| - 1], b[..|b| - 1], c);
    }
  }

  /** The same while the server is busy with this or another client. */
  lemma {:induction false} RungIsAnswered(s: State, c: nat) returns (steps: seq<Step>)
    requires Inv(s) && c < |s.clients| && s.clients[c].BellRung? && |s.bells| % 16 == 0
    ensures Legal(s, steps) && Scanned(s, steps) && Services(steps) <= RungCount(s.bells)
    ensures AnsweredIn(s, Run(s, steps), c)
  {
    assert OneOk(s, c);
    if s.server.Polling? {
      steps := RungIsServed(s, c);
      return;
    }
    steps := ServerFinishes(s);
    if s.server.c != c {
      var s1 := Run(s, steps);
      FewerRung(s.bells, s1.bells, s.server.c);
      var rest := RungIsServed(s1, c);
      ScannedConcat(s, steps, rest);
      steps := steps + rest;
    }
  }

  lemma {:induction false} OneMore(bells: seq<bool>, c: nat)
    requires c < |bells|
    ensures RungCount(bells[c := true]) <= RungCount(bells) + 1
    decreases |bells|
  {
    var k := |bells| - 1;
    if c < k {
      OneMore(bells[..k], c);
      assert bells[c := true][..k] == bells[..k][c := true];
    } else {
      assert bells[c := true][..k] == bells[..k];
    }
  }

  /** From the bell on. */
  lemma {:induction false} PendingIsAnswered(s: State, c: nat) returns (steps: seq<Step>)
    requires Inv(s) && c < |s.clients| && s.clients[c].BellPending? && |s.bells| % 16 == 0
    ensures Legal(s, steps) && Scanned(s, steps) && Services(steps) <= RungCount(s.bells) + 1
    ensures AnsweredIn(s, Run(s, steps), c)
  {
    ClientStepKeeps(s, LandBell(c));
    OneMore(s.bells, c);
    var rest := RungIsAnswered(Do(s, LandBell(c)), c);
    ScannedCons(s, LandBell(c), rest);
    steps := [LandBell(c)] + rest;
  }

  lemma {:induction false} LandingIsAnswered(s: State, c: nat) returns (steps: seq<Step>)
    requires Inv(s) && c < |s.clients| && s.clients[c].DataLanding? && |s.bells| % 16 == 0
    ensures Legal(s, steps) && Scanned(s, steps) && Services(steps) <= RungCount(s.bells) + 1
    ensures AnsweredIn(s, Run(s, steps), c)
  {
    steps := DataLands(s, c, 0);
    var rest := PendingIsAnswered(Run(s, steps), c);
    ScannedConcat(s, steps, rest);
    steps := steps + rest;
  }

  /** Whatever has become of a request: its answer comes, with the scan deciding whom the server picks, after no more
      services than bells are rung (counting its own). */
  lemma {:induction false} AnswerComes(s: State, c: nat) returns (steps: seq<Step>)
    requires Inv(s) && c < |s.clients| && !s.clients[c].Free? && |s.bells| % 16 == 0
    ensures Legal(s, steps) && Scanned(s, steps) && Services(steps) <= RungCount(s.bells) + 1
    ensures AnsweredIn(s, Run(s, steps), c)
  {
    match s.clients[c]
    case DataLanding(_, _) => steps := LandingIsAnswered(s, c);
    case BellPending(_) => steps := PendingIsAnswered(s, c);
    case BellRung(_) => steps := RungIsAnswered(s, c);
    case Served(_) => steps := ServerFinishes(s);
    case Answered(_) => steps := [];
  }

  /** Every run can be continued by card and server alone until a waiting client has the echo of its last request in its
      buffer, with at most as many services as bells are rung. */
  lemma {:induction false} EveryRequestIsAnswered(n: nat, cap: nat, steps: seq<Step>, c: nat)
    requires cap >= 8 && n % 16 == 0 && Legal(Init(n, cap), steps) && c < n
    requires |Run(Init(n, cap), steps).clients| == n && !Run(Init(n, cap), steps).clients[c].Free?
    ensures exists more :: AnswersLast(Run(Init(n, cap), steps), more, c)
  {
    InitInv(n, cap);
    RunKeeps(Init(n, cap), steps);
    var s := Run(Init(n, cap), steps);
    var more := AnswerComes(s, c);
    assert OneOk(Run(s, more), c);
    assert AnswersLast(s, more, c);
  }

  /** Continued by `more`, client c has the answer to the last request it has sent. */
  ghost predicate AnswersLast(s: State, more: seq<Step>, c: nat) {
    && Legal(s, more) && Scanned(s, more) && Services(more) <= RungCount(s.bells) + 1
    && var s' := Run(s, more);
       && c < |s'.clients| == |s'.mail| == |s'.issued| == |s'.replies|
       && s'.issued == s.issued && s'.clients[c].Answered? && Answers.Ready(s'.clients[c].req, s'.mail[c])
       && s'.issued[c] == s'.replies[c] + [s'.clients[c].req]
  }

  // ----- the client takes its answer -----

  function LookStep(b: State, c: nat): Step
    requires Shaped(b) && c < |b.clients|
  {
    match b.mail[c].phase
    case AwaitingSize => LoadSize(c)
    case AwaitingTrailer(_) => LoadTrailer(c)
    case Taken(_) => CopyByte(c)
  }

  function LooksLeft(b: State, c: nat): nat
    requires Shaped(b) && c < |b.clients|
  {
    match b.mail[c].phase
    case AwaitingSize => 2 + |b.mail[c].buf|
    case AwaitingTrailer(_) => 1 + |b.mail[c].buf|
    case Taken(size) => if |b.outs[c]| <= size then size - |b.outs[c]| else 0
  }

  lemma {:induction false} LookWorks(b: State, c: nat)
    requires Inv(b) && c < |b.clients| && b.clients[c].Answered? && |b.clients[c].req| > 0
    ensures Enabled(b, Collect(c)) || Enabled(b, LookStep(b, c))
    ensures !Enabled(b, Collect(c)) ==>
              var b' := Do(b, LookStep(b, c)); Shaped(b') && b'.clients == b.clients && LooksLeft(b', c) < LooksLeft(b, c)
  {
    assert OneOk(b, c);
    Answers.LooksKeepReady(b.clients[c].req, b.mail[c]);
    Answers.ReadySize(b.clients[c].req, b.mail[c]);
  }

  /** An answer that is there and not empty is read by its client. */
  lemma {:induction false} AnswerIsTaken(s: State, c: nat) returns (steps: seq<Step>)
    requires Inv(s) && c < |s.clients| && s.clients[c].Answered? && |s.clients[c].req| > 0
    ensures Legal(s, steps) && Inv(Run(s, steps))
    ensures var s' := Run(s, steps); |s'.clients| == |s.clients| && s'.clients[c].Free? && s'.issued == s.issued
    decreases LooksLeft(s, c)
  {
    LookWorks(s, c);
    var step, rest := Collect(c), [];
    if Enabled(s, Collect(c)) {
      CollectKeeps(s, c);
    } else {
      step := LookStep(s, c);
      StepKeeps(s, step);
      rest := AnswerIsTaken(Do(s, step), c);
    }
    RunCons(s, step, rest);
    steps := [step] + rest;
  }

  /** A free client sends m and reads it back. */
  lemma {:induction false} SendAndRead(s: State, c: nat, m: Message) returns (steps: seq<Step>)
    requires Inv(s) && |s.bells| % 16 == 0 && Enabled(s, Issue(c, m)) && |m| > 0
    ensures Legal(s, steps) && Inv(Run(s, steps)) && |Run(s, steps).clients| == |s.clients|
    ensures Run(s, steps).clients[c].Free? && Run(s, steps).issued[c] == s.issued[c] + [m]
  {
    ClientStepKeeps(s, Issue(c, m));
    var s1 := Do(s, Issue(c, m));
    var coming := AnswerComes(s1, c);
    var s2 := Run(s1, coming);
    assert OneOk(s2, c);
    var issued := s2.issued[c];
    assert issued[|issued| - 1] == m && issued[|issued| - 1] == s2.clients[c].req;
    var taking := AnswerIsTaken(s2, c);
    RunConcat(s1, coming, taking);
    RunCons(s, Issue(c, m), coming + taking);
    steps := [Issue(c, m)] + (coming + taking);
  }

  /** Continued by `more`, client c has handed over m as well and has got back everything it ever handed over. */
  ghost predicate Echoes(s: State, steps: seq<Step>, more: seq<Step>, c: nat, m: Message) {
    && Legal(s, steps + more) && HandedBy(steps + more, c) == HandedBy(steps, c) + [m]
    && c < |Run(s, steps + more).replies| && Run(s, steps + more).replies[c] == HandedBy(steps + more, c)
  }

  /** Whatever the others are doing, a client that waits for nothing can send any nonempty message that fits the buffers
      and gets it back. */
  lemma {:induction false} AnyMessageIsEchoed(n: nat, cap: nat, steps: seq<Step>, c: nat, m: Message)
    requires cap >= 8 && n % 16 == 0 && Legal(Init(n, cap), steps) && c < n
    requires |Run(Init(n, cap), steps).clients| == n
    requires Run(Init(n, cap), steps).clients[c].Free? && 0 < |m| < SIZE_LIMIT && 9 + |m| <= cap
    ensures exists more :: Echoes(Init(n, cap), steps, more, c, m)
  {
    var s0 := Init(n, cap);
    Reached(n, cap, steps, c);
    RunKeepsRoom(s0, steps, cap);
    var s := Run(s0, steps);
    var more := SendAndRead(s, c, m);
    RunConcat(s0, steps, more);
    Reached(n, cap, steps + more, c);
    assert OneOk(Run(s0, steps + more), c);
    assert Echoes(s0, steps, more, c, m);
  }
}
