/** The many-to-one doorbell protocol: every client owns one request slot and one bell at the server.  A request is
    a data write (size word and payload, bytes landing in any order) followed by the write of the bell; the server
    polls the bells, clears the one it found, reads the slot and answers.  The answer is placed in the client's buffer
    at once; the client polls size word and trailer, copies the payload byte by byte and resets the size word.
    Clients are closed loops: they send the next request after they got the answer to the last.  The server echoes. */
module Doorbell {
  import opened Frames
  import Answers

  datatype Client =
    | Free
    | DataLanding(req: Message, landed: set<nat>)
    | BellPending(req: Message)
    | BellRung(req: Message)
    | Served(req: Message)
    | Answered(req: Message)

  datatype Server =
    | Polling
    | SawBell(c: nat)
    | Reading(c: nat, buf: seq<byte>)
    | Replying(c: nat, req: Message)

  datatype State = State(
    clients: seq<Client>,
    slots: seq<seq<byte>>,
    bells: seq<bool>,
    mail: seq<Answers.State>,           // each client's answer buffer and how far it is in taking an answer
    outs: seq<seq<byte>>,               // what it has copied out of it so far
    server: Server,
    issued: seq<seq<Message>>,          // what each client sent
    replies: seq<seq<Message>>,         // what each client got back
    log: seq<(nat, Message)>)           // what the server took, and from whom

  datatype Step =
    | Issue(c: nat, m: Message)
    | LandByte(c: nat, k: nat)
    | DataDone(c: nat)
    | LandBell(c: nat)
    | SeeBell(c: nat)
    | ClearBell
    | ReadByte
    | Take
    | Reply
    | LoadSize(c: nat)
    | LoadTrailer(c: nat)
    | CopyByte(c: nat)
    | Collect(c: nat)

  /** Size word and payload; requests carry no trailer. */
  function Request(m: Message): (r: seq<byte>)
    ensures |r| == 8 + |m|
  {
    SizeWord(m) + m
  }

  /** How many bytes the server reads: the size word, then as many as it says. */
  function Wanted(buf: seq<byte>): nat {
    if |buf| < 8 then 8 else 8 + Value(buf[..8])
  }

  predicate Shaped(s: State) {
    |s.clients| == |s.slots| == |s.bells| == |s.mail| == |s.outs| == |s.issued| == |s.replies|
  }

  /** Request and echo fit their buffers. */
  predicate FitsBuffers(s: State, c: nat, m: Message)
    requires Shaped(s) && c < |s.clients|
  {
    9 + |m| <= |s.slots[c]| && 9 + |m| <= |s.mail[c].buf| && |m| < SIZE_LIMIT
  }

  predicate Enabled(s: State, step: Step) {
    Shaped(s) &&
    match step
    case Issue(c, m) => c < |s.clients| && s.clients[c].Free? && FitsBuffers(s, c, m)
    case LandByte(c, k) =>
      c < |s.clients| && s.clients[c].DataLanding? && k < |Request(s.clients[c].req)| && k < |s.slots[c]|
    case DataDone(c) =>
      c < |s.clients| && s.clients[c].DataLanding? &&
      forall k | 0 <= k < |Request(s.clients[c].req)| :: k in s.clients[c].landed
    case LandBell(c) => c < |s.clients| && s.clients[c].BellPending?
    case SeeBell(c) => s.server.Polling? && c < |s.bells| && s.bells[c]
    case ClearBell => s.server.SawBell? && s.server.c < |s.bells|
    case ReadByte =>
      s.server.Reading? && s.server.c < |s.slots| && |s.server.buf| < Wanted(s.server.buf) && |s.server.buf| < |s.slots[s.server.c]|
    case Take => s.server.Reading? && s.server.c < |s.clients| && 8 <= |s.server.buf| == Wanted(s.server.buf)
    case Reply => s.server.Replying? && s.server.c < |s.clients| && 9 + |s.server.req| <= |s.mail[s.server.c].buf|
    case LoadSize(c) => c < |s.clients| && s.mail[c].phase.AwaitingSize? && 8 <= |s.mail[c].buf|
    case LoadTrailer(c) =>
      c < |s.clients| && s.mail[c].phase.AwaitingTrailer? && 8 + s.mail[c].phase.size < |s.mail[c].buf|
    case CopyByte(c) =>
      && c < |s.clients| && s.mail[c].phase.Taken? && |s.outs[c]| < s.mail[c].phase.size
      && 8 + |s.outs[c]| < |s.mail[c].buf|
    case Collect(c) =>
      c < |s.clients| && s.mail[c].phase.Taken? && |s.outs[c]| == s.mail[c].phase.size && 8 <= |s.mail[c].buf|
  }

  function Do(s: State, step: Step): State
    requires Enabled(s, step)
  {
    match step
    case Issue(c, m) =>
      s.(clients := s.clients[c := DataLanding(m, {})], issued := s.issued[c := s.issued[c] + [m]])
    case LandByte(c, k) =>
      var m := s.clients[c].req;
      s.(slots := s.slots[c := s.slots[c][k := Request(m)[k]]],
         clients := s.clients[c := DataLanding(m, s.clients[c].landed + {k})])
    case DataDone(c) => s.(clients := s.clients[c := BellPending(s.clients[c].req)])
    case LandBell(c) => s.(clients := s.clients[c := BellRung(s.clients[c].req)], bells := s.bells[c := true])
    case SeeBell(c) => s.(server := SawBell(c))
    case ClearBell => s.(bells := s.bells[s.server.c := false], server := Reading(s.server.c, []))
    case ReadByte => s.(server := s.server.(buf := s.server.buf + [s.slots[s.server.c][|s.server.buf|]]))
    case Take =>
      var c, m := s.server.c, s.server.buf[8..];
      s.(server := Replying(c, m), log := s.log + [(c, m)], clients := s.clients[c := Served(m)])
    case Reply =>
      var c, m := s.server.c, s.server.req;
      s.(server := Polling, clients := s.clients[c := Answered(m)], mail := s.mail[c := Answers.Place(m, s.mail[c])])
    case LoadSize(c) => s.(mail := s.mail[c := Answers.LookAtSize(s.mail[c])])
    case LoadTrailer(c) => s.(mail := s.mail[c := Answers.LookAtTrailer(s.mail[c])])
    case CopyByte(c) => s.(outs := s.outs[c := s.outs[c] + [s.mail[c].buf[8 + |s.outs[c]|]]])
    case Collect(c) =>
      s.(clients := s.clients[c := Free], replies := s.replies[c := s.replies[c] + [s.outs[c]]],
         mail := s.mail[c := Answers.ResetSize(s.mail[c])], outs := s.outs[c := []])
  }

  function Init(n: nat, cap: nat): State {
    State(seq(n, _ => Free), seq(n, _ => Zeros(cap)), seq(n, _ => false),
          seq(n, _ => Answers.State(Zeros(cap), 0, Answers.AwaitingSize)), seq(n, _ => []),
          Polling, seq(n, _ => []), seq(n, _ => []), [])
  }

  /** The requests in the log that came from client c, in order. */
  function From(log: seq<(nat, Message)>, c: nat): seq<Message> {
    if log == [] then []
    else From(log[..|log| - 1], c) + if log[|log| - 1].0 == c then [log[|log| - 1].1] else []
  }

  lemma {:induction false} FromSnoc(log: seq<(nat, Message)>, c: nat, d: nat, m: Message)
    ensures From(log + [(d, m)], c) == if c == d then From(log, c) + [m] else From(log, c)
  {
    assert (log + [(d, m)])[..|log|] == log;
  }

  // ----- the invariant -----

  /** The slot holds the bytes of the request that have landed. */
  ghost predicate Landed(slot: seq<byte>, m: Message, landed: set<nat>) {
    && 8 + |m| <= |slot|
    && forall k :: k in landed && k < 8 + |m| ==> slot[k] == Request(m)[k]
  }

  ghost predicate Holds(slot: seq<byte>, m: Message) {
    8 + |m| <= |slot| && slot[..8 + |m|] == Request(m)
  }

  /** Nothing to take yet, and room for the answer. */
  ghost predicate Waiting(mail: Answers.State, out: seq<byte>, m: Message) {
    Answers.Blank(mail) && out == [] && 9 + |m| <= |mail.buf| && |m| < SIZE_LIMIT
  }

  /** The answer m is there; what was copied of it is its beginning. */
  ghost predicate Taking(mail: Answers.State, out: seq<byte>, m: Message) {
    Answers.Ready(m, mail) && out <= m && (!mail.phase.Taken? ==> out == [])
  }

  /** Client c, given what the server took from it; `reading` says that the server has cleared its bell. */
  ghost predicate ClientOk(client: Client, slot: seq<byte>, bell: bool, mail: Answers.State, out: seq<byte>,
                           issued: seq<Message>, replies: seq<Message>, taken: seq<Message>, reading: bool) {
    match client
    case Free => !bell && issued == taken == replies && Answers.Blank(mail) && out == []
    case DataLanding(m, landed) =>
      !bell && Waiting(mail, out, m) && Landed(slot, m, landed) && issued == taken + [m] && replies == taken
    case BellPending(m) => !bell && Waiting(mail, out, m) && Holds(slot, m) && issued == taken + [m] && replies == taken
    case BellRung(m) =>
      bell == !reading && Waiting(mail, out, m) && Holds(slot, m) && issued == taken + [m] && replies == taken
    case Served(m) => !bell && Waiting(mail, out, m) && issued == taken == replies + [m]
    case Answered(m) => !bell && Taking(mail, out, m) && issued == taken == replies + [m]
  }

  ghost predicate ServerOk(clients: seq<Client>, bells: seq<bool>, server: Server) {
    match server
    case Polling => true
    case SawBell(c) => c < |clients| == |bells| && bells[c]
    case Reading(c, buf) => c < |clients| && clients[c].BellRung? && buf <= Request(clients[c].req)
    case Replying(c, m) => c < |clients| && clients[c] == Served(m)
  }

  predicate IsReading(server: Server, c: nat) {
    server.Reading? && server.c == c
  }

  ghost predicate OneOk(s: State, c: nat)
    requires Shaped(s) && c < |s.clients|
  {
    ClientOk(s.clients[c], s.slots[c], s.bells[c], s.mail[c], s.outs[c], s.issued[c], s.replies[c], From(s.log, c),
             IsReading(s.server, c))
  }

  ghost predicate Inv(s: State) {
    && Shaped(s)
    && (forall c: nat :: c < |s.clients| ==> OneOk(s, c))
    && ServerOk(s.clients, s.bells, s.server)
    && (forall c: nat :: c < |s.clients| && s.clients[c].Served? ==> s.server.Replying? && s.server.c == c)
  }

  lemma {:induction false} InitInv(n: nat, cap: nat)
    requires cap >= 8
    ensures Inv(Init(n, cap))
  {
  }

  // ----- preservation -----

  lemma {:induction false} LandByteKeepsSlot(slot: seq<byte>, m: Message, landed: set<nat>, k: nat)
    requires Landed(slot, m, landed) && k < 8 + |m|
    ensures Landed(slot[k := Request(m)[k]], m, landed + {k})
  {
  }

  lemma {:induction false} AllLandedHolds(slot: seq<byte>, m: Message, landed: set<nat>)
    requires Landed(slot, m, landed) && forall k :: 0 <= k < 8 + |m| ==> k in landed
    ensures Holds(slot, m)
  {
    assert slot[..8 + |m|] == Request(m);
  }

  /** Requests being issued and landing. */
  predicate Requesting(step: Step) {
    step.Issue? || step.LandByte? || step.DataDone? || step.LandBell?
  }

  /** A client looking for its answer and taking it. */
  predicate Receiving(step: Step) {
    step.LoadSize? || step.LoadTrailer? || step.CopyByte? || step.Collect?
  }

  /** Steps of the card and of the server; no client sends or receives. */
  predicate Background(step: Step) {
    !step.Issue? && !Receiving(step)
  }

  lemma {:induction false} ClientStepKeeps(s: State, step: Step)
    requires Inv(s) && Enabled(s, step) && Requesting(step)
    ensures Inv(Do(s, step))
  {
    var s', c := Do(s, step), step.c;
    assert OneOk(s, c);
    if step.LandByte? {
      LandByteKeepsSlot(s.slots[c], s.clients[c].req, s.clients[c].landed, step.k);
    } else if step.DataDone? {
      AllLandedHolds(s.slots[c], s.clients[c].req, s.clients[c].landed);
    }
    forall d: nat | d < |s'.clients| ensures OneOk(s', d) {
      assert OneOk(s, d);
    }
  }

  /** A client can only have got past the size word if its answer is there. */
  lemma {:induction false} PastSizeIsAnswered(s: State, c: nat)
    requires Inv(s) && c < |s.clients| && !s.mail[c].phase.AwaitingSize?
    ensures s.clients[c].Answered? && Taking(s.mail[c], s.outs[c], s.clients[c].req)
  {
    assert OneOk(s, c);
  }

  lemma {:induction false} LookKeeps(s: State, step: Step)
    requires Inv(s) && Enabled(s, step) && (step.LoadSize? || step.LoadTrailer?)
    ensures Inv(Do(s, step))
  {
    var s', c := Do(s, step), step.c;
    assert OneOk(s, c);
    if s.clients[c].Answered? {
      Answers.LooksKeepReady(s.clients[c].req, s.mail[c]);
    } else {
      Answers.BlankShowsNothing(s.mail[c]);
    }
    forall d: nat | d < |s'.clients| ensures OneOk(s', d) {
      assert OneOk(s, d);
    }
  }

  lemma {:induction false} CopyKeepsTaking(mail: Answers.State, out: seq<byte>, m: Message)
    requires Taking(mail, out, m) && mail.phase.Taken? && |out| < mail.phase.size
    ensures Taking(mail, out + [mail.buf[8 + |out|]], m)
  {
    Answers.ReadySize(m, mail);
    assert mail.buf[8..8 + |m|][|out|] == m[|out|];
  }

  lemma {:induction false} CopyByteKeeps(s: State, c: nat)
    requires Inv(s) && Enabled(s, CopyByte(c))
    ensures Inv(Do(s, CopyByte(c)))
  {
    var s' := Do(s, CopyByte(c));
    PastSizeIsAnswered(s, c);
    CopyKeepsTaking(s.mail[c], s.outs[c], s.clients[c].req);
    forall d: nat | d < |s'.clients| ensures OneOk(s', d) {
      assert OneOk(s, d);
    }
  }

  /** What a client collects is the echo of the request that was outstanding. */
  lemma {:induction false} CollectedIsEcho(s: State, c: nat)
    requires Inv(s) && Enabled(s, Collect(c))
    ensures s.clients[c] == Answered(s.outs[c])
  {
    PastSizeIsAnswered(s, c);
  }

  lemma {:induction false} CollectKeeps(s: State, c: nat)
    requires Inv(s) && Enabled(s, Collect(c))
    ensures Inv(Do(s, Collect(c)))
  {
    var s' := Do(s, Collect(c));
    CollectedIsEcho(s, c);
    Answers.ResetIsBlank(s.mail[c]);
    forall d: nat | d < |s'.clients| ensures OneOk(s', d) {
      assert OneOk(s, d);
    }
  }

  /** A bell that is set was rung by a client whose request lies complete in its slot. */
  lemma {:induction false} SetBellIsRung(s: State, c: nat)
    requires Inv(s) && c < |s.bells| && s.bells[c]
    ensures s.clients[c].BellRung? && Holds(s.slots[c], s.clients[c].req)
  {
    assert OneOk(s, c);
  }

  lemma {:induction false} BellStepKeeps(s: State, step: Step)
    requires Inv(s) && Enabled(s, step) && (step.SeeBell? || step.ClearBell?)
    ensures Inv(Do(s, step))
  {
    var s' := Do(s, step);
    if step.ClearBell? {
      SetBellIsRung(s, s.server.c);
    }
    forall d: nat | d < |s'.clients| ensures OneOk(s', d) {
      assert OneOk(s, d);
    }
  }

  lemma {:induction false} ReadPrefix(m: Message, buf: seq<byte>)
    requires |m| < SIZE_LIMIT && buf <= Request(m)
    ensures |buf| >= 8 ==> Wanted(buf) == 8 + |m|
  {
    if |buf| >= 8 {
      assert buf[..8] == SizeWord(m);
      SizeWordValue(m);
    }
  }

  lemma {:induction false} ReadByteKeeps(s: State)
    requires Inv(s) && Enabled(s, ReadByte)
    ensures Inv(Do(s, ReadByte))
  {
    var s', c, buf := Do(s, ReadByte), s.server.c, s.server.buf;
    assert OneOk(s, c);
    var m := s.clients[c].req;
    ReadPrefix(m, buf);
    assert s.slots[c][|buf|] == s.slots[c][..8 + |m|][|buf|] == Request(m)[|buf|];
    forall d: nat | d < |s'.clients| ensures OneOk(s', d) {
      assert OneOk(s, d);
    }
  }

  /** What the server takes is the request, in full. */
  lemma {:induction false} TakenIsRequest(s: State)
    requires Inv(s) && Enabled(s, Take)
    ensures s.clients[s.server.c] == BellRung(s.server.buf[8..])
  {
    assert OneOk(s, s.server.c);
    var m := s.clients[s.server.c].req;
    ReadPrefix(m, s.server.buf);
    assert Request(m)[8..] == m;
  }

  lemma {:induction false} TakeKeeps(s: State)
    requires Inv(s) && Enabled(s, Take)
    ensures Inv(Do(s, Take))
  {
    TakenIsRequest(s);
    var s', c, m := Do(s, Take), s.server.c, s.server.buf[8..];
    forall d: nat | d < |s'.clients| ensures OneOk(s', d) {
      assert OneOk(s, d);
      FromSnoc(s.log, d, c, m);
    }
  }

  lemma {:induction false} ReplyKeeps(s: State)
    requires Inv(s) && Enabled(s, Reply)
    ensures Inv(Do(s, Reply))
  {
    var s', c := Do(s, Reply), s.server.c;
    assert OneOk(s, c);
    Answers.PlacedIsReady(s.server.req, s.mail[c]);
    forall d: nat | d < |s'.clients| ensures OneOk(s', d) {
      assert OneOk(s, d);
    }
  }

  lemma {:induction false} StepKeeps(s: State, step: Step)
    requires Inv(s) && Enabled(s, step)
    ensures Inv(Do(s, step))
  {
    match step
    case SeeBell(_) => BellStepKeeps(s, step);
    case ClearBell => BellStepKeeps(s, step);
    case ReadByte => ReadByteKeeps(s);
    case Take => TakeKeeps(s);
    case Reply => ReplyKeeps(s);
    case LoadSize(_) => LookKeeps(s, step);
    case LoadTrailer(_) => LookKeeps(s, step);
    case CopyByte(c) => CopyByteKeeps(s, c);
    case Collect(c) => CollectKeeps(s, c);
    case _ => ClientStepKeeps(s, step);
  }

  // ----- whole runs -----

  predicate Legal(s: State, steps: seq<Step>)
    decreases |steps|
  {
    steps == [] || (Enabled(s, steps[0]) && Legal(Do(s, steps[0]), steps[1..]))
  }

  function Run(s: State, steps: seq<Step>): State
    requires Legal(s, steps)
    decreases |steps|
  {
    if steps == [] then s else Run(Do(s, steps[0]), steps[1..])
  }

  lemma {:induction false} RunKeeps(s: State, steps: seq<Step>)
    requires Inv(s) && Legal(s, steps)
    ensures Inv(Run(s, steps)) && |Run(s, steps).clients| == |s.clients|
    decreases |steps|
  {
    if steps != [] {
      StepKeeps(s, steps[0]);
      RunKeeps(Do(s, steps[0]), steps[1..]);
    }
  }

  /** Every slot and every answer buffer has at least cap bytes. */
  ghost predicate Roomy(s: State, cap: nat) {
    Shaped(s) && forall c: nat :: c < |s.clients| ==> |s.slots[c]| >= cap && |s.mail[c].buf| >= cap
  }

  lemma {:induction false} StepKeepsRoom(s: State, step: Step, cap: nat)
    requires Roomy(s, cap) && Enabled(s, step)
    ensures Roomy(Do(s, step), cap) && |Do(s, step).clients| == |s.clients| && |Do(s, step).bells| == |s.bells|
  {
  }

  lemma {:induction false} RunKeepsRoom(s: State, steps: seq<Step>, cap: nat)
    requires Roomy(s, cap) && Legal(s, steps)
    ensures Roomy(Run(s, steps), cap) && |Run(s, steps).clients| == |s.clients| && |Run(s, steps).bells| == |s.bells|
    decreases |steps|
  {
    if steps != [] {
      StepKeepsRoom(s, steps[0], cap);
      RunKeepsRoom(Do(s, steps[0]), steps[1..], cap);
    }
  }

  /** What client c handed to `send`, read off the calls alone. */
  function HandedBy(steps: seq<Step>, c: nat): seq<Message> {
    if steps == [] then []
    else (if steps[0].Issue? && steps[0].c == c then [steps[0].m] else []) + HandedBy(steps[1..], c)
  }

  lemma {:induction false} StepIssues(s: State, step: Step, c: nat)
    requires Enabled(s, step) && c < |s.clients|
    ensures c < |Do(s, step).issued|
    ensures Do(s, step).issued[c] == s.issued[c] + if step.Issue? && step.c == c then [step.m] else []
  {
  }

  lemma {:induction false} IssuedIsHanded(s: State, steps: seq<Step>, c: nat)
    requires Shaped(s) && Legal(s, steps) && c < |s.clients|
    ensures c < |Run(s, steps).issued| && Run(s, steps).issued[c] == s.issued[c] + HandedBy(steps, c)
    decreases |steps|
  {
    if steps != [] {
      var s1 := Do(s, steps[0]);
      StepIssues(s, steps[0], c);
      IssuedIsHanded(s1, steps[1..], c);
      Associative(s.issued[c], if steps[0].Issue? && steps[0].c == c then [steps[0].m] else [], HandedBy(steps[1..], c));
    }
  }

  lemma {:induction false} Reached(n: nat, cap: nat, steps: seq<Step>, c: nat)
    requires cap >= 8 && Legal(Init(n, cap), steps) && c < n
    ensures var s := Run(Init(n, cap), steps); Inv(s) && |s.clients| == n && s.issued[c] == HandedBy(steps, c)
  {
    InitInv(n, cap);
    RunKeeps(Init(n, cap), steps);
    IssuedIsHanded(Init(n, cap), steps, c);
    assert [] + HandedBy(steps, c) == HandedBy(steps, c);
  }

  /** Exactly once: in every interleaving the server has taken the requests of each client in order, complete and
      under its id, all of them or all but the one still underway; and what a client read out of its answer buffer is
      exactly what it handed over, all of it or all but the last. */
  lemma {:induction false} ExactlyOnce(n: nat, cap: nat, steps: seq<Step>, c: nat)
    requires cap >= 8 && Legal(Init(n, cap), steps) && c < n
    ensures var s, handed := Run(Init(n, cap), steps), HandedBy(steps, c);
            && |s.clients| == |s.replies| == n
            && From(s.log, c) <= handed && |handed| <= |From(s.log, c)| + 1
            && s.replies[c] <= handed && |handed| <= |s.replies[c]| + 1
            && (s.clients[c].Free? ==> From(s.log, c) == handed == s.replies[c])
  {
    Reached(n, cap, steps, c);
    assert OneOk(Run(Init(n, cap), steps), c);
  }

  /** The server never reads a slot whose bell was not rung, and while it reads, the slot holds the request. */
  lemma {:induction false} ReadsOnlyRungSlots(n: nat, cap: nat, steps: seq<Step>)
    requires cap >= 8 && Legal(Init(n, cap), steps)
    ensures var s := Run(Init(n, cap), steps);
            s.server.Reading? ==>
              && s.server.c < |s.clients| == |s.slots| && s.clients[s.server.c].BellRung?
              && Holds(s.slots[s.server.c], s.clients[s.server.c].req)
              && s.server.buf <= Request(s.clients[s.server.c].req)
  {
    InitInv(n, cap);
    RunKeeps(Init(n, cap), steps);
    var s := Run(Init(n, cap), steps);
    if s.server.Reading? {
      assert OneOk(s, s.server.c);
    }
  }
}
