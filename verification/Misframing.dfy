/** The payload hypothesis of torn-read safety is exact: a message that is not `Unambiguous`, wherever it comes in the
    sequence, has a run in which the receiver takes a proper prefix of its payload for the whole message. */
module Misframing {
  import opened Frames
  import opened Rings
  import Inbox
  import Polling
  import opened Channel
  import opened Schedules
  import Progress

  // ----- up to the message in question -----

  /** All messages were delivered, nothing is underway, and the receiver is about to poll. */
  ghost predicate AtRest(n: nat, s: State, ms: seq<Message>) {
    && Inv(s) && |s.sendBuf| == n && s.sent == ms && s.receiver.received == ms
    && s.sender.Idle? && s.receiver.phase == Inbox.Restart
  }

  /** One more message is sent and delivered. */
  lemma {:induction false} DeliverNext(n: nat, s: State, m: Message) returns (steps: seq<Step>)
    requires AtRest(n, s, s.sent) && Fits(m, n) && Inbox.AllUnambiguous(s.sent + [m])
    ensures Legal(s, steps) && AtRest(n, Run(s, steps), s.sent + [m])
  {
    BeginSendKeeps(s, m);
    var s1 := Do(s, BeginSend(m));
    var more := DeliverAndPoll(s1);
    SizesStay(s1, more);
    RunCons(s, BeginSend(m), more);
    steps := [BeginSend(m)] + more;
  }

  /** Unambiguous messages can all be delivered. */
  lemma {:induction false} DeliverAll(n: nat, ms: seq<Message>) returns (steps: seq<Step>)
    requires n >= 16 && Inbox.MessagesFit(ms, n) && Inbox.AllUnambiguous(ms)
    ensures Legal(Init(n), steps) && AtRest(n, Run(Init(n), steps), ms)
    decreases |ms|
  {
    if ms == [] {
      InitInv(n);
      return [];
    }
    var k := |ms| - 1;
    steps := DeliverAll(n, ms[..k]);
    assert Fits(ms[k], n) && ms[..k] + [ms[k]] == ms;
    var more := DeliverNext(n, Run(Init(n), steps), ms[k]);
    RunConcat(Init(n), steps, more);
    steps := steps + more;
  }

  /** Any sequence of messages that fit the ring can be handed over and is then delivered in full. */
  lemma {:induction false} AnySequenceGetsThrough(n: nat, ms: seq<Message>)
    requires n >= 16 && Inbox.MessagesFit(ms, n) && Inbox.AllUnambiguous(ms)
    ensures exists steps :: Legal(Init(n), steps) && Handed(steps) == ms && Run(Init(n), steps).receiver.received == ms
  {
    var steps := DeliverAll(n, ms);
    SentIsHanded(Init(n), steps);
    assert [] + Handed(steps) == Handed(steps);
  }

  lemma {:induction false} DeliverAndPoll(s: State) returns (steps: seq<Step>)
    requires Inv(s) && Inbox.AllUnambiguous(s.sent)
    ensures Legal(s, steps)
    ensures var s' := Run(s, steps);
            && Inv(s') && s'.sent == s.sent && s'.receiver.received == s.sent
            && s'.sender.Idle? && s'.receiver.phase == Inbox.Restart
  {
    steps := Progress.EverythingCanBeDelivered(s);
    var s1 := Run(s, steps);
    RunKeeps(s, steps);
    var polling := Progress.PollOnce(s1);
    RunConcat(s, steps, polling);
    steps := steps + polling;
  }

  // ----- the misframing run -----

  /** The frame of m is posted, and what the receiver reads next is its beginning. */
  ghost predicate Facing(s: State, m: Message) {
    && Inv(s) && s.sender.Idle? && s.sent == s.receiver.received + [m]
    && s.receiver.readPos + FrameSize(m) == s.posted && s.receiver.phase.PollingSize?
  }

  lemma {:induction false} PostFrame(n: nat, s: State, m: Message) returns (steps: seq<Step>)
    requires AtRest(n, s, s.sent) && Fits(m, n)
    ensures Legal(s, steps) && Facing(Run(s, steps), m) && Run(s, steps).receiver == s.receiver
    ensures Run(s, steps).arrived == s.receiver.readPos && Run(s, steps).sent == s.sent + [m]
  {
    BeginSendKeeps(s, m);
    var s1 := Do(s, BeginSend(m));
    WireSnoc(s.sent, m);
    EndOffset(s.sent);
    var sending := SenderFinishes(s1);
    RunCons(s, BeginSend(m), sending);
    steps := [BeginSend(m)] + sending;
  }

  /** Position readPos + k of the stream belongs to the frame. */
  lemma {:induction false} FacedByte(s: State, m: Message, k: nat)
    requires Facing(s, m) && k < FrameSize(m)
    ensures s.receiver.readPos + k < |Wire(s.sent)| && Wire(s.sent)[s.receiver.readPos + k] == Frame(m)[k]
    ensures At(s.receiver.ring, s.receiver.readPos + k) == if s.receiver.readPos + k < s.arrived then Frame(m)[k] else 0
  {
    var i := |s.receiver.received|;
    FrameAt(s.sent, i);
    assert Fits(s.sent[i], |s.receiver.ring|);
    assert s.sent[..i] == s.receiver.received;
    assert Wire(s.sent)[Offset(s.sent, i)..Offset(s.sent, i + 1)][k] == Wire(s.sent)[Offset(s.sent, i) + k];
  }

  /** The receiver reads byte k of the size word. */
  lemma {:induction false} LookAt(s: State, m: Message, k: nat) returns (s': State)
    requires Facing(s, m) && k < 8 && k !in s.receiver.phase.seen
    ensures Enabled(s, Receive(Inbox.ReadSizeByte(k))) && s' == Do(s, Receive(Inbox.ReadSizeByte(k))) && Facing(s', m)
    ensures var b := if s.receiver.readPos + k < s.arrived then SizeWord(m)[k] else 0;
            s'.receiver == s.receiver.(phase := Inbox.PollingSize(s.receiver.phase.seen[k := b]))
    ensures s'.arrived == s.arrived && s'.posted == s.posted
  {
    FacedByte(s, m, k);
    assert Frame(m)[k] == SizeWord(m)[k];
    Inbox.ReadSizeByteKeeps(s.sent, s.receiver, k);
    s' := Do(s, Receive(Inbox.ReadSizeByte(k)));
  }

  /** Any torn reading t of the size word comes about in ascending order: a byte that t shows is let in just before
      it is read, a byte that t misses is read before it is in. */
  lemma {:induction false} ReadTorn(s: State, m: Message, t: seq<byte>, k: nat) returns (steps: seq<Step>)
    requires Facing(s, m) && Torn(t, SizeWord(m)) && Polling.ReadUpTo(s.receiver.phase.seen, t, k)
    requires s.receiver.readPos <= s.arrived <= s.receiver.readPos + k
    ensures Legal(s, steps)
    ensures var s' := Run(s, steps);
            && Facing(s', m) && s'.sent == s.sent && |s'.sendBuf| == |s.sendBuf|
            && Polling.ReadUpTo(s'.receiver.phase.seen, t, 8)
    decreases 8 - k
  {
    if k == 8 {
      return [];
    }
    steps := [];
    if t[k] != 0 {
      steps := CardDelivers(s, s.receiver.readPos + k + 1);
    }
    var s1 := Run(s, steps);
    var s2 := LookAt(s1, m, k);
    Polling.ReadOneMore(s.receiver.phase.seen, t, k);
    var rest := ReadTorn(s2, m, t, k + 1);
    RunCons(s1, Receive(Inbox.ReadSizeByte(k)), rest);
    RunConcat(s, steps, [Receive(Inbox.ReadSizeByte(k))] + rest);
    steps := steps + ([Receive(Inbox.ReadSizeByte(k))] + rest);
  }

  lemma {:induction false} TrailerLies(s: State, m: Message, x: nat)
    requires Facing(s, m) && s.arrived == s.posted && TrailerAt(m, x)
    ensures Polling.Lies(s.receiver.ring, s.receiver.readPos + 8 + x, VALIDITY, 0)
  {
    forall k: nat | k < 8 ensures At(s.receiver.ring, s.receiver.readPos + 8 + x + k) == VALIDITY[k] {
      FacedByte(s, m, 8 + x + k);
      assert Frame(m)[8 + x + k] == m[x + k];
      assert m[x..x + 8][k] == VALIDITY[k];
    }
  }

  /** With its torn reading of the size word the receiver takes a piece of the payload for the trailer. */
  lemma {:induction false} PayloadTakenForTrailer(r: Inbox.Receiver, t: seq<byte>) returns (steps: seq<Inbox.Step>, out: Message)
    requires r.phase.PollingSize? && Polling.ReadUpTo(r.phase.seen, t, 8)
    requires Polling.Lies(r.ring, r.readPos + 8 + Value(t), VALIDITY, 0)
    ensures Polling.Legal(r, steps) && Polling.Run(r, steps).received == r.received + [out] && |out| == Value(t)
  {
    var accepted := r.(phase := Inbox.CopyingOut(Value(t), []));
    var taking;
    taking, out := Polling.TakeIn(accepted, Value(t));
    steps := Polling.Accept(r, t, 8, Value(t));
    Polling.RunConcat(r, steps, taking);
    steps := steps + taking;
  }

  /** The size word is read torn, then the rest of the frame arrives. */
  lemma {:induction false} TearThenArrive(s: State, m: Message, t: seq<byte>) returns (steps: seq<Step>)
    requires Facing(s, m) && Torn(t, SizeWord(m)) && s.receiver.phase == Inbox.Restart && s.arrived == s.receiver.readPos
    ensures Legal(s, steps)
    ensures var s' := Run(s, steps);
            && Facing(s', m) && s'.sent == s.sent && s'.arrived == s'.posted
            && Polling.ReadUpTo(s'.receiver.phase.seen, t, 8)
  {
    steps := ReadTorn(s, m, t, 0);
    var arriving := CardFinishes(Run(s, steps));
    RunConcat(s, steps, arriving);
    steps := steps + arriving;
  }

  lemma {:induction false} TakeTorn(s: State, m: Message, t: seq<byte>) returns (steps: seq<Step>, out: Message)
    requires Facing(s, m) && s.arrived == s.posted && TrailerAt(m, Value(t))
    requires Polling.ReadUpTo(s.receiver.phase.seen, t, 8)
    ensures Legal(s, steps) && Run(s, steps).sent == s.sent && |out| == Value(t)
    ensures Run(s, steps).receiver.received == s.receiver.received + [out]
  {
    TrailerLies(s, m, Value(t));
    var taking;
    taking, out := PayloadTakenForTrailer(s.receiver, t);
    LiftRun(s, taking);
    steps := Lift(taking);
  }

  /** From a channel at rest: m is sent and cut short. */
  lemma {:induction false} CutShort(n: nat, s: State, m: Message, t: seq<byte>) returns (steps: seq<Step>, out: Message)
    requires AtRest(n, s, s.sent) && Fits(m, n) && Torn(t, SizeWord(m)) && TrailerAt(m, Value(t))
    ensures Legal(s, steps) && Run(s, steps).sent == s.sent + [m]
    ensures Run(s, steps).receiver.received == s.sent + [out] && |out| == Value(t) < |m|
  {
    var posting := PostFrame(n, s, m);
    var s1 := Run(s, posting);
    var tearing := TearThenArrive(s1, m, t);
    var taking;
    taking, out := TakeTorn(Run(s1, tearing), m, t);
    RunConcat(s1, tearing, taking);
    RunConcat(s, posting, tearing + taking);
    steps := posting + (tearing + taking);
  }

  /** An ambiguous payload can be cut short after any unambiguous messages: a run delivers Value(t) < |m| bytes in its
      place. */
  lemma {:induction false} Misframed(n: nat, before: seq<Message>, m: Message, t: seq<byte>) returns (steps: seq<Step>, out: Message)
    requires n >= 16 && Inbox.MessagesFit(before, n) && Inbox.AllUnambiguous(before)
    requires Fits(m, n) && Torn(t, SizeWord(m)) && TrailerAt(m, Value(t))
    ensures Legal(Init(n), steps) && Handed(steps) == before + [m]
    ensures Run(Init(n), steps).receiver.received == before + [out] && |out| == Value(t) < |m|
  {
    steps := DeliverAll(n, before);
    var more;
    more, out := CutShort(n, Run(Init(n), steps), m, t);
    RunConcat(Init(n), steps, more);
    steps := steps + more;
    SentIsHanded(Init(n), steps);
    assert [] + Handed(steps) == Handed(steps);
  }

  lemma {:induction false} FirstAmbiguous(ms: seq<Message>) returns (i: nat)
    requires !Inbox.AllUnambiguous(ms)
    ensures i < |ms| && !Unambiguous(ms[i]) && Inbox.AllUnambiguous(ms[..i])
    decreases |ms|
  {
    i := |ms| - 1;
    if !Inbox.AllUnambiguous(ms[..i]) {
      var all := ms[..i];
      i := FirstAmbiguous(all);
      assert all[..i] == ms[..i];
    }
  }

  /** Every run in which a prefix of ms was handed to `send` so far. */
  ghost predicate Sending(n: nat, ms: seq<Message>, steps: seq<Step>) {
    Legal(Init(n), steps) && Handed(steps) <= ms
  }

  lemma {:induction false} AmbiguityHarms(n: nat, ms: seq<Message>) returns (steps: seq<Step>)
    requires n >= 16 && Inbox.MessagesFit(ms, n) && !Inbox.AllUnambiguous(ms)
    ensures Sending(n, ms, steps) && !(Run(Init(n), steps).receiver.received <= Handed(steps))
  {
    var i := FirstAmbiguous(ms);
    var m := ms[i];
    var t :| Torn(t, SizeWord(m)) && TrailerAt(m, Value(t));
    assert Fits(m, n);
    var out: Message;
    steps, out := Misframed(n, ms[..i], m, t);
    assert ms[..i] + [m] == ms[..i + 1];
    assert Handed(steps)[i] != Run(Init(n), steps).receiver.received[i];
  }

  /** A sequence of messages is delivered unharmed in every interleaving if and only if each of them is unambiguous. */
  lemma {:induction false} UnambiguityIsExact(n: nat, ms: seq<Message>)
    requires n >= 16 && Inbox.MessagesFit(ms, n)
    ensures Inbox.AllUnambiguous(ms) <==>
            forall steps :: Sending(n, ms, steps) ==> Run(Init(n), steps).receiver.received <= Handed(steps)
  {
    if Inbox.AllUnambiguous(ms) {
      forall steps | Sending(n, ms, steps) ensures Run(Init(n), steps).receiver.received <= Handed(steps) {
        ReceivedIsPrefixOfSent(n, steps);
      }
    } else {
      var steps := AmbiguityHarms(n, ms);
    }
  }

  /** Any payload that starts with the validity constant is ambiguous: the size word read as zero points at it. */
  lemma {:induction false} LeadingConstantIsAmbiguous(tail: Message)
    ensures !Unambiguous(VALIDITY + tail)
  {
    var t: seq<byte> := [0, 0, 0, 0, 0, 0, 0, 0];
    ZeroWord(t);
    assert (VALIDITY + tail)[0..8] == VALIDITY;
    assert Torn(t, SizeWord(VALIDITY + tail)) && TrailerAt(VALIDITY + tail, Value(t));
  }
}
