/** Filling the send buffer before waiting for space is safe against a card that reads late exactly for frames that are
    sent inline: one byte more, and a run delivers a message that was never sent. */
module LateLimits {
  import opened Frames
  import opened Rings
  import Counters
  import Inbox
  import Polling
  import V = VirtualChannel
  import opened LateCard

  lemma {:induction false} RunCons(s: State, step: Step, rest: seq<Step>)
    requires Enabled(s, step) && Legal(Do(s, step), rest)
    ensures Legal(s, [step] + rest) && Run(s, [step] + rest) == Run(Do(s, step), rest)
  {
    assert ([step] + rest)[1..] == rest;
  }

  lemma {:induction false} RunConcat(s: State, a: seq<Step>, b: seq<Step>)
    requires Legal(s, a) && Legal(Run(s, a), b)
    ensures Legal(s, a + b) && Run(s, a + b) == Run(Run(s, a), b)
    decreases |a|
  {
    if a == [] {
      assert a + b == b;
    } else {
      assert (a + b)[0] == a[0] && (a + b)[1..] == a[1..] + b;
      RunConcat(Do(s, a[0]), a[1..], b);
    }
  }

  // ----- frames that are all inline -----

  ghost predicate FramesUpTo(ms: seq<Message>, len: nat) {
    forall i :: 0 <= i < |ms| ==> FrameSize(ms[i]) <= len
  }

  lemma {:induction false} InlineRunsAreCareful(s: State, steps: seq<Step>)
    requires Legal(s, steps) && AllInline(Run(s, steps).sent)
    ensures Careful(s, steps)
    decreases |steps|
  {
    if steps != [] {
      SentGrows(s, steps);
      InlineRunsAreCareful(Do(s, steps[0]), steps[1..]);
    }
  }

  // ----- filling up the ring with the first frame unread -----

  /** The first frame is one byte longer than what can be inline. */
  const BIG: nat := MAX_INLINE + 1

  ghost predicate ZeroMessages(ms: seq<Message>) {
    forall i :: 0 <= i < |ms| ==> ms[i] == Zeros(|ms[i]|) && FrameSize(ms[i]) <= BIG
  }

  ghost predicate NotRead(fetched: map<nat, byte>, end: nat) {
    forall p: nat :: p < end ==> p !in fetched
  }

  /** Only zeros were sent, nothing has arrived, and the card has read nothing of the first frame. */
  ghost predicate Primed(n: nat, s: State) {
    && Inv(s) && |s.sendBuf| == n && s.sender.Idle? && s.arrived == 0 && s.cached == 0 && s.receiver == Inbox.Fresh(n)
    && ZeroMessages(s.sent) && (s.sent != [] ==> FrameSize(s.sent[0]) == BIG)
    && NotRead(s.fetched, if s.sendPos < BIG then s.sendPos else BIG)
  }

  function SenderStep(s: State): Step {
    match s.sender
    case Idle => Post
    case Filling(m, k) => if k < FrameSize(m) then FillByte else EndFill
    case AwaitingSpace(_) => EndWait
    case Posting(_, _) => Post
  }

  function SenderLeft(s: State): nat {
    match s.sender
    case Idle => 0
    case Posting(_, _) => 1
    case AwaitingSpace(_) => 2
    case Filling(m, k) => if k <= FrameSize(m) then 3 + FrameSize(m) - k else 3
  }

  /** With room the sender completes; before it posts, nothing but its buffer and phase changes. */
  lemma {:induction false} SenderFinishes(s: State) returns (steps: seq<Step>)
    requires Inv(s) && !s.sender.Idle? && Room(s, s.sender.msg)
    ensures Legal(s, steps) && Inv(Run(s, steps))
    ensures var s', m := Run(s, steps), s.sender.msg;
            && s' == s.(sendBuf := s'.sendBuf, fetched := s'.fetched, sender := V.Idle, sendPos := s.sendPos + FrameSize(m))
            && |s'.sendBuf| == |s.sendBuf|
            && (if Inline(m) then forall p :: p in s'.fetched ==> p in s.fetched || s.sendPos <= p else s'.fetched == s.fetched)
    decreases SenderLeft(s)
  {
    var step := SenderStep(s);
    SendingKeeps(s, step);
    var s1, rest := Do(s, step), [];
    if !s1.sender.Idle? {
      rest := SenderFinishes(s1);
    }
    RunCons(s, step, rest);
    steps := [step] + rest;
  }

  /** A message of zeros is sent into the remaining room. */
  lemma {:induction false} SendZeros(n: nat, s: State, len: nat) returns (steps: seq<Step>)
    requires Primed(n, s) && s.sendPos + 16 + len <= n < SIZE_LIMIT
    requires if s.sent == [] then 16 + len == BIG else 16 + len <= MAX_INLINE
    ensures Legal(s, steps) && Primed(n, Run(s, steps)) && Run(s, steps).sendPos == s.sendPos + 16 + len
    ensures Run(s, steps).sent == s.sent + [Zeros(len)]
  {
    var m := Zeros(len);
    BeginSendKeeps(s, m);
    var rest := SenderFinishes(Do(s, BeginSend(m)));
    RunCons(s, BeginSend(m), rest);
    steps := [BeginSend(m)] + rest;
    FirstFrameEnds(s);
  }

  lemma {:induction false} FirstFrameEnds(s: State)
    requires V.SenderOk(s.sent, s.sender, false, s.sendBuf, s.sendPos, s.cached) && s.sender.Idle?
    requires s.sent != [] ==> FrameSize(s.sent[0]) == BIG
    ensures s.sent == [] ==> s.sendPos == 0
    ensures s.sent != [] ==> s.sendPos >= BIG
  {
    if s.sent != [] {
      FrameAt(s.sent, 0);
      OffsetsGrow(s.sent, 1, |s.sent|);
    }
  }

  /** k empty messages, and one that takes up the rest, fill the ring exactly. */
  lemma {:induction false} FillUp(n: nat, s: State) returns (steps: seq<Step>)
    requires Primed(n, s) && s.sent != [] && s.sendPos + 16 <= n < SIZE_LIMIT
    ensures Legal(s, steps) && Primed(n, Run(s, steps)) && Run(s, steps).sendPos == n && Run(s, steps).sent != []
    decreases n - s.sendPos
  {
    var left := n - s.sendPos;
    if left < 32 {
      steps := SendZeros(n, s, left - 16);
      return;
    }
    steps := SendZeros(n, s, 0);
    var rest := FillUp(n, Run(s, steps));
    RunConcat(s, steps, rest);
    steps := steps + rest;
  }

  lemma {:induction false} InitPrimed(n: nat)
    requires n >= 16
    ensures Primed(n, Init(n))
  {
    InitInv(n);
  }

  /** The ring is full, its first frame is posted but not read by the card. */
  lemma {:induction false} FullRing(n: nat) returns (steps: seq<Step>)
    requires BIG + 16 <= n < SIZE_LIMIT
    ensures Legal(Init(n), steps) && Primed(n, Run(Init(n), steps))
    ensures Run(Init(n), steps).sendPos == n && Run(Init(n), steps).sent != []
  {
    InitPrimed(n);
    steps := SendZeros(n, Init(n), BIG - 16);
    var rest := FillUp(n, Run(Init(n), steps));
    RunConcat(Init(n), steps, rest);
    steps := steps + rest;
  }

  // ----- the next fill hits it -----

  lemma {:induction false} SlotOverwritten(buf: seq<byte>, b: byte)
    requires |buf| > 8
    ensures Put(buf, |buf| + 8, b) == buf[8 := b]
  {
    ModUnique(|buf| + 8, 1, 8, |buf|);
  }

  /** What is left in the send buffer of the first frame after the next payload byte was filled in. */
  ghost predicate Spoiled(sendBuf: seq<byte>) {
    && BIG <= |sendBuf|
    && forall p: nat :: p < BIG ==> sendBuf[p] == if p == 8 then 1 else Frame(Zeros(BIG - 16))[p]
  }

  lemma {:induction false} FirstFrameInBuffer(n: nat, s: State)
    requires Primed(n, s) && s.sendPos == n >= BIG && s.sent != []
    ensures forall p: nat :: p < BIG ==> s.sendBuf[p] == Frame(Zeros(BIG - 16))[p]
  {
    var m := s.sent[0];
    FrameAt(s.sent, 0);
    assert s.sent[..0] == [];
    forall p: nat | p < BIG ensures s.sendBuf[p] == Frame(m)[p] {
      ModUnique(p, 0, p, n);
      assert At(s.sendBuf, p) == Wire(s.sent)[p];
      assert Wire(s.sent)[0..Offset(s.sent, 1)][p] == Wire(s.sent)[p];
    }
  }

  /** The card is about to read a spoiled first frame. */
  ghost predicate AboutToRead(n: nat, s: State) {
    && |s.sendBuf| == |s.receiver.ring| == n == s.sendPos && BIG <= n && Spoiled(s.sendBuf)
    && s.receiver.phase == Inbox.Restart && s.receiver.readPos == 0 && s.receiver.received == []
  }

  lemma {:induction false} FillOver(n: nat, s: State) returns (steps: seq<Step>)
    requires Primed(n, s) && s.sendPos == n >= BIG && s.sent != []
    ensures Legal(s, steps)
    ensures var s' := Run(s, steps);
            && AboutToRead(n, s') && s'.sent == s.sent + [[1]] && s'.fetched == s.fetched && s'.arrived == 0
  {
    FirstFrameInBuffer(n, s);
    steps := FillFirstByte(n, s);
  }

  lemma {:induction false} FillFirstByte(n: nat, s: State) returns (steps: seq<Step>)
    requires |s.sendBuf| == |s.receiver.ring| == n == s.sendPos && BIG <= n && s.sender.Idle? && s.arrived == 0
    requires s.receiver.phase == Inbox.Restart && s.receiver.readPos == 0 && s.receiver.received == []
    requires forall p: nat :: p < BIG ==> s.sendBuf[p] == Frame(Zeros(BIG - 16))[p]
    ensures Legal(s, steps)
    ensures var s' := Run(s, steps);
            && AboutToRead(n, s') && s'.sent == s.sent + [[1]] && s'.fetched == s.fetched && s'.arrived == 0
  {
    var m: Message := [1];
    var s1 := Do(s, BeginSend(m));
    SlotOverwritten(s.sendBuf, 1);
    assert Frame(m)[8] == 1;
    var s2 := Do(s1, FillByte);
    RunCons(s1, FillByte, []);
    RunCons(s, BeginSend(m), [FillByte] + []);
    steps := [BeginSend(m)] + ([FillByte] + []);
  }

  // ----- and the card delivers it -----

  ghost predicate CopiedTo(ring: seq<byte>, sendBuf: seq<byte>, end: nat) {
    end <= |ring| == |sendBuf| && forall p: nat :: p < end ==> ring[p] == sendBuf[p]
  }

  lemma {:induction false} DeliverByte(n: nat, s: State) returns (steps: seq<Step>, s': State)
    requires AboutToRead(n, s) && s.arrived < BIG && s.arrived !in s.fetched
    requires CopiedTo(s.receiver.ring, s.sendBuf, s.arrived)
    ensures Legal(s, steps) && Run(s, steps) == s' && AboutToRead(n, s')
    ensures s'.sent == s.sent && s'.arrived == s.arrived + 1 && s'.fetched == s.fetched
    ensures CopiedTo(s'.receiver.ring, s'.sendBuf, s'.arrived)
  {
    var p := s.arrived;
    ModUnique(p, 0, p, n);
    var s1 := Do(s, Fetch(p));
    s' := Do(s1, Land);
    assert s.fetched[p := At(s.sendBuf, p)] - {p} == s.fetched;
    RunCons(s1, Land, []);
    RunCons(s, Fetch(p), [Land] + []);
    steps := [Fetch(p)] + ([Land] + []);
  }

  lemma {:induction false} DeliverSpoiled(n: nat, s: State) returns (steps: seq<Step>)
    requires AboutToRead(n, s) && s.arrived <= BIG && NotRead(s.fetched, BIG)
    requires CopiedTo(s.receiver.ring, s.sendBuf, s.arrived)
    ensures Legal(s, steps)
    ensures var s' := Run(s, steps); AboutToRead(n, s') && s'.sent == s.sent && CopiedTo(s'.receiver.ring, s'.sendBuf, BIG)
    decreases BIG - s.arrived
  {
    if s.arrived == BIG {
      return [];
    }
    var s1;
    steps, s1 := DeliverByte(n, s);
    var rest := DeliverSpoiled(n, s1);
    RunConcat(s, steps, rest);
    steps := steps + rest;
  }

  lemma {:induction false} SpoiledFrameLies(ring: seq<byte>, sendBuf: seq<byte>)
    requires Spoiled(sendBuf) && CopiedTo(ring, sendBuf, BIG)
    ensures var m := Zeros(BIG - 16);
            Polling.Lies(ring, 0, SizeWord(m), 0) && Polling.Lies(ring, 8 + |m|, VALIDITY, 0) && At(ring, 8) == 1
  {
    var m := Zeros(BIG - 16);
    ModUnique(8, 0, 8, |ring|);
    forall k: nat | k < 8 ensures At(ring, k) == SizeWord(m)[k] && At(ring, 8 + |m| + k) == VALIDITY[k] {
      ModUnique(k, 0, k, |ring|);
      ModUnique(8 + |m| + k, 0, 8 + |m| + k, |ring|);
      assert Frame(m)[k] == SizeWord(m)[k] && Frame(m)[8 + |m| + k] == VALIDITY[k];
    }
  }

  /** The receiver takes the spoiled frame for a message that starts with 1. */
  lemma {:induction false} TakeSpoiled(r: Inbox.Receiver, t: seq<byte>, size: nat) returns (steps: seq<Inbox.Step>, out: Message)
    requires r.phase == Inbox.Restart && r.readPos == 0 && r.received == [] && |t| == 8 && Value(t) == size > 0
    requires Polling.Lies(r.ring, 0, t, 0) && Polling.Lies(r.ring, 8 + size, VALIDITY, 0) && At(r.ring, 8) == 1
    ensures Polling.Legal(r, steps) && Polling.Run(r, steps).received == [out] && |out| == size && out[0] == 1
  {
    var accepted := r.(phase := Inbox.CopyingOut(size, []));
    var taking;
    taking, out := Polling.TakeIn(accepted, size);
    steps := Polling.Accept(r, t, 0, size);
    Polling.RunConcat(r, steps, taking);
    steps := steps + taking;
  }

  function Lift(steps: seq<Inbox.Step>): seq<Step> {
    if steps == [] then [] else [Receive(steps[0])] + Lift(steps[1..])
  }

  lemma {:induction false} LiftRun(s: State, steps: seq<Inbox.Step>)
    requires |s.sendBuf| == |s.receiver.ring| > 0 && Polling.Legal(s.receiver, steps)
    ensures Legal(s, Lift(steps)) && Run(s, Lift(steps)) == s.(receiver := Polling.Run(s.receiver, steps))
    decreases |steps|
  {
    if steps != [] {
      LiftRun(Do(s, Receive(steps[0])), steps[1..]);
      RunCons(s, Receive(steps[0]), Lift(steps[1..]));
    }
  }

  lemma {:induction false} ReceiveSpoiled(n: nat, s: State) returns (steps: seq<Step>, out: Message)
    requires AboutToRead(n, s) && CopiedTo(s.receiver.ring, s.sendBuf, BIG)
    ensures Legal(s, steps) && Run(s, steps).sent == s.sent && Run(s, steps).receiver.received == [out]
    ensures |out| == BIG - 16 && out[0] == 1
  {
    var m := Zeros(BIG - 16);
    SizeWordValue(m);
    SpoiledFrameLies(s.receiver.ring, s.sendBuf);
    var taking;
    taking, out := TakeSpoiled(s.receiver, SizeWord(m), BIG - 16);
    LiftRun(s, taking);
    steps := Lift(taking);
  }

  lemma {:induction false} AfterTheFill(n: nat, s: State) returns (steps: seq<Step>, out: Message)
    requires Primed(n, s) && s.sendPos == n >= BIG && s.sent != []
    ensures Legal(s, steps) && Run(s, steps).sent == s.sent + [[1]] && Run(s, steps).receiver.received == [out]
    ensures |out| == BIG - 16 && out[0] == 1
  {
    var filling := FillOver(n, s);
    var s1 := Run(s, filling);
    var delivering := DeliverSpoiled(n, s1);
    var taking;
    taking, out := ReceiveSpoiled(n, Run(s1, delivering));
    RunConcat(s1, delivering, taking);
    RunConcat(s, filling, delivering + taking);
    steps := filling + (delivering + taking);
  }

  lemma {:induction false} ZerosAreUnambiguous(k: nat)
    ensures Unambiguous(Zeros(k))
  {
    var m := Zeros(k);
    forall i: nat ensures !TrailerAt(m, i) {
      if i + 8 <= k {
        assert m[i..i + 8][0] == 0 != VALIDITY[0];
      }
    }
  }

  lemma {:induction false} AllStillUnambiguous(ms: seq<Message>)
    requires ZeroMessages(ms)
    ensures Inbox.AllUnambiguous(ms + [[1]])
  {
    var all := ms + [[1]];
    forall i | 0 <= i < |all| ensures Unambiguous(all[i]) {
      if i < |ms| {
        ZerosAreUnambiguous(|ms[i]|);
      }
    }
  }

  /** A run that delivers a message which was never handed over, all of whose frames are at most one byte longer than
      inline ones and harmless otherwise. */
  lemma {:induction false} WrongMessage(n: nat) returns (steps: seq<Step>)
    requires 529 <= n < SIZE_LIMIT
    ensures Legal(Init(n), steps) && FramesUpTo(Handed(steps), 513) && Inbox.AllUnambiguous(Handed(steps))
    ensures |Handed(steps)| > 0 && Handed(steps)[0] == Zeros(497)
    ensures var got := Run(Init(n), steps).receiver.received; |got| == 1 && |got[0]| == 497 && got[0][0] == 1
  {
    steps := FullRing(n);
    var s := Run(Init(n), steps);
    var more, out := AfterTheFill(n, s);
    AllStillUnambiguous(s.sent);
    RunConcat(Init(n), steps, more);
    steps := steps + more;
    SentIsHanded(Init(n), steps);
    assert [] + Handed(steps) == Handed(steps);
  }

  lemma {:induction false} NextPowerOfTwo(n: nat)
    requires Counters.PassesSizeCheck(n) && n > MAX_INLINE
    ensures n >= 1024
  {
    Counters.PassingIsPower(n);
    assert Counters.Pow2(9) == 512 && Counters.Pow2(10) == 1024;
    if Counters.Log(n) < 10 {
      Counters.PowersGrow(Counters.Log(n), 9);
    } else {
      Counters.PowersGrow(10, Counters.Log(n));
    }
  }

  /** Every run of a ring of n bytes with frames of at most len bytes, and payloads that cannot be misframed. */
  ghost predicate WithFrames(n: nat, len: nat, steps: seq<Step>) {
    && Legal(Init(n), steps)
    && FramesUpTo(Handed(steps), len) && Inbox.AllUnambiguous(Handed(steps))
  }

  /** With a card that may read late, `send` delivers a prefix of what was handed over in all runs whose frames have at
      most len bytes if and only if such frames are sent inline, that is, have at most 512 bytes. */
  lemma {:induction false} InlineIsExact(n: nat, len: nat)
    requires Counters.PassesSizeCheck(n) && 17 <= len <= n < SIZE_LIMIT
    ensures len <= 512 <==>
            forall steps :: WithFrames(n, len, steps) ==> Run(Init(n), steps).receiver.received <= Handed(steps)
  {
    if len <= 512 {
      forall steps | WithFrames(n, len, steps) ensures Run(Init(n), steps).receiver.received <= Handed(steps) {
        SentIsHanded(Init(n), steps);
        assert [] + Handed(steps) == Handed(steps);
        InlineRunsAreCareful(Init(n), steps);
        CarefulRunsAreSafe(n, steps);
      }
    } else {
      NextPowerOfTwo(n);
      var steps := WrongMessage(n);
      assert WithFrames(n, len, steps);
      assert Run(Init(n), steps).receiver.received[0][0] != Handed(steps)[0][0];
    }
  }
}
