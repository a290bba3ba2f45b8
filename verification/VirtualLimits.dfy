/** Why `VirtualChannel` has to assume an order of arrival: a run that breaks plain `send` when the bytes of one write
    may arrive in any order. */
module VirtualLimits {
  import opened Frames
  import opened Rings
  import Inbox
  import Polling
  import opened VirtualChannel
  import opened VirtualProgress

  // ----- one frame, filled and posted -----

  /** The sender finishes filling in its frame. */
  lemma {:induction false} FillAll(s: State) returns (steps: seq<Step>)
    requires Inv(s) && s.sender.Filling?
    ensures Legal(s, steps)
    ensures var s' := Run(s, steps);
            Inv(s') && s' == s.(sendBuf := s'.sendBuf, sender := AwaitingSpace(s.sender.msg)) && |s'.sendBuf| == |s.sendBuf|
    decreases FrameSize(s.sender.msg) - s.sender.k
  {
    if s.sender.k == FrameSize(s.sender.msg) {
      EndFillKeeps(s);
      Lone(s, EndFill);
      return [EndFill];
    }
    FillByteKeeps(s);
    steps := FillAll(Do(s, FillByte));
    RunCons(s, FillByte, steps);
    steps := [FillByte] + steps;
  }

  /** With room for it, the frame is then posted as one write. */
  lemma {:induction false} PostAll(s: State) returns (steps: seq<Step>)
    requires Inv(s) && s.sender.AwaitingSpace? && !s.paranoid && FrameSize(s.sender.msg) <= Space(s)
    ensures Legal(s, steps)
    ensures var s' := Run(s, steps);
            && Inv(s') && s'.sender.Idle? && |s'.writes| == |s.writes| + 1
            && s' == s.(writes := s'.writes, sender := Idle, sendPos := s.sendPos + FrameSize(s.sender.msg))
  {
    WaitingKeeps(s, EndWait);
    var s1 := Do(s, EndWait);
    PostKeeps(s1);
    Lone(s1, Post);
    RunCons(s, EndWait, [Post]);
    return [EndWait] + [Post];
  }

  lemma {:induction false} BeginFirst(n: nat, anyOrder: bool, m: Message) returns (s: State)
    requires n >= 16 && Fits(m, n)
    ensures Enabled(Init(n, false, anyOrder), BeginSend(m)) && s == Do(Init(n, false, anyOrder), BeginSend(m))
    ensures Inv(s) && s.sent == [m]
  {
    InitInv(n, false, anyOrder);
    BeginSendKeeps(Init(n, false, anyOrder), m);
    s := Do(Init(n, false, anyOrder), BeginSend(m));
    assert [] + [m] == [m];
  }

  lemma {:induction false} OnlyWrite(sent: seq<Message>, w: Write, m: Message)
    requires InPlace(sent, false, w, 0) && sent == [m]
    ensures w == Write(0, FrameSize(m), Frame(m))
  {
    FrameAt(sent, 0);
    assert sent[..0] == [];
    assert Offset(sent, 0) == 0;
  }

  lemma {:induction false} FirstWrite(s: State, m: Message)
    requires WritesOk(s.sent, s.paranoid, s.writes) && s.sent == [m] && |s.writes| == 1 && !s.paranoid
    ensures s.writes[0] == Write(0, FrameSize(m), Frame(m))
  {
    assert InPlace(s.sent, false, s.writes[0], 0);
    OnlyWrite(s.sent, s.writes[0], m);
  }

  /** A fresh ring sends m with plain `send`; nothing has arrived. */
  lemma {:induction false} PostFirst(n: nat, anyOrder: bool, m: Message) returns (steps: seq<Step>, s: State)
    requires n >= 16 && Fits(m, n)
    ensures Legal(Init(n, false, anyOrder), steps) && Run(Init(n, false, anyOrder), steps) == s
    ensures Inv(s) && s.sender.Idle? && !s.paranoid && s.anyOrder == anyOrder && s.sent == [m] && |s.sendBuf| == n
    ensures s.receiver == Inbox.Fresh(n) && s.retired == 0 && s.sendPos == FrameSize(m)
    ensures s.writes == [Write(0, FrameSize(m), Frame(m))]
  {
    var s1 := BeginFirst(n, anyOrder, m);
    steps := FillAll(s1);
    var posting := PostAll(Run(s1, steps));
    RunConcat(s1, steps, posting);
    s := Run(s1, steps + posting);
    FirstWrite(s, m);
    RunCons(Init(n, false, anyOrder), BeginSend(m), steps + posting);
    steps := [BeginSend(m)] + (steps + posting);
  }

  // ----- bytes of one write out of order -----

  /** ring' is ring after bytes [lo, hi) were placed. */
  ghost predicate Placed(ring: seq<byte>, ring': seq<byte>, bytes: seq<byte>, lo: nat, hi: nat) {
    && |ring'| == |ring| && lo <= hi <= |bytes| <= |ring|
    && forall p :: 0 <= p < |ring| ==> ring'[p] == if lo <= p < hi then bytes[p] else ring[p]
  }

  ghost predicate NowLanded(landed: set<nat>, landed': set<nat>, lo: nat, hi: nat) {
    forall p: nat :: p in landed' <==> p in landed || lo <= p < hi
  }

  ghost predicate OneWriteArriving(s: State, w: Write) {
    && s.writes == [w] && s.retired == 0 && s.anyOrder
    && w.lo == 0 && |w.bytes| == w.hi <= |s.receiver.ring| == |s.sendBuf| && |s.sendBuf| > 0
  }

  lemma {:induction false} LandOne(s: State, w: Write, p: nat) returns (s': State)
    requires OneWriteArriving(s, w) && p < w.hi && p !in s.receiver.landed
    ensures Enabled(s, Land(p)) && s' == Do(s, Land(p)) && OneWriteArriving(s', w)
    ensures s' == s.(receiver := s.receiver.(ring := s.receiver.ring[p := w.bytes[p]], landed := s.receiver.landed + {p}))
  {
    ModUnique(p, 0, p, |s.receiver.ring|);
    s' := Do(s, Land(p));
  }

  lemma {:induction false} PlacedMore(ring: seq<byte>, ring': seq<byte>, bytes: seq<byte>, lo: nat, hi: nat)
    requires lo < hi <= |bytes| <= |ring|
    requires Placed(ring[lo := bytes[lo]], ring', bytes, lo + 1, hi)
    ensures Placed(ring, ring', bytes, lo, hi)
  {
  }

  /** Bytes [lo, hi) of the write that is arriving land. */
  lemma {:induction false} LandRange(s: State, w: Write, lo: nat, hi: nat) returns (steps: seq<Step>)
    requires OneWriteArriving(s, w)
    requires lo <= hi <= w.hi && forall p :: lo <= p < hi ==> p !in s.receiver.landed
    ensures Legal(s, steps)
    ensures var r' := Run(s, steps).receiver;
            && Run(s, steps) == s.(receiver := s.receiver.(ring := r'.ring, landed := r'.landed))
            && Placed(s.receiver.ring, r'.ring, w.bytes, lo, hi)
            && NowLanded(s.receiver.landed, r'.landed, lo, hi)
    decreases hi - lo
  {
    if lo == hi {
      return [];
    }
    var s1 := LandOne(s, w, lo);
    steps := LandRange(s1, w, lo + 1, hi);
    PlacedMore(s.receiver.ring, Run(s1, steps).receiver.ring, w.bytes, lo, hi);
    RunCons(s, Land(lo), steps);
    steps := [Land(lo)] + steps;
  }

  lemma {:induction false} SlotIsIndex(ring: seq<byte>, p: nat)
    requires p < |ring|
    ensures At(ring, p) == ring[p]
  {
    ModUnique(p, 0, p, |ring|);
  }

  /** Size word and trailer of the frame of [b] are there, its payload byte is not. */
  ghost predicate PayloadMissing(ring: seq<byte>, b: byte) {
    && |ring| >= 17 && ring[8] == 0
    && (forall k :: 0 <= k < 8 ==> ring[k] == SizeWord([b])[k])
    && (forall k :: 0 <= k < 8 ==> ring[9 + k] == VALIDITY[k])
  }

  lemma {:induction false} FrameOfByte(b: byte)
    ensures forall k :: 0 <= k < 8 ==> Frame([b])[k] == SizeWord([b])[k] && Frame([b])[9 + k] == VALIDITY[k]
  {
  }

  lemma {:induction false} PayloadStaysBehind(n: nat, b: byte) returns (steps: seq<Step>, s: State)
    requires n >= 17
    ensures Legal(Init(n, false, true), steps) && Run(Init(n, false, true), steps) == s
    ensures s.sent == [[b]] && |s.sendBuf| == |s.receiver.ring| && s.receiver.received == []
    ensures s.receiver.phase == Inbox.Restart && s.receiver.readPos == 0 && PayloadMissing(s.receiver.ring, b)
  {
    var s1;
    steps, s1 := PostFirst(n, true, [b]);
    var w := s1.writes[0];
    var head := LandRange(s1, w, 0, 8);
    var s2 := Run(s1, head);
    var tail := LandRange(s2, w, 9, 17);
    s := Run(s2, tail);
    RunConcat(s1, head, tail);
    RunConcat(Init(n, false, true), steps, head + tail);
    steps := steps + (head + tail);
    FrameOfByte(b);
  }

  lemma {:induction false} PollSeesFrame(r: Inbox.Receiver, b: byte)
    requires PayloadMissing(r.ring, b)
    ensures Polling.Lies(r.ring, 0, SizeWord([b]), 0) && Polling.Lies(r.ring, 9, VALIDITY, 0)
    ensures At(r.ring, 8) == 0
  {
    SlotIsIndex(r.ring, 8);
    forall k: nat | k < 8
      ensures At(r.ring, k) == SizeWord([b])[k] && At(r.ring, 9 + k) == VALIDITY[k]
    {
      SlotIsIndex(r.ring, k);
      SlotIsIndex(r.ring, 9 + k);
    }
  }

  /** A size word t that says 1, a valid trailer, and a zero between them: the zero is delivered. */
  lemma {:induction false} ZeroTaken(r: Inbox.Receiver, t: seq<byte>) returns (steps: seq<Inbox.Step>)
    requires |r.ring| > 0 && r.phase == Inbox.Restart && r.readPos == 0 && r.received == [] && |t| == 8 && Value(t) == 1
    requires Polling.Lies(r.ring, 0, t, 0) && Polling.Lies(r.ring, 9, VALIDITY, 0)
    requires At(r.ring, 8) == 0
    ensures Polling.Legal(r, steps) && Polling.Run(r, steps).received == [[0]]
  {
    var accepted := r.(phase := Inbox.CopyingOut(1, []));
    var taking, out := Polling.TakeIn(accepted, 1);
    assert out == [0];
    steps := Polling.Accept(r, t, 0, 1);
    Polling.RunConcat(r, steps, taking);
    steps := steps + taking;
  }

  /** The receiver accepts the frame and delivers a zero in place of b. */
  lemma {:induction false} ZeroDelivered(r: Inbox.Receiver, b: byte) returns (steps: seq<Inbox.Step>)
    requires PayloadMissing(r.ring, b) && r.phase == Inbox.Restart && r.readPos == 0 && r.received == []
    ensures Polling.Legal(r, steps) && Polling.Run(r, steps).received == [[0]]
  {
    PollSeesFrame(r, b);
    SizeWordValue([b]);
    steps := ZeroTaken(r, SizeWord([b]));
  }

  lemma {:induction false} ShortIsUnambiguous(m: Message)
    requires |m| < 8
    ensures Unambiguous(m)
  {
  }

  /** Plain `send` corrupts a one-byte message if bytes of one write may arrive in any order. */
  lemma {:induction false} CorruptedByte(n: nat, b: byte) returns (steps: seq<Step>)
    requires n >= 17
    ensures Legal(Init(n, false, true), steps)
    ensures Handed(steps) == [[b]] && Run(Init(n, false, true), steps).receiver.received == [[0]]
  {
    var s;
    steps, s := PayloadStaysBehind(n, b);
    var more := ZeroDelivered(s.receiver, b);
    LiftRun(s, more);
    RunConcat(Init(n, false, true), steps, Lift(more));
    steps := steps + Lift(more);
    SentIsHanded(Init(n, false, true), steps);
    assert [] + Handed(steps) == Handed(steps);
  }

  /** Delivery is safe exactly with front-to-back arrival or with the ordered writes of `sendParanoid`. */
  lemma {:induction false} OrderIsExact(n: nat, paranoid: bool, anyOrder: bool)
    requires n >= 17
    ensures paranoid || !anyOrder <==>
            forall steps :: Legal(Init(n, paranoid, anyOrder), steps) && Inbox.AllUnambiguous(Handed(steps)) ==>
                              Run(Init(n, paranoid, anyOrder), steps).receiver.received <= Handed(steps)
  {
    if paranoid || !anyOrder {
      forall steps | Legal(Init(n, paranoid, anyOrder), steps) && Inbox.AllUnambiguous(Handed(steps))
        ensures Run(Init(n, paranoid, anyOrder), steps).receiver.received <= Handed(steps)
      {
        ReceivedIsPrefixOfSent(n, paranoid, anyOrder, steps);
      }
    } else {
      var steps := CorruptedByte(n, 1);
      ShortIsUnambiguous([1]);
      assert Handed(steps)[0] != Run(Init(n, paranoid, anyOrder), steps).receiver.received[0];
    }
  }
}
