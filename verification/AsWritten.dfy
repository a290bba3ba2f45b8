/** The shared-memory ring with the guard of `waitUntilSendFree` as it is written: no call ever waits, and the stream
    stays intact exactly as long as every call happens to find room. */
module AsWritten {
  import opened Frames
  import opened Rings
  import opened SharedRing

  // ----- no call waits -----

  lemma {:induction false} PositionsKept(s: State, step: Step)
    requires Positions(s) && Enabled(s, step)
    ensures Positions(Do(s, step))
  {
  }

  /** Inside the loop the as-written guard has already found enough room. */
  ghost predicate LoopHasRoom(s: State) {
    Positions(s) && (!s.intended && s.writer.Looping? ==> !Full(s, |s.writer.data|))
  }

  lemma {:induction false} LoopHasRoomKept(s: State, steps: seq<Step>)
    requires LoopHasRoom(s) && Legal(s, steps)
    ensures LoopHasRoom(Run(s, steps)) && Run(s, steps).intended == s.intended
    decreases |steps|
  {
    if steps != [] {
      PositionsKept(s, steps[0]);
      LoopHasRoomKept(Do(s, steps[0]), steps[1..]);
    }
  }

  /** As written, no call ever waits for the reader: it returns early, or its loop ends after one round. */
  lemma {:induction false} AsWrittenNeverBlocks(n: nat, steps: seq<Step>)
    requires n > 0 && Legal(Init(n, false), steps)
    ensures var s := Run(Init(n, false), steps);
            && (s.writer.Entering? ==> Enabled(s, EarlyReturn) || Enabled(s, EnterLoop))
            && (s.writer.Looping? ==> Enabled(s, Refresh) && Do(s, Refresh).writer.Copying?)
  {
    LoopHasRoomKept(Init(n, false), steps);
  }

  // ----- what the guard as written does to unread bytes -----

  lemma {:induction false} CopyAll(s: State) returns (steps: seq<Step>)
    requires s.writer.Copying? && s.writer.k <= |s.writer.data| && |s.ring| > 0
    ensures Legal(s, steps)
    ensures var data := s.writer.data;
            Run(s, steps) == s.(ring := PutAll(s.ring, s.written + s.writer.k, data[s.writer.k..]),
                                written := s.written + |data|, sent := s.sent + data, writer := Idle)
    decreases |s.writer.data| - s.writer.k
  {
    if s.writer.k == |s.writer.data| {
      RunCons(s, PublishWritten, []);
      return [PublishWritten];
    }
    steps := CopyAll(Do(s, CopyByte));
    RunCons(s, CopyByte, steps);
    steps := [CopyByte] + steps;
  }

  lemma {:induction false} PassAsWrittenGuard(s: State) returns (steps: seq<Step>)
    requires Positions(s) && s.writer.Entering? && !s.intended
    ensures Legal(s, steps)
    ensures Run(s, steps) == s.(cached := Run(s, steps).cached, writer := Copying(s.writer.data, 0)) && Positions(Run(s, steps))
  {
    if Enabled(s, EarlyReturn) {
      RunCons(s, EarlyReturn, []);
      return [EarlyReturn];
    }
    var s1 := Do(s, EnterLoop);
    RunCons(s1, Refresh, []);
    RunCons(s, EnterLoop, [Refresh] + []);
    return [EnterLoop] + ([Refresh] + []);
  }

  /** A call of `send` as written, during which the reader does nothing: it simply copies. */
  lemma {:induction false} AsWrittenSend(s: State, data: seq<byte>) returns (steps: seq<Step>)
    requires Positions(s) && s.writer.Idle? && !s.intended && |data| <= |s.ring|
    ensures Legal(s, steps)
    ensures var s' := Run(s, steps);
            && Positions(s')
            && s' == s.(cached := s'.cached, ring := PutAll(s.ring, s.written, data), written := s.written + |data|,
                        sent := s.sent + data)
    ensures steps != [] && steps[0] == BeginSend(data)
  {
    var s1 := Do(s, BeginSend(data));
    steps := PassAsWrittenGuard(s1);
    var copying := CopyAll(Run(s1, steps));
    assert data[0..] == data;
    RunConcat(s1, steps, copying);
    RunCons(s, BeginSend(data), steps + copying);
    steps := [BeginSend(data)] + (steps + copying);
  }

  // ----- with room for every call nothing is lost -----

  /** Everything below this position has been copied out, published or not. */
  function Seen(s: State): nat {
    s.read + if s.reader.CopyingOut? then |s.reader.out| else 0
  }

  /** There is room for len more bytes beside those that the reader has not copied out. */
  predicate Room(s: State, len: nat) {
    s.written - Seen(s) + len <= |s.ring|
  }

  /** Every call of `send` in the run found room when it was made. */
  predicate Roomy(s: State, steps: seq<Step>)
    requires Legal(s, steps)
    decreases |steps|
  {
    steps == [] ||
    ((steps[0].BeginSend? ==> Room(s, |steps[0].data|)) && Roomy(Do(s, steps[0]), steps[1..]))
  }

  /** The same as a caller can see it, by the published read position. */
  predicate RoomyPublished(s: State, steps: seq<Step>)
    requires Legal(s, steps)
    decreases |steps|
  {
    steps == [] ||
    ((steps[0].BeginSend? ==> s.written - s.read + |steps[0].data| <= |s.ring|) && RoomyPublished(Do(s, steps[0]), steps[1..]))
  }

  lemma {:induction false} PublishedRoomIsRoom(s: State, steps: seq<Step>)
    requires Legal(s, steps) && RoomyPublished(s, steps)
    ensures Roomy(s, steps)
    decreases |steps|
  {
    if steps != [] {
      PublishedRoomIsRoom(Do(s, steps[0]), steps[1..]);
    }
  }

  function DataLength(writer: Writer): nat {
    if writer.Idle? then 0 else |writer.data|
  }

  ghost predicate Copied(ring: seq<byte>, writer: Writer, written: nat) {
    writer.Copying? ==>
      |ring| > 0 && writer.k <= |writer.data| && forall j :: 0 <= j < writer.k ==> At(ring, written + j) == writer.data[j]
  }

  ghost predicate Intact(s: State) {
    && Positions(s)
    && s.received == s.sent[..s.read]
    && (s.reader.CopyingOut? ==> s.reader.out == s.sent[s.read..s.read + |s.reader.out|])
    && Unread(s.ring, s.sent, Seen(s))
    && Room(s, DataLength(s.writer))
    && Copied(s.ring, s.writer, s.written)
  }

  lemma {:induction false} CopyStaysClear(ring: seq<byte>, sent: seq<byte>, seen: nat, data: seq<byte>, k: nat)
    requires Unread(ring, sent, seen) && seen <= |sent| && k < |data| && |sent| + |data| <= seen + |ring|
    requires Copied(ring, Copying(data, k), |sent|)
    ensures Unread(Put(ring, |sent| + k, data[k]), sent, seen)
    ensures Copied(Put(ring, |sent| + k, data[k]), Copying(data, k + 1), |sent|)
  {
    PutFrame(ring, seen, |sent| + k, data[k]);
  }

  lemma {:induction false} PublishedStaysUnread(ring: seq<byte>, sent: seq<byte>, data: seq<byte>, seen: nat)
    requires Unread(ring, sent, seen) && Copied(ring, Copying(data, |data|), |sent|)
    ensures Unread(ring, sent + data, seen)
  {
    forall p: nat | seen <= p < |sent + data| ensures At(ring, p) == (sent + data)[p] {
      if |sent| <= p {
        assert At(ring, |sent| + (p - |sent|)) == data[p - |sent|];
      }
    }
  }

  lemma {:induction false} CopyByteKeeps(s: State)
    requires Intact(s) && Enabled(s, CopyByte)
    ensures Intact(Do(s, CopyByte))
  {
    CopyStaysClear(s.ring, s.sent, Seen(s), s.writer.data, s.writer.k);
  }

  lemma {:induction false} PublishKeeps(s: State)
    requires Intact(s) && Enabled(s, PublishWritten)
    ensures Intact(Do(s, PublishWritten))
  {
    var data := s.writer.data;
    PublishedStaysUnread(s.ring, s.sent, data, Seen(s));
    assert (s.sent + data)[..s.read] == s.sent[..s.read];
    assert s.reader.CopyingOut? ==>
      (s.sent + data)[s.read..s.read + |s.reader.out|] == s.sent[s.read..s.read + |s.reader.out|];
  }

  lemma {:induction false} ReaderStepKeeps(s: State, step: Step)
    requires Intact(s) && Enabled(s, step) && (step.ReadByte? || step.PublishRead?)
    ensures Intact(Do(s, step))
  {
    var j := |s.reader.out|;
    if step.ReadByte? {
      assert s.sent[s.read..s.read + j + 1] == s.sent[s.read..s.read + j] + [s.sent[s.read + j]];
    } else {
      assert s.sent[..s.read + j] == s.sent[..s.read] + s.sent[s.read..s.read + j];
    }
  }

  lemma {:induction false} CallStepKeeps(s: State, step: Step)
    requires Intact(s) && Enabled(s, step) && (step.BeginSend? ==> Room(s, |step.data|))
    requires !step.CopyByte? && !step.PublishWritten? && !step.ReadByte? && !step.PublishRead?
    ensures Intact(Do(s, step))
  {
  }

  lemma {:induction false} RoomyRunKeeps(s: State, steps: seq<Step>)
    requires Intact(s) && Legal(s, steps) && Roomy(s, steps)
    ensures Intact(Run(s, steps))
    decreases |steps|
  {
    if steps != [] {
      var step := steps[0];
      if step.CopyByte? {
        CopyByteKeeps(s);
      } else if step.PublishWritten? {
        PublishKeeps(s);
      } else if step.ReadByte? || step.PublishRead? {
        ReaderStepKeeps(s, step);
      } else {
        CallStepKeeps(s, step);
      }
      RoomyRunKeeps(Do(s, step), steps[1..]);
    }
  }

  /** As written, a run in which every `send` finds room receives a prefix of what was handed over, whatever the reader
      does meanwhile. */
  lemma {:induction false} RoomyRunsAreIntact(n: nat, steps: seq<Step>)
    requires n > 0 && Legal(Init(n, false), steps)
    requires Roomy(Init(n, false), steps) || RoomyPublished(Init(n, false), steps)
    ensures Run(Init(n, false), steps).received <= Handed(steps)
  {
    PublishedIsHanded(n, false, steps);
    if RoomyPublished(Init(n, false), steps) {
      PublishedRoomIsRoom(Init(n, false), steps);
    }
    RoomyRunKeeps(Init(n, false), steps);
  }

  // ----- without room something is lost -----

  /** What every run keeps, roomy or not. */
  ghost predicate Counted(s: State) {
    Positions(s) && !s.intended && |s.received| == s.read
  }

  lemma {:induction false} CountedKept(s: State, steps: seq<Step>)
    requires Counted(s) && Legal(s, steps)
    ensures Counted(Run(s, steps)) && |Run(s, steps).ring| == |s.ring|
    decreases |steps|
  {
    if steps != [] {
      PositionsKept(s, steps[0]);
      CountedKept(Do(s, steps[0]), steps[1..]);
    }
  }

  /** An unread byte of the stream that the ring no longer holds: b lies in its slot. */
  ghost predicate Lost(s: State, p: nat, b: byte) {
    Counted(s) && s.writer.Idle? && Seen(s) <= p < |s.sent| && s.sent[p] != b && At(s.ring, p) == b
  }

  function Fill(len: nat, b: byte): (d: seq<byte>)
    ensures |d| == len && forall i :: 0 <= i < len ==> d[i] == b
  {
    seq<byte>(len, _ => b)
  }

  /** Overwriting with b leaves every b in place. */
  lemma {:induction false} FillKeeps(ring: seq<byte>, p: nat, len: nat, b: byte, q: nat)
    requires |ring| > 0 && At(ring, q) == b
    ensures At(PutAll(ring, p, Fill(len, b)), q) == b
    decreases len
  {
    if len > 0 {
      assert Fill(len, b)[1..] == Fill(len - 1, b);
      FillKeeps(Put(ring, p, b), p + 1, len - 1, b, q);
    }
  }

  /** A reader between calls receives everything that is available. */
  lemma {:induction false} ReceiveAvailable(s: State) returns (steps: seq<Step>, out: seq<byte>)
    requires |s.ring| > 0 && s.reader.Ready? && s.read <= s.written
    ensures |out| == s.written - s.read && forall j :: 0 <= j < |out| ==> out[j] == At(s.ring, s.read + j)
    ensures Legal(s, steps) && Run(s, steps).received == s.received + out && Run(s, steps).sent == s.sent
  {
    var max := s.written - s.read;
    var s1 := Do(s, BeginReceive(max));
    steps, out := ReadAll(Do(s1, StartRead));
    RunCons(s1, StartRead, steps);
    RunCons(s, BeginReceive(max), [StartRead] + steps);
    steps := [BeginReceive(max)] + ([StartRead] + steps);
  }

  /** A byte was received that is not the one sent at its place. */
  ghost predicate Broken(s: State) {
    exists p: nat :: p < |s.received| && p < |s.sent| && s.received[p] != s.sent[p]
  }

  lemma {:induction false} LostToReady(s: State, p: nat, b: byte) returns (steps: seq<Step>)
    requires Lost(s, p, b) && s.reader.Ready?
    ensures Legal(s, steps) && Broken(Run(s, steps))
  {
    var out;
    steps, out := ReceiveAvailable(s);
    assert Run(s, steps).received[p] == out[p - s.read] == At(s.ring, s.read + (p - s.read));
  }

  lemma {:induction false} LostWhileReading(s: State, p: nat, b: byte) returns (steps: seq<Step>)
    requires Lost(s, p, b) && s.reader.CopyingOut?
    ensures Legal(s, steps) && Broken(Run(s, steps))
  {
    var out;
    steps, out := ReadAll(s);
    var s1 := Run(s, steps);
    if p < s1.read {
      assert s1.received[p] == out[p - s.read] == At(s.ring, s.read + (p - s.read));
    } else {
      CountedKept(s, steps);
      var rest := LostToReady(s1, p, b);
      RunConcat(s, steps, rest);
      steps := steps + rest;
    }
  }

  /** A reader that waits for more bytes than there are gets them: `send` never waits. */
  lemma {:induction false} LostWhileWaiting(s: State, p: nat, b: byte) returns (steps: seq<Step>)
    requires Lost(s, p, b) && s.reader.Waiting?
    ensures Legal(s, steps) && Broken(Run(s, steps))
    decreases if s.reader.max > Available(s) then s.reader.max - Available(s) else 0
  {
    if Enabled(s, StartRead) {
      var s1 := Do(s, StartRead);
      PositionsKept(s, StartRead);
      steps := LostWhileReading(s1, p, b);
      RunCons(s, StartRead, steps);
      steps := [StartRead] + steps;
    } else {
      steps := AsWrittenSend(s, Fill(1, b));
      FillKeeps(s.ring, s.written, 1, b, p);
      CountedKept(s, steps);
      var rest := LostWhileWaiting(Run(s, steps), p, b);
      RunConcat(s, steps, rest);
      steps := steps + rest;
    }
  }

  lemma {:induction false} LostIsBroken(s: State, p: nat, b: byte) returns (steps: seq<Step>)
    requires Lost(s, p, b)
    ensures Legal(s, steps) && Broken(Run(s, steps))
  {
    match s.reader
    case Ready => steps := LostToReady(s, p, b);
    case Waiting(_, _) => steps := LostWhileWaiting(s, p, b);
    case CopyingOut(_, _) => steps := LostWhileReading(s, p, b);
  }

  /** The last byte of a call without room lands on a byte that was not copied out. */
  lemma {:induction false} SendWithoutRoom(s: State, len: nat) returns (b: byte, p: nat, steps: seq<Step>)
    requires Counted(s) && s.writer.Idle? && 0 < len <= |s.ring| && !Room(s, len)
    ensures Legal(s, steps) && steps != [] && steps[0] == BeginSend(Fill(len, b))
    ensures Lost(Run(s, steps), p, b)
  {
    p := s.written + len - 1 - |s.ring|;
    b := if s.sent[p] == 0 then 1 else 0;
    var data := Fill(len, b);
    steps := AsWrittenSend(s, data);
    CountedKept(s, steps);
    PutAllAt(s.ring, s.written, s.written, data);
    OneRoundLater(PutAll(s.ring, s.written, data), p);
    assert At(PutAll(s.ring, s.written, data), s.written + len - 1) == b;
  }

  /** As written, from every reachable state and for every length without room there is data of that length and a
      continuation that delivers a byte that was not sent. */
  lemma {:induction false} NoRoomBreaksTheStream(n: nat, steps: seq<Step>, len: nat)
    requires Legal(Init(n, false), steps) && 0 < len <= n
    requires Run(Init(n, false), steps).writer.Idle? && !Room(Run(Init(n, false), steps), len)
    ensures exists data, more :: |data| == len && Legal(Init(n, false), steps + ([BeginSend(data)] + more)) &&
                                 !(Run(Init(n, false), steps + ([BeginSend(data)] + more)).received
                                   <= Handed(steps + ([BeginSend(data)] + more)))
  {
    CountedKept(Init(n, false), steps);
    var s := Run(Init(n, false), steps);
    var b, p, sending := SendWithoutRoom(s, len);
    var reading := LostIsBroken(Run(s, sending), p, b);
    RunConcat(s, sending, reading);
    RunConcat(Init(n, false), steps, sending + reading);
    var more := sending[1..] + reading;
    assert sending + reading == [BeginSend(Fill(len, b))] + more;
    var all := steps + ([BeginSend(Fill(len, b))] + more);
    PublishedIsHanded(n, false, all);
    assert Broken(Run(Init(n, false), all));
  }

  /** `send` of a full ring of zeros followed by `send` of a single 1 overwrites the first zero. */
  lemma {:induction false} OverwritingRun(n: nat) returns (steps: seq<Step>)
    requires n > 0
    ensures Legal(Init(n, false), steps)
    ensures var s := Run(Init(n, false), steps);
            |Handed(steps)| > 0 && |s.received| > 0 && Handed(steps)[0] == 0 && s.received[0] == 1
  {
    steps := AsWrittenSend(Init(n, false), Zeros(n));
    var s1 := Run(Init(n, false), steps);
    var more := AsWrittenSend(s1, [1]);
    RunConcat(Init(n, false), steps, more);
    steps := steps + more;
    var s2 := Run(s1, more);
    var reading, out := ReceiveAvailable(s2);
    RunConcat(Init(n, false), steps, reading);
    steps := steps + reading;
    PutAllAt(s1.ring, n, n, [1]);
    OneRoundLater(s2.ring, 0);
    PublishedIsHanded(n, false, steps);
  }
}
