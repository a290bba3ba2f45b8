/** `VirtualRingBuffer`: one direction of the shared-memory byte stream, one memory access per step.

    The early return of `waitUntilSendFree` tests the opposite of what its comments say; `intended` chooses
    between the guard the comments describe and the guard as it is written.  `cachedRemoteRead` starts at 0. */
module SharedRing {
  import opened Frames
  import opened Rings

  datatype Writer =
    | Idle
    | Entering(data: seq<byte>)
    | Looping(data: seq<byte>)
    | Copying(data: seq<byte>, k: nat)

  datatype Reader =
    | Ready
    | Waiting(max: nat, some: bool)
    | CopyingOut(size: nat, out: seq<byte>)

  datatype State = State(
    intended: bool,
    ring: seq<byte>,
    written: nat,
    read: nat,
    cached: nat,
    writer: Writer,
    reader: Reader,
    sent: seq<byte>,
    received: seq<byte>)

  datatype Step =
    | BeginSend(data: seq<byte>)
    | EarlyReturn
    | EnterLoop
    | Refresh
    | CopyByte
    | PublishWritten
    | BeginReceive(max: nat)
    | BeginReceiveSome(max: nat)
    | StartRead
    | ReadByte
    | PublishRead

  /** `(localWritten - cachedRemoteRead) > (size - length)` */
  predicate Full(s: State, length: nat) {
    s.written - s.cached > |s.ring| - length
  }

  predicate ReturnsEarly(s: State, length: nat) {
    if s.intended then !Full(s, length) else Full(s, length)
  }

  function Available(s: State): int {
    s.written - s.read
  }

  /** How many bytes the waiting reader takes once it sees enough of them. */
  function Take(s: State): int
    requires s.reader.Waiting?
  {
    if s.reader.some && Available(s) < s.reader.max then Available(s) else s.reader.max
  }

  predicate Enabled(s: State, step: Step) {
    |s.ring| > 0 &&
    match step
    case BeginSend(data) => s.writer.Idle? && |data| <= |s.ring|
    case EarlyReturn => s.writer.Entering? && ReturnsEarly(s, |s.writer.data|)
    case EnterLoop => s.writer.Entering? && !ReturnsEarly(s, |s.writer.data|)
    case Refresh => s.writer.Looping?
    case CopyByte => s.writer.Copying? && s.writer.k < |s.writer.data|
    case PublishWritten => s.writer.Copying? && s.writer.k == |s.writer.data|
    case BeginReceive(_) => s.reader.Ready?
    case BeginReceiveSome(_) => s.reader.Ready?
    case StartRead => s.reader.Waiting? && Available(s) >= if s.reader.some then 1 else s.reader.max
    case ReadByte => s.reader.CopyingOut? && |s.reader.out| < s.reader.size
    case PublishRead => s.reader.CopyingOut? && |s.reader.out| == s.reader.size
  }

  function Do(s: State, step: Step): State
    requires Enabled(s, step)
  {
    match step
    case BeginSend(data) => s.(writer := Entering(data))
    case EarlyReturn => s.(writer := Copying(s.writer.data, 0))
    case EnterLoop => s.(writer := Looping(s.writer.data))
    case Refresh =>
      var s' := s.(cached := s.read);
      if Full(s', |s.writer.data|) then s' else s'.(writer := Copying(s.writer.data, 0))
    case CopyByte =>
      s.(ring := Put(s.ring, s.written + s.writer.k, s.writer.data[s.writer.k]),
         writer := Copying(s.writer.data, s.writer.k + 1))
    case PublishWritten =>
      s.(written := s.written + |s.writer.data|, sent := s.sent + s.writer.data, writer := Idle)
    case BeginReceive(max) => s.(reader := Waiting(max, false))
    case BeginReceiveSome(max) => s.(reader := Waiting(max, true))
    case StartRead => s.(reader := CopyingOut(Take(s), []))
    case ReadByte => s.(reader := CopyingOut(s.reader.size, s.reader.out + [At(s.ring, s.read + |s.reader.out|)]))
    case PublishRead =>
      s.(read := s.read + s.reader.size, received := s.received + s.reader.out, reader := Ready)
  }

  function Init(n: nat, intended: bool): State {
    State(intended, Zeros(n), 0, 0, 0, Idle, Ready, [], [])
  }

  // ----- what holds with either guard -----

  ghost predicate Positions(s: State) {
    && s.cached <= s.read <= s.written == |s.sent| && |s.ring| > 0
    && (s.writer.Entering? || s.writer.Looping? ==> |s.writer.data| <= |s.ring|)
    && (s.writer.Copying? ==> |s.writer.data| <= |s.ring| && s.writer.k <= |s.writer.data|)
    && (s.reader.CopyingOut? ==> s.read + s.reader.size <= s.written && |s.reader.out| <= s.reader.size)
  }

  // ----- the invariant with the intended guard -----

  ghost predicate Unread(ring: seq<byte>, sent: seq<byte>, read: nat) {
    |ring| > 0 && forall p: nat :: read <= p < |sent| ==> At(ring, p) == sent[p]
  }

  /** What the writer has copied so far, and that it has room for all of it. */
  ghost predicate WriterOk(ring: seq<byte>, writer: Writer, written: nat, cached: nat) {
    writer.Copying? ==>
      && |ring| > 0 && writer.k <= |writer.data| && written + |writer.data| <= cached + |ring|
      && forall j :: 0 <= j < writer.k ==> At(ring, written + j) == writer.data[j]
  }

  ghost predicate Inv(s: State) {
    && Positions(s)
    && s.written <= s.read + |s.ring|
    && s.received == s.sent[..s.read]
    && Unread(s.ring, s.sent, s.read)
    && WriterOk(s.ring, s.writer, s.written, s.cached)
    && (s.reader.CopyingOut? ==> s.reader.out == s.sent[s.read..s.read + |s.reader.out|])
  }

  lemma {:induction false} InitInv(n: nat, intended: bool)
    requires n > 0
    ensures Inv(Init(n, intended))
  {
  }

  lemma {:induction false} CopyKeepsRing(ring: seq<byte>, sent: seq<byte>, read: nat, data: seq<byte>, k: nat, cached: nat)
    requires Unread(ring, sent, read) && cached <= read <= |sent| && k < |data|
    requires WriterOk(ring, Copying(data, k), |sent|, cached)
    ensures Unread(Put(ring, |sent| + k, data[k]), sent, read)
    ensures WriterOk(Put(ring, |sent| + k, data[k]), Copying(data, k + 1), |sent|, cached)
  {
    PutFrame(ring, read, |sent| + k, data[k]);
  }

  lemma {:induction false} CopyByteKeeps(s: State)
    requires Inv(s) && Enabled(s, CopyByte)
    ensures Inv(Do(s, CopyByte))
  {
    CopyKeepsRing(s.ring, s.sent, s.read, s.writer.data, s.writer.k, s.cached);
  }

  lemma {:induction false} PublishWrittenKeeps(s: State)
    requires Inv(s) && Enabled(s, PublishWritten)
    ensures Inv(Do(s, PublishWritten))
  {
    PublishedBytes(s.ring, s.sent, s.writer.data, s.read, s.cached);
    assert (s.sent + s.writer.data)[..s.read] == s.sent[..s.read];
  }

  lemma {:induction false} PublishedBytes(ring: seq<byte>, sent: seq<byte>, data: seq<byte>, read: nat, cached: nat)
    requires Unread(ring, sent, read) && WriterOk(ring, Copying(data, |data|), |sent|, cached)
    ensures Unread(ring, sent + data, read)
  {
    forall p: nat | read <= p < |sent + data| ensures At(ring, p) == (sent + data)[p] {
      if |sent| <= p {
        assert At(ring, |sent| + (p - |sent|)) == data[p - |sent|];
      }
    }
  }

  lemma {:induction false} ReadByteKeeps(s: State)
    requires Inv(s) && Enabled(s, ReadByte)
    ensures Inv(Do(s, ReadByte))
  {
    var j := |s.reader.out|;
    assert s.sent[s.read..s.read + j + 1] == s.sent[s.read..s.read + j] + [s.sent[s.read + j]];
  }

  lemma {:induction false} PublishReadKeeps(s: State)
    requires Inv(s) && Enabled(s, PublishRead)
    ensures Inv(Do(s, PublishRead))
  {
    var hi := s.read + s.reader.size;
    assert s.sent[..hi] == s.sent[..s.read] + s.sent[s.read..hi];
  }

  lemma {:induction false} WaitingKeeps(s: State, step: Step)
    requires Inv(s) && s.intended && Enabled(s, step)
    requires step.EarlyReturn? || step.EnterLoop? || step.Refresh? || step.StartRead?
    ensures Inv(Do(s, step))
  {
  }

  lemma {:induction false} StepKeeps(s: State, step: Step)
    requires Inv(s) && s.intended && Enabled(s, step)
    ensures Inv(Do(s, step))
  {
    match step
    case BeginSend(_) =>
    case EarlyReturn => WaitingKeeps(s, step);
    case EnterLoop => WaitingKeeps(s, step);
    case Refresh => WaitingKeeps(s, step);
    case CopyByte => CopyByteKeeps(s);
    case PublishWritten => PublishWrittenKeeps(s);
    case BeginReceive(_) =>
    case BeginReceiveSome(_) =>
    case StartRead => WaitingKeeps(s, step);
    case ReadByte => ReadByteKeeps(s);
    case PublishRead => PublishReadKeeps(s);
  }

  // ----- whole runs -----

  predicate Legal(s: State, steps: seq<Step>)
    decreases |steps|
  {
    steps == [] || (Enabled(s, steps[0]) && Legal(Do(s, steps[0]), steps[1..]))
  }

  function Run(s: State, steps: seq<Step>): State
    requires Legal(s, steps)
    decreases |steps|
  {
    if steps == [] then s else Run(Do(s, steps[0]), steps[1..])
  }

  lemma {:induction false} RunKeeps(s: State, steps: seq<Step>)
    requires Inv(s) && s.intended && Legal(s, steps)
    ensures Inv(Run(s, steps)) && |Run(s, steps).ring| == |s.ring|
    decreases |steps|
  {
    if steps != [] {
      StepKeeps(s, steps[0]);
      RunKeeps(Do(s, steps[0]), steps[1..]);
    }
  }

  lemma {:induction false} RunConcat(s: State, a: seq<Step>, b: seq<Step>)
    requires Legal(s, a) && Legal(Run(s, a), b)
    ensures Legal(s, a + b) && Run(s, a + b) == Run(Run(s, a), b)
    decreases |a|
  {
    if a == [] {
      assert a + b == b;
    } else {
      assert (a + b)[0] == a[0] && (a + b)[1..] == a[1..] + b;
      RunConcat(Do(s, a[0]), a[1..], b);
    }
  }

  lemma {:induction false} RunCons(s: State, step: Step, b: seq<Step>)
    requires Enabled(s, step) && Legal(Do(s, step), b)
    ensures Legal(s, [step] + b) && Run(s, [step] + b) == Run(Do(s, step), b)
  {
    assert ([step] + b)[1..] == b;
  }

  // ----- what was handed over -----

  function Handing(step: Step): seq<byte> {
    if step.BeginSend? then step.data else []
  }

  /** The bytes that callers handed to `send`, read off the calls alone. */
  function Handed(steps: seq<Step>): seq<byte> {
    if steps == [] then [] else Handing(steps[0]) + Handed(steps[1..])
  }

  /** Everything handed over so far: what was published, and the data of the call that is underway. */
  function Accepted(s: State): seq<byte> {
    s.sent + if s.writer.Idle? then [] else s.writer.data
  }

  lemma {:induction false} StepSends(s: State, step: Step)
    requires Enabled(s, step)
    ensures Accepted(Do(s, step)) == Accepted(s) + Handing(step)
  {
  }

  lemma {:induction false} SentIsHanded(s: State, steps: seq<Step>)
    requires Legal(s, steps)
    ensures Accepted(Run(s, steps)) == Accepted(s) + Handed(steps)
    decreases |steps|
  {
    if steps != [] {
      var s1 := Do(s, steps[0]);
      StepSends(s, steps[0]);
      SentIsHanded(s1, steps[1..]);
      Associative(Accepted(s), Handing(steps[0]), Handed(steps[1..]));
    }
  }

  /** With either guard: the published bytes are the beginning of what was handed over, and all of it between calls. */
  lemma {:induction false} PublishedIsHanded(n: nat, intended: bool, steps: seq<Step>)
    requires Legal(Init(n, intended), steps)
    ensures var s := Run(Init(n, intended), steps);
            && Accepted(s) == Handed(steps) && s.sent <= Handed(steps) && (s.writer.Idle? ==> s.sent == Handed(steps))
  {
    SentIsHanded(Init(n, intended), steps);
    assert [] + Handed(steps) == Handed(steps);
  }

  /** With the intended guard any mix of calls receives a prefix of the bytes handed over, never more than one ring of
      bytes is underway (copied bytes included), and the cached read position is never ahead of the real one. */
  lemma {:induction false} ReceivedIsPrefixOfSent(n: nat, steps: seq<Step>)
    requires n > 0 && Legal(Init(n, true), steps)
    ensures var s := Run(Init(n, true), steps);
            && s.cached <= s.read <= s.written <= |Handed(steps)| && s.received == Handed(steps)[..s.read]
            && s.written + (if s.writer.Copying? then s.writer.k else 0) <= s.read + n
  {
    InitInv(n, true);
    RunKeeps(Init(n, true), steps);
    PublishedIsHanded(n, true, steps);
    var s := Run(Init(n, true), steps);
    assert s.sent[..s.read] == Handed(steps)[..s.read];
  }

  // ----- how much a call receives -----

  /** While it waits the reader does nothing but look. */
  lemma {:induction false} WaitingStays(s: State, steps: seq<Step>)
    requires s.reader.Waiting? && Legal(s, steps) && forall i :: 0 <= i < |steps| ==> !steps[i].StartRead?
    ensures var s' := Run(s, steps); s'.reader == s.reader && s'.read == s.read && s'.received == s.received
    decreases |steps|
  {
    if steps != [] {
      WaitingStays(Do(s, steps[0]), steps[1..]);
    }
  }

  /** While it copies its size stays what it was. */
  lemma {:induction false} CopyingStays(s: State, steps: seq<Step>)
    requires s.reader.CopyingOut? && Legal(s, steps) && forall i :: 0 <= i < |steps| ==> !steps[i].PublishRead?
    ensures var s' := Run(s, steps);
            s'.reader.CopyingOut? && s'.reader.size == s.reader.size && s'.read == s.read && s'.received == s.received
    decreases |steps|
  {
    if steps != [] {
      CopyingStays(Do(s, steps[0]), steps[1..]);
    }
  }

  /** One call of `receive` (or, with `some`, of `receiveSome`) with everything that happens meanwhile: it begins in s,
      looks successfully after `waiting`, and is complete after `reading`. */
  ghost predicate Call(s: State, some: bool, max: nat, waiting: seq<Step>, reading: seq<Step>) {
    var begin := if some then BeginReceiveSome(max) else BeginReceive(max);
    && Enabled(s, begin)
    && Legal(Do(s, begin), waiting) && (forall i :: 0 <= i < |waiting| ==> !waiting[i].StartRead?)
    && var look := Run(Do(s, begin), waiting);
       && Enabled(look, StartRead) && Legal(Do(look, StartRead), reading)
       && (forall i :: 0 <= i < |reading| ==> !reading[i].PublishRead?)
       && Enabled(Run(Do(look, StartRead), reading), PublishRead)
  }

  /** A call of `receive(max)` appends exactly max bytes to what was received; a call of `receiveSome(max)` appends
      max bytes or, if fewer were published when it looked, all of those, and at least one unless max is 0; whatever
      the writer does meanwhile, and with either guard. */
  lemma {:induction false} CallReceives(s: State, some: bool, max: nat, waiting: seq<Step>, reading: seq<Step>)
    requires Call(s, some, max, waiting, reading)
    ensures var look := Run(Do(s, if some then BeginReceiveSome(max) else BeginReceive(max)), waiting);
            var end := Do(Run(Do(look, StartRead), reading), PublishRead);
            var published := look.written - look.read;
            && look.read == s.read && s.received <= end.received && end.read - s.read == |end.received| - |s.received|
            && |end.received| - |s.received| == (if some && published < max then published else max)
            && (some ==> published >= 1)
  {
    var begin := if some then BeginReceiveSome(max) else BeginReceive(max);
    var s1 := Do(s, begin);
    WaitingStays(s1, waiting);
    var look := Run(s1, waiting);
    CopyingStays(Do(look, StartRead), reading);
  }

  // ----- the reader alone -----

  lemma {:induction false} ReadAll(s: State) returns (steps: seq<Step>, out: seq<byte>)
    requires s.reader.CopyingOut? && |s.reader.out| <= s.reader.size && |s.ring| > 0
    ensures |out| == s.reader.size && s.reader.out <= out
    ensures forall j :: |s.reader.out| <= j < |out| ==> out[j] == At(s.ring, s.read + j)
    ensures Legal(s, steps)
    ensures Run(s, steps) == s.(reader := Ready, read := s.read + s.reader.size, received := s.received + out)
    decreases s.reader.size - |s.reader.out|
  {
    if |s.reader.out| == s.reader.size {
      RunCons(s, PublishRead, []);
      return [PublishRead], s.reader.out;
    }
    steps, out := ReadAll(Do(s, ReadByte));
    RunCons(s, ReadByte, steps);
    steps := [ReadByte] + steps;
  }

  /** If anything is unread, `receiveSome(max)` gets through without the writer, with as much of it as max allows. */
  lemma {:induction false} SomeIsReceived(s: State, max: nat) returns (steps: seq<Step>)
    requires |s.ring| > 0 && s.reader.Ready? && s.read < s.written
    ensures Legal(s, steps) && Handed(steps) == [] && steps != [] && steps[0] == BeginReceiveSome(max)
    ensures Run(s, steps).reader.Ready? && s.received <= Run(s, steps).received
    ensures |Run(s, steps).received| - |s.received| == if s.written - s.read < max then s.written - s.read else max
  {
    var s1 := Do(s, BeginReceiveSome(max));
    var out;
    steps, out := ReadAll(Do(s1, StartRead));
    RunCons(s1, StartRead, steps);
    RunCons(s, BeginReceiveSome(max), [StartRead] + steps);
    steps := [BeginReceiveSome(max)] + ([StartRead] + steps);
    SentIsHanded(s, steps);
  }
}
