/** How a doorbell client takes an answer: it waits for a nonzero size word, then for the one-byte trailer behind
    the payload that this size announces, and afterwards resets the size word only.  Everything else of an earlier answer
    stays in the buffer. */
module Answers {
  import opened Frames

  const EOT: byte := 4

  datatype Phase = AwaitingSize | AwaitingTrailer(size: nat) | Taken(size: nat)

  /** `arrived` bytes of the answer are in the buffer. */
  datatype State = State(buf: seq<byte>, arrived: nat, phase: Phase)

  datatype Step = LandByte | LandAll | LoadSize | LoadTrailer

  function Answer(m: Message): (r: seq<byte>)
    ensures |r| == 9 + |m|
  {
    SizeWord(m) + m + [EOT]
  }

  // ----- the accesses, for this module and for the protocol that uses it -----

  /** The whole answer is placed at once. */
  function Place(m: Message, s: State): State
    requires 9 + |m| <= |s.buf|
  {
    s.(buf := Answer(m) + s.buf[|Answer(m)|..], arrived := |Answer(m)|)
  }

  function LookAtSize(s: State): State
    requires 8 <= |s.buf|
  {
    var size := Value(s.buf[..8]);
    s.(phase := if size == 0 then AwaitingSize else AwaitingTrailer(size))
  }

  function LookAtTrailer(s: State): State
    requires s.phase.AwaitingTrailer? && 8 + s.phase.size < |s.buf|
  {
    if s.buf[8 + s.phase.size] == EOT then s.(phase := Taken(s.phase.size)) else s
  }

  /** The size word is set to zero after the answer was taken; nothing else is touched. */
  function ResetSize(s: State): State
    requires 8 <= |s.buf|
  {
    State(Zeros(8) + s.buf[8..], 0, AwaitingSize)
  }

  predicate Enabled(m: Message, s: State, step: Step) {
    9 + |m| <= |s.buf| &&
    match step
    case LandByte => s.arrived < |Answer(m)|
    case LandAll => s.arrived == 0
    case LoadSize => s.phase.AwaitingSize?
    case LoadTrailer => s.phase.AwaitingTrailer? && 8 + s.phase.size < |s.buf|
  }

  function Do(m: Message, s: State, step: Step): State
    requires Enabled(m, s, step)
  {
    match step
    case LandByte => s.(buf := s.buf[s.arrived := Answer(m)[s.arrived]], arrived := s.arrived + 1)
    case LandAll => Place(m, s)
    case LoadSize => LookAtSize(s)
    case LoadTrailer => LookAtTrailer(s)
  }

  predicate Legal(m: Message, s: State, steps: seq<Step>)
    decreases |steps|
  {
    steps == [] || (Enabled(m, s, steps[0]) && Legal(m, Do(m, s, steps[0]), steps[1..]))
  }

  function Run(m: Message, s: State, steps: seq<Step>): State
    requires Legal(m, s, steps)
    decreases |steps|
  {
    if steps == [] then s else Run(m, Do(m, s, steps[0]), steps[1..])
  }

  /** The client takes nothing but the whole answer. */
  predicate Sound(m: Message, s: State) {
    s.phase.Taken? ==> s.phase.size == |m| && s.arrived == |Answer(m)|
  }

  /** The buffer before an answer: reset size word, leftovers behind it. */
  predicate Reset(m: Message, stale: seq<byte>) {
    9 + |m| <= |stale| && |m| < SIZE_LIMIT && forall i :: 0 <= i < 8 ==> stale[i] == 0
  }

  function Start(stale: seq<byte>): State {
    State(stale, 0, AwaitingSize)
  }

  // ----- what a size load can see -----

  /** The size word after its first j bytes have arrived. */
  function Partial(m: Message, j: nat): (w: seq<byte>)
    ensures |w| == 8
  {
    seq<byte>(8, i requires 0 <= i < 8 => if i < j then SizeWord(m)[i] else 0)
  }

  lemma {:induction false} PartialIsNoLarger(m: Message, j: nat)
    requires |m| < SIZE_LIMIT
    ensures Value(Partial(m, j)) <= |m| && (j >= 8 ==> Value(Partial(m, j)) == |m|)
  {
    SizeWordValue(m);
    TornIsNoLarger(Partial(m, j), SizeWord(m));
    if j >= 8 {
      assert Partial(m, j) == SizeWord(m);
    }
  }

  /** A size that may be seen on the way and whose trailer position shows EOT too early: left over from before, or
      as a byte of the payload. */
  predicate Misleading(m: Message, stale: seq<byte>, v: nat)
    requires 9 + |m| <= |stale|
  {
    && 0 < v <= |m|
    && (stale[8 + v] == 4 || (v < |m| && m[v] == 4))
  }

  ghost predicate Exposed(m: Message, stale: seq<byte>)
    requires Reset(m, stale)
  {
    exists j: nat :: j <= 8 && Misleading(m, stale, Value(Partial(m, j)))
  }

  // ----- without such a size every interleaving is sound -----

  ghost predicate Mixed(m: Message, stale: seq<byte>, buf: seq<byte>, arrived: nat) {
    && |buf| == |stale| && arrived <= |Answer(m)| <= |buf|
    && forall i :: 0 <= i < |buf| ==> buf[i] == if i < arrived then Answer(m)[i] else stale[i]
  }

  ghost predicate SizeSeen(m: Message, arrived: nat, size: nat) {
    exists j: nat :: j <= 8 && j <= arrived && size == Value(Partial(m, j)) && size > 0
  }

  ghost predicate Inv(m: Message, stale: seq<byte>, s: State) {
    && Mixed(m, stale, s.buf, s.arrived)
    && (s.phase.AwaitingTrailer? ==> SizeSeen(m, s.arrived, s.phase.size))
    && Sound(m, s)
  }

  lemma {:induction false} SizeLoaded(m: Message, stale: seq<byte>, buf: seq<byte>, arrived: nat)
    requires Reset(m, stale) && Mixed(m, stale, buf, arrived)
    ensures buf[..8] == Partial(m, if arrived < 8 then arrived else 8)
  {
    var j := if arrived < 8 then arrived else 8;
    forall i | 0 <= i < 8 ensures buf[..8][i] == Partial(m, j)[i] {
      assert i < arrived ==> Answer(m)[i] == SizeWord(m)[i];
    }
  }

  lemma {:induction false} LoadSizeKeeps(m: Message, stale: seq<byte>, s: State)
    requires Reset(m, stale) && Inv(m, stale, s) && Enabled(m, s, LoadSize)
    ensures Inv(m, stale, Do(m, s, LoadSize))
  {
    SizeLoaded(m, stale, s.buf, s.arrived);
  }

  lemma {:induction false} TrailerIsReal(m: Message, stale: seq<byte>, buf: seq<byte>, arrived: nat, j: nat)
    requires Reset(m, stale) && Mixed(m, stale, buf, arrived) && j <= 8 && Value(Partial(m, j)) > 0
    requires !Misleading(m, stale, Value(Partial(m, j)))
    ensures var v := Value(Partial(m, j)); v <= |m| && (buf[8 + v] == EOT ==> v == |m| && arrived == |Answer(m)|)
  {
    PartialIsNoLarger(m, j);
    var v := Value(Partial(m, j));
    assert v < |m| ==> Answer(m)[8 + v] == m[v];
  }

  lemma {:induction false} LoadTrailerKeeps(m: Message, stale: seq<byte>, s: State)
    requires Reset(m, stale) && !Exposed(m, stale)
    requires Inv(m, stale, s) && Enabled(m, s, LoadTrailer)
    ensures Inv(m, stale, Do(m, s, LoadTrailer))
  {
    var j: nat :| j <= 8 && j <= s.arrived && s.phase.size == Value(Partial(m, j)) && s.phase.size > 0;
    TrailerIsReal(m, stale, s.buf, s.arrived, j);
  }

  lemma {:induction false} LandKeeps(m: Message, stale: seq<byte>, s: State, step: Step)
    requires Inv(m, stale, s) && Enabled(m, s, step) && (step.LandByte? || step.LandAll?)
    ensures Inv(m, stale, Do(m, s, step))
  {
  }

  lemma {:induction false} RunKeeps(m: Message, stale: seq<byte>, s: State, steps: seq<Step>)
    requires Reset(m, stale) && !Exposed(m, stale) && Inv(m, stale, s) && Legal(m, s, steps)
    ensures Inv(m, stale, Run(m, s, steps))
    decreases |steps|
  {
    if steps != [] {
      match steps[0] {
        case LoadSize => LoadSizeKeeps(m, stale, s);
        case LoadTrailer => LoadTrailerKeeps(m, stale, s);
        case _ => LandKeeps(m, stale, s, steps[0]);
      }
      RunKeeps(m, stale, Do(m, s, steps[0]), steps[1..]);
    }
  }

  // ----- with one, some interleaving is not -----

  lemma {:induction false} LandUpTo(m: Message, stale: seq<byte>, s: State, k: nat) returns (steps: seq<Step>, s': State)
    requires Mixed(m, stale, s.buf, s.arrived) && s.arrived <= k <= |Answer(m)|
    ensures Legal(m, s, steps) && Run(m, s, steps) == s'
    ensures Mixed(m, stale, s'.buf, k) && s'.arrived == k && s'.phase == s.phase
    decreases k - s.arrived
  {
    if s.arrived == k {
      return [], s;
    }
    var next := Do(m, s, LandByte);
    var rest;
    rest, s' := LandUpTo(m, stale, next, k);
    steps := [LandByte] + rest;
    assert steps[1..] == rest;
  }

  lemma {:induction false} RunConcat(m: Message, s: State, a: seq<Step>, b: seq<Step>)
    requires Legal(m, s, a) && Legal(m, Run(m, s, a), b)
    ensures Legal(m, s, a + b) && Run(m, s, a + b) == Run(m, Run(m, s, a), b)
    decreases |a|
  {
    if a == [] {
      assert a + b == b;
    } else {
      RunConcat(m, Do(m, s, a[0]), a[1..], b);
      assert (a + b)[1..] == a[1..] + b;
    }
  }

  /** j bytes arrive, the size is loaded, k bytes have arrived, the trailer is loaded. */
  lemma {:induction false} TwoLooks(m: Message, stale: seq<byte>, j: nat, k: nat) returns (steps: seq<Step>, s': State)
    requires Reset(m, stale) && j <= 8 && j <= k <= |Answer(m)| && Value(Partial(m, j)) > 0
    ensures Legal(m, Start(stale), steps) && Run(m, Start(stale), steps) == s' && s'.arrived == k
    ensures Mixed(m, stale, s'.buf, k) && s'.phase == AwaitingTrailer(Value(Partial(m, j)))
  {
    var first, s1 := LandUpTo(m, stale, Start(stale), j);
    SizeLoaded(m, stale, s1.buf, j);
    var s2 := Do(m, s1, LoadSize);
    RunConcat(m, Start(stale), first, [LoadSize]);
    var second, s3 := LandUpTo(m, stale, s2, k);
    RunConcat(m, Start(stale), first + [LoadSize], second);
    steps, s' := first + [LoadSize] + second, s3;
  }

  lemma {:induction false} ExposedRun(m: Message, stale: seq<byte>, j: nat) returns (steps: seq<Step>)
    requires Reset(m, stale) && j <= 8 && Misleading(m, stale, Value(Partial(m, j)))
    ensures Legal(m, Start(stale), steps) && !Sound(m, Run(m, Start(stale), steps))
  {
    var v := Value(Partial(m, j));
    // a leftover misleads before anything else arrives, a payload byte as soon as it is there
    var k := if stale[8 + v] == EOT then j else 9 + v;
    var looks, s := TwoLooks(m, stale, j, k);
    assert s.buf[8 + v] == EOT;
    RunConcat(m, Start(stale), looks, [LoadTrailer]);
    steps := looks + [LoadTrailer];
  }

  /** Byte by byte arrival: the client may take a half-arrived answer if and only if a size seen on the way points
      at an EOT that is not the trailer. */
  lemma {:induction false} EarlyTakeIsExact(m: Message, stale: seq<byte>)
    requires Reset(m, stale)
    ensures (forall steps :: Legal(m, Start(stale), steps) ==> Sound(m, Run(m, Start(stale), steps))) <==> !Exposed(m, stale)
  {
    if Exposed(m, stale) {
      var j: nat :| j <= 8 && Misleading(m, stale, Value(Partial(m, j)));
      var steps := ExposedRun(m, stale, j);
    } else {
      forall steps | Legal(m, Start(stale), steps) ensures Sound(m, Run(m, Start(stale), steps)) {
        RunKeeps(m, stale, Start(stale), steps);
      }
    }
  }

  /** An answer as long as the one before always meets its leftover trailer. */
  lemma {:induction false} SameLengthIsExposed(m: Message, before: Message, stale: seq<byte>)
    requires Reset(m, stale) && |m| == |before| > 0
    requires stale[8..9 + |before|] == before + [4]
    ensures Exposed(m, stale)
  {
    PartialIsNoLarger(m, 8);
    assert stale[8 + |m|] == stale[8..9 + |before|][|before|];
    assert Misleading(m, stale, Value(Partial(m, 8)));
  }

  // ----- atomic placement -----

  ghost predicate Atomic(steps: seq<Step>) {
    forall i :: 0 <= i < |steps| ==> !steps[i].LandByte?
  }

  ghost predicate AtomicInv(m: Message, stale: seq<byte>, s: State) {
    && Mixed(m, stale, s.buf, s.arrived) && (s.arrived == 0 || s.arrived == |Answer(m)|)
    && (!s.phase.AwaitingSize? ==> s.arrived == |Answer(m)| && s.phase.size == |m| > 0)
  }

  lemma {:induction false} AtomicKeeps(m: Message, stale: seq<byte>, s: State, step: Step)
    requires Reset(m, stale) && AtomicInv(m, stale, s) && Enabled(m, s, step) && !step.LandByte?
    ensures AtomicInv(m, stale, Do(m, s, step))
  {
    SizeLoaded(m, stale, s.buf, s.arrived);
    PartialIsNoLarger(m, 8);
    ZeroWord(Partial(m, 0));
  }

  lemma {:induction false} AtomicRunKeeps(m: Message, stale: seq<byte>, s: State, steps: seq<Step>)
    requires Reset(m, stale) && AtomicInv(m, stale, s) && Legal(m, s, steps) && Atomic(steps)
    ensures AtomicInv(m, stale, Run(m, s, steps))
    decreases |steps|
  {
    if steps != [] {
      AtomicKeeps(m, stale, s, steps[0]);
      AtomicRunKeeps(m, stale, Do(m, s, steps[0]), steps[1..]);
    }
  }

  /** An answer that is placed at once is taken whole, whatever was left in the buffer; an empty one never is. */
  lemma {:induction false} AtomicAnswersAreSound(m: Message, stale: seq<byte>, steps: seq<Step>)
    requires Reset(m, stale) && Legal(m, Start(stale), steps) && Atomic(steps)
    ensures var s := Run(m, Start(stale), steps);
            s.phase.Taken? ==> |m| > 0 && s.phase.size == |m| && 8 + |m| <= |s.buf| && s.buf[8..8 + |m|] == m
  {
    AtomicRunKeeps(m, stale, Start(stale), steps);
    var s := Run(m, Start(stale), steps);
    if s.phase.Taken? {
      assert forall i :: 0 <= i < |m| ==> Answer(m)[8 + i] == m[i];
      assert s.buf[8..8 + |m|] == m;
    }
  }

  // ----- one answer after the other -----

  /** No answer is there; leftovers of earlier ones may lie behind the size word. */
  ghost predicate Blank(s: State) {
    8 <= |s.buf| && s.arrived == 0 && s.phase.AwaitingSize? && forall i :: 0 <= i < 8 ==> s.buf[i] == 0
  }

  /** The answer m is there, and the client is on its way to take it. */
  ghost predicate Ready(m: Message, s: State) {
    && |m| < SIZE_LIMIT && s.arrived == |Answer(m)| <= |s.buf| && s.buf[..|Answer(m)|] == Answer(m)
    && (!s.phase.AwaitingSize? ==> s.phase.size == |m| > 0)
  }

  lemma {:induction false} PlacedIsReady(m: Message, s: State)
    requires Blank(s) && 9 + |m| <= |s.buf| && |m| < SIZE_LIMIT
    ensures Ready(m, Place(m, s)) && |Place(m, s).buf| == |s.buf|
  {
  }

  lemma {:induction false} BlankShowsNothing(s: State)
    requires Blank(s)
    ensures LookAtSize(s) == s
  {
    ZeroWord(s.buf[..8]);
  }

  lemma {:induction false} ReadySize(m: Message, s: State)
    requires Ready(m, s)
    ensures Value(s.buf[..8]) == |m| && s.buf[8 + |m|] == EOT && s.buf[8..8 + |m|] == m
  {
    var a := s.buf[..|Answer(m)|];
    assert s.buf[..8] == a[..8] == SizeWord(m);
    assert a[8 + |m|] == EOT;
    assert s.buf[8..8 + |m|] == a[8..8 + |m|] == m;
    SizeWordValue(m);
  }

  /** Looking at an answer that is there keeps it, and leads to taking it unless it is empty. */
  lemma {:induction false} LooksKeepReady(m: Message, s: State)
    requires Ready(m, s)
    ensures s.phase.AwaitingSize? ==> Ready(m, LookAtSize(s)) && (|m| > 0 ==> LookAtSize(s).phase == AwaitingTrailer(|m|))
    ensures s.phase.AwaitingTrailer? ==> Ready(m, LookAtTrailer(s)) && LookAtTrailer(s).phase == Taken(|m|)
  {
    ReadySize(m, s);
  }

  /** The reset leaves trailer and payload where they are, so the next answer of the same length is open to being taken
      before it has arrived. */
  lemma {:induction false} NextAnswerIsExposed(before: Message, s: State, m: Message)
    requires Ready(before, s) && |m| == |before| > 0
    ensures Reset(m, ResetSize(s).buf) && Exposed(m, ResetSize(s).buf)
  {
    ReadySize(before, s);
    var stale := ResetSize(s).buf;
    assert stale[8..9 + |m|] == s.buf[8..9 + |m|];
    assert s.buf[8..9 + |m|] == s.buf[8..8 + |m|] + [s.buf[8 + |m|]];
    SameLengthIsExposed(m, before, stale);
  }

  /** After the reset the buffer is blank again, whatever is left in it. */
  lemma {:induction false} ResetIsBlank(s: State)
    requires 8 <= |s.buf|
    ensures Blank(ResetSize(s)) && |ResetSize(s).buf| == |s.buf|
  {
  }
}
