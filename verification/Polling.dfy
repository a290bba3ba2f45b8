/** Receiver-only runs: how a poll unfolds over a ring that does not change meanwhile. */
module Polling {
  import opened Frames
  import opened Rings
  import opened Inbox

  predicate Legal(r: Receiver, steps: seq<Step>)
    decreases |steps|
  {
    steps == [] || (|r.ring| > 0 && Enabled(r, steps[0]) && Legal(Do(r, steps[0]), steps[1..]))
  }

  function Run(r: Receiver, steps: seq<Step>): Receiver
    requires Legal(r, steps)
    decreases |steps|
  {
    if steps == [] then r else Run(Do(r, steps[0]), steps[1..])
  }

  lemma {:induction false} RunConcat(r: Receiver, a: seq<Step>, b: seq<Step>)
    requires Legal(r, a) && Legal(Run(r, a), b)
    ensures Legal(r, a + b) && Run(r, a + b) == Run(Run(r, a), b)
    decreases |a|
  {
    if a == [] {
      assert a + b == b;
    } else {
      assert (a + b)[0] == a[0] && (a + b)[1..] == a[1..] + b;
      RunConcat(Do(r, a[0]), a[1..], b);
    }
  }

  lemma {:induction false} RunCons(r: Receiver, step: Step, b: seq<Step>)
    requires |r.ring| > 0 && Enabled(r, step) && Legal(Do(r, step), b)
    ensures Legal(r, [step] + b) && Run(r, [step] + b) == Run(Do(r, step), b)
  {
    assert ([step] + b)[1..] == b;
  }

  // ----- observing a word, in ascending order as the byte copy does -----

  /** The first i bytes have been observed, and they were those of w. */
  ghost predicate ReadUpTo(seen: map<nat, byte>, w: seq<byte>, i: nat) {
    && |w| == 8 && i <= 8
    && (forall k: nat :: k in seen <==> k < i)
    && (forall k: nat :: k in seen ==> seen[k] == w[k])
  }

  lemma {:induction false} ReadOneMore(seen: map<nat, byte>, w: seq<byte>, i: nat)
    requires ReadUpTo(seen, w, i) && i < 8
    ensures i !in seen && ReadUpTo(seen[i := w[i]], w, i + 1)
  {
  }

  lemma {:induction false} ReadAll(seen: map<nat, byte>, w: seq<byte>)
    requires ReadUpTo(seen, w, 8)
    ensures Complete(seen) && Word(seen) == w
  {
  }

  /** From byte i on, w lies in the ring. */
  ghost predicate Lies(ring: seq<byte>, base: nat, w: seq<byte>, i: nat) {
    |ring| > 0 && |w| == 8 && forall k :: i <= k < 8 ==> At(ring, base + k) == w[k]
  }

  /** The receiver reads the rest of the size word. */
  lemma {:induction false} ObserveSize(r: Receiver, w: seq<byte>, i: nat) returns (steps: seq<Step>, seen: map<nat, byte>)
    requires r.phase.PollingSize? && ReadUpTo(r.phase.seen, w, i) && Lies(r.ring, r.readPos, w, i)
    ensures ReadUpTo(seen, w, 8)
    ensures Legal(r, steps) && Run(r, steps) == r.(phase := PollingSize(seen))
    decreases 8 - i
  {
    if i == 8 {
      return [], r.phase.seen;
    }
    ReadOneMore(r.phase.seen, w, i);
    steps, seen := ObserveSize(Do(r, ReadSizeByte(i)), w, i + 1);
    RunCons(r, ReadSizeByte(i), steps);
    steps := [ReadSizeByte(i)] + steps;
  }

  /** The receiver reads the rest of what it takes for the trailer. */
  lemma {:induction false} ObserveTrailer(r: Receiver, w: seq<byte>, i: nat) returns (steps: seq<Step>, seen: map<nat, byte>)
    requires r.phase.PollingTrailer? && ReadUpTo(r.phase.seen, w, i) && Lies(r.ring, r.readPos + 8 + r.phase.size, w, i)
    ensures ReadUpTo(seen, w, 8)
    ensures Legal(r, steps) && Run(r, steps) == r.(phase := r.phase.(seen := seen))
    decreases 8 - i
  {
    if i == 8 {
      return [], r.phase.seen;
    }
    ReadOneMore(r.phase.seen, w, i);
    steps, seen := ObserveTrailer(Do(r, ReadTrailerByte(i)), w, i + 1);
    RunCons(r, ReadTrailerByte(i), steps);
    steps := [ReadTrailerByte(i)] + steps;
  }

  /** A size word of which i bytes were read as t says is completed ... */
  lemma {:induction false} FinishSize(r: Receiver, t: seq<byte>, i: nat) returns (steps: seq<Step>)
    requires r.phase.PollingSize? && ReadUpTo(r.phase.seen, t, i) && Lies(r.ring, r.readPos, t, i)
    ensures Legal(r, steps) && Run(r, steps) == r.(phase := PollingTrailer(t, Value(t), map[]))
  {
    var seen;
    steps, seen := ObserveSize(r, t, i);
    ReadAll(seen, t);
    RunCons(Run(r, steps), SizeRead, []);
    RunConcat(r, steps, [SizeRead]);
    steps := steps + [SizeRead];
  }

  /** ... and what lies behind that many bytes is accepted for a trailer. */
  lemma {:induction false} MatchTrailer(r: Receiver, t: seq<byte>, x: nat) returns (steps: seq<Step>)
    requires r.phase == PollingTrailer(t, x, map[]) && Lies(r.ring, r.readPos + 8 + x, VALIDITY, 0)
    ensures Legal(r, steps) && Run(r, steps) == r.(phase := CopyingOut(x, []))
  {
    var seen;
    steps, seen := ObserveTrailer(r, VALIDITY, 0);
    ReadAll(seen, VALIDITY);
    RunCons(Run(r, steps), TrailerRead, []);
    RunConcat(r, steps, [TrailerRead]);
    steps := steps + [TrailerRead];
  }

  /** Size word and trailer together: the receiver settles for Value(t) bytes. */
  lemma {:induction false} Accept(r: Receiver, t: seq<byte>, i: nat, x: nat) returns (steps: seq<Step>)
    requires r.phase.PollingSize? && ReadUpTo(r.phase.seen, t, i) && x == Value(t)
    requires Lies(r.ring, r.readPos, t, i) && Lies(r.ring, r.readPos + 8 + x, VALIDITY, 0)
    ensures Legal(r, steps) && Run(r, steps) == r.(phase := CopyingOut(x, []))
  {
    var sized := r.(phase := PollingTrailer(t, x, map[]));
    var more := MatchTrailer(sized, t, x);
    steps := FinishSize(r, t, i);
    RunConcat(r, steps, more);
    steps := steps + more;
  }

  // ----- taking in an accepted frame -----

  /** The receiver copies out whatever follows the size word. */
  lemma {:induction false} CopyAll(r: Receiver) returns (steps: seq<Step>, out: Message)
    requires r.phase.CopyingOut? && |r.phase.out| <= r.phase.size && |r.ring| > 0
    ensures |out| == r.phase.size && r.phase.out <= out
    ensures forall j :: |r.phase.out| <= j < |out| ==> out[j] == At(r.ring, r.readPos + 8 + j)
    ensures Legal(r, steps) && Run(r, steps) == r.(phase := Clearing(out, 0))
    decreases r.phase.size - |r.phase.out|
  {
    if |r.phase.out| == r.phase.size {
      RunCons(r, StartClearing, []);
      return [StartClearing], r.phase.out;
    }
    steps, out := CopyAll(Do(r, CopyOutByte));
    RunCons(r, CopyOutByte, steps);
    steps := [CopyOutByte] + steps;
  }

  lemma {:induction false} ClearAll(r: Receiver) returns (steps: seq<Step>)
    requires r.phase.Clearing? && r.phase.cleared <= FrameSize(r.phase.out) && |r.ring| > 0
    ensures Legal(r, steps) && Run(r, steps).received == r.received + [r.phase.out]
    decreases FrameSize(r.phase.out) - r.phase.cleared
  {
    if r.phase.cleared == FrameSize(r.phase.out) {
      RunCons(r, Publish, []);
      return [Publish];
    }
    steps := ClearAll(Do(r, ClearByte));
    RunCons(r, ClearByte, steps);
    steps := [ClearByte] + steps;
  }

  /** A receiver that has accepted size bytes, rightly or not, delivers them. */
  lemma {:induction false} TakeIn(r: Receiver, size: nat) returns (steps: seq<Step>, out: Message)
    requires r.phase == CopyingOut(size, []) && |r.ring| > 0
    ensures |out| == size && forall j :: 0 <= j < |out| ==> out[j] == At(r.ring, r.readPos + 8 + j)
    ensures Legal(r, steps) && Run(r, steps).received == r.received + [out]
  {
    steps, out := CopyAll(r);
    var clearing := ClearAll(Run(r, steps));
    RunConcat(r, steps, clearing);
    steps := steps + clearing;
  }
}
