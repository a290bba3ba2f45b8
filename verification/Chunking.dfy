/** The chunk loops of the transports: a call of any size is cut into pieces that one ring call can take. */
module Chunking {

  function Min(a: nat, b: nat): nat {
    if a < b then a else b
  }

  /** The pieces of one `write` or `read` of the given size. */
  function Chunks(size: nat, cap: nat): seq<nat>
    requires cap > 0
    decreases size
  {
    if size == 0 then [] else [Min(size, cap)] + Chunks(size - Min(size, cap), cap)
  }

  function Sum(s: seq<nat>): nat {
    if s == [] then 0 else Sum(s[..|s| - 1]) + s[|s| - 1]
  }

  /** The pieces of a whole sequence of calls. */
  function AllChunks(sizes: seq<nat>, cap: nat): seq<nat>
    requires cap > 0
  {
    if sizes == [] then [] else AllChunks(sizes[..|sizes| - 1], cap) + Chunks(sizes[|sizes| - 1], cap)
  }

  lemma {:induction false} SumSnoc(s: seq<nat>, x: nat)
    ensures Sum(s + [x]) == Sum(s) + x
  {
    assert (s + [x])[..|s|] == s;
  }

  lemma {:induction false} SumConcat(a: seq<nat>, b: seq<nat>)
    ensures Sum(a + b) == Sum(a) + Sum(b)
    decreases |b|
  {
    if b == [] {
      assert a + b == a;
    } else {
      SumConcat(a, b[..|b| - 1]);
      assert (a + b)[..|a + b| - 1] == a + b[..|b| - 1];
    }
  }

  lemma {:induction false} SumPrefix(s: seq<nat>, i: nat, j: nat)
    requires i <= j <= |s|
    ensures Sum(s[..i]) <= Sum(s[..j])
    ensures i < j ==> Sum(s[..i]) + s[i] <= Sum(s[..j])
    decreases j - i
  {
    if i < j {
      assert s[..i + 1] == s[..i] + [s[i]];
      SumSnoc(s[..i], s[i]);
      SumPrefix(s, i + 1, j);
    }
  }

  ghost predicate AllWithin(s: seq<nat>, cap: nat) {
    forall i :: 0 <= i < |s| ==> 0 < s[i] <= cap
  }

  /** The pieces are nonempty, fit, and add up to the size. */
  lemma {:induction false} ChunksCover(size: nat, cap: nat)
    requires cap > 0
    ensures Sum(Chunks(size, cap)) == size && AllWithin(Chunks(size, cap), cap)
    decreases size
  {
    if size > 0 {
      var c := Min(size, cap);
      ChunksCover(size - c, cap);
      SumConcat([c], Chunks(size - c, cap));
      assert Sum([c]) == c by { SumSnoc([], c); assert [] + [c] == [c]; }
    }
  }

  lemma {:induction false} OneMoreRound(size: nat, cap: nat)
    requires 0 < cap
    ensures (size + cap + cap - 1) / cap == (size + cap - 1) / cap + 1
    ensures 0 < size <= cap ==> (size + cap - 1) / cap == 1
    ensures (0 + cap - 1) / cap == 0
  {
    DivUnique(cap - 1, cap, 0);
    var q := (size + cap - 1) / cap;
    assert (q + 1) * cap == q * cap + cap;
    DivUnique(size + cap + cap - 1, cap, q + 1);
    if 0 < size <= cap {
      DivUnique(size + cap - 1, cap, 1);
    }
  }

  lemma {:induction false} DivUnique(x: nat, n: nat, q: nat)
    requires n > 0 && q * n <= x < q * n + n
    ensures x / n == q
  {
    var d := x / n - q;
    assert d * n == x / n * n - q * n;
    assert d >= 1 ==> d * n >= n;
    assert d <= -1 ==> d * n + n <= 0;
  }

  /** The pieces are as few as possible, and every one but the last has exactly the size of the ring call. */
  lemma {:induction false} ChunksAreFull(size: nat, cap: nat)
    requires cap > 0
    ensures |Chunks(size, cap)| == (size + cap - 1) / cap
    ensures forall i :: 0 <= i < |Chunks(size, cap)| - 1 ==> Chunks(size, cap)[i] == cap
    decreases size
  {
    OneMoreRound(size, cap);
    if size > cap {
      ChunksAreFull(size - cap, cap);
      OneMoreRound(size - cap, cap);
    }
  }

  lemma {:induction false} AllChunksWithin(sizes: seq<nat>, cap: nat)
    requires cap > 0
    ensures AllWithin(AllChunks(sizes, cap), cap) && Sum(AllChunks(sizes, cap)) == Sum(sizes)
    decreases |sizes|
  {
    if sizes != [] {
      AllChunksWithin(sizes[..|sizes| - 1], cap);
      ChunksCover(sizes[|sizes| - 1], cap);
      SumConcat(AllChunks(sizes[..|sizes| - 1], cap), Chunks(sizes[|sizes| - 1], cap));
    }
  }

  /** The loop that both shared-memory `write` and `read` run: the ring calls it makes, in order. */
  method ChunkLoop(size: nat, cap: nat) returns (calls: seq<nat>)
    requires cap > 0
    ensures calls == Chunks(size, cap) && Sum(calls) == size && AllWithin(calls, cap)
    ensures |calls| == (size + cap - 1) / cap && forall i :: 0 <= i < |calls| - 1 ==> calls[i] == cap
  {
    calls := [];
    var i := 0;
    while i < size
      invariant i <= size && calls + Chunks(size - i, cap) == Chunks(size, cap)
    {
      var chunk := Min(size - i, cap);
      calls := calls + [chunk];
      i := i + chunk;
    }
    ChunksCover(size, cap);
    ChunksAreFull(size, cap);
  }
}
