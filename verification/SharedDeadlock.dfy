/** When two peers of the shared-memory stream, each working through its own list of ring calls, can end up waiting for
    each other: the counting argument.  `SharedRuns` ties it to the bytes. */
module SharedDeadlock {
  import opened Chunking

  /** After i writes and j reads the next write finds room. */
  predicate CanWrite(n: nat, ws: seq<nat>, rs: seq<nat>, i: nat, j: nat) {
    i < |ws| && j <= |rs| && Sum(ws[..i]) - Sum(rs[..j]) + ws[i] <= n
  }

  /** After i writes and j reads the next read finds enough bytes. */
  predicate CanRead(ws: seq<nat>, rs: seq<nat>, i: nat, j: nat) {
    i <= |ws| && j < |rs| && Sum(ws[..i]) - Sum(rs[..j]) >= rs[j]
  }

  /** Both sides still have calls to make and both wait. */
  predicate Deadlock(n: nat, ws: seq<nat>, rs: seq<nat>, i: nat, j: nat) {
    i < |ws| && j < |rs| && !CanWrite(n, ws, rs, i, j) && !CanRead(ws, rs, i, j)
  }

  /** A schedule of writes (true) and reads (false) from (i, j). */
  predicate Schedule(n: nat, ws: seq<nat>, rs: seq<nat>, i: nat, j: nat, moves: seq<bool>)
    decreases |moves|
  {
    moves == [] ||
    (if moves[0] then CanWrite(n, ws, rs, i, j) && Schedule(n, ws, rs, i + 1, j, moves[1..])
     else CanRead(ws, rs, i, j) && Schedule(n, ws, rs, i, j + 1, moves[1..]))
  }

  function Count(moves: seq<bool>, b: bool): nat {
    if moves == [] then 0 else (if moves[0] == b then 1 else 0) + Count(moves[1..], b)
  }

  /** No schedule gets past a point at which both would wait. */
  lemma {:induction false} Confined(n: nat, ws: seq<nat>, rs: seq<nat>, i: nat, j: nat, i': nat, j': nat)
    requires Deadlock(n, ws, rs, i, j) && i' <= i && j' <= j
    ensures CanWrite(n, ws, rs, i', j') ==> i' < i
    ensures CanRead(ws, rs, i', j') ==> j' < j
  {
    SumPrefix(ws, i', i);
    SumPrefix(rs, j', j);
  }

  /** So whatever is scheduled first, the two peers lock up at or before that point. */
  lemma {:induction false} RunsIntoDeadlock(n: nat, ws: seq<nat>, rs: seq<nat>, i: nat, j: nat, i': nat, j': nat)
    returns (moves: seq<bool>)
    requires Deadlock(n, ws, rs, i, j) && i' <= i && j' <= j
    ensures Schedule(n, ws, rs, i', j', moves)
    ensures Deadlock(n, ws, rs, i' + Count(moves, true), j' + Count(moves, false))
    decreases i - i' + (j - j')
  {
    Confined(n, ws, rs, i, j, i', j');
    if CanWrite(n, ws, rs, i', j') {
      moves := RunsIntoDeadlock(n, ws, rs, i, j, i' + 1, j');
      assert ([true] + moves)[1..] == moves;
      moves := [true] + moves;
    } else if CanRead(ws, rs, i', j') {
      moves := RunsIntoDeadlock(n, ws, rs, i, j, i', j' + 1);
      assert ([false] + moves)[1..] == moves;
      moves := [false] + moves;
    } else {
      moves := [];
    }
  }

  /** With the same calls on both sides nobody waits for ever. */
  lemma {:induction false} SameCallsNeverWait(n: nat, cs: seq<nat>, i: nat, j: nat)
    requires AllWithin(cs, n)
    ensures !Deadlock(n, cs, cs, i, j)
  {
    if i < |cs| && j < |cs| {
      if i <= j {
        SumPrefix(cs, i, j);
      } else {
        SumPrefix(cs, j, i);
      }
    }
  }

  /** `write(1), write(n)` against `read(n + 1)`: after the first write both sides wait. */
  lemma {:induction false} MismatchWaits(n: nat)
    requires n >= 2
    ensures Deadlock(n, AllChunks([1, n], n), AllChunks([n + 1], n), 1, 0) && AllWithin(AllChunks([1, n], n), n)
  {
    var ws, rs := AllChunks([1, n], n), AllChunks([n + 1], n);
    assert ws == [1, n] by {
      assert Chunks(1, n) == [1] + Chunks(0, n) && Chunks(n, n) == [n] + Chunks(0, n);
      assert [1, n][..1] == [1] && [1][..0] == [];
      assert AllChunks([1], n) == AllChunks([], n) + Chunks(1, n);
    }
    assert rs == [n, 1] by {
      assert Chunks(n + 1, n) == [n] + Chunks(1, n) && Chunks(1, n) == [1] + Chunks(0, n);
      assert [n + 1][..0] == [];
    }
    assert Sum(ws[..1]) == 1 by { SumSnoc([], 1); assert ws[..1] == [] + [1]; }
    assert rs[..0] == [];
  }
}
