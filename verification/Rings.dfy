/** A ring of bytes addressed by ever-growing stream positions: position p lives in slot p mod size. */
module Rings {
  import opened Frames

  function At(ring: seq<byte>, p: nat): byte
    requires |ring| > 0
  {
    ring[p % |ring|]
  }

  function Put(ring: seq<byte>, p: nat, b: byte): (r: seq<byte>)
    requires |ring| > 0
    ensures |r| == |ring|
  {
    ring[p % |ring| := b]
  }

  lemma {:induction false} ModUnique(x: nat, k: int, r: nat, n: nat)
    requires r < n
    requires x == k * n + r
    ensures x % n == r
  {
    var d := x / n - k;
    assert d * n == r - x % n by {
      assert d * n == (x / n) * n - k * n;
    }
    assert d >= 1 ==> d * n >= n;
    assert d <= -1 ==> d * n + n <= 0;
  }

  /** Positions less than one ring apart never share a slot. */
  lemma {:induction false} SlotsDiffer(p: nat, q: nat, n: nat)
    requires p < q < p + n
    ensures p % n != q % n
  {
    var r := p % n + (q - p);
    var k := p / n;
    if r < n {
      ModUnique(q, k, r, n);
    } else {
      assert (k + 1) * n == k * n + n;
      ModUnique(q, k + 1, r - n, n);
    }
  }

  lemma {:induction false} OneRoundLater(ring: seq<byte>, p: nat)
    requires |ring| > 0
    ensures At(ring, p + |ring|) == At(ring, p)
  {
    var n := |ring|;
    var k := p / n;
    assert (k + 1) * n == k * n + n;
    ModUnique(p + n, k + 1, p % n, n);
  }

  /** Writing one position leaves every other position of the same window alone. */
  lemma {:induction false} PutFrame(ring: seq<byte>, lo: nat, p: nat, b: byte)
    requires |ring| > 0
    requires lo <= p < lo + |ring|
    ensures At(Put(ring, p, b), p) == b
    ensures forall q :: lo <= q < lo + |ring| && q != p ==> At(Put(ring, p, b), q) == At(ring, q)
  {
    forall q | lo <= q < lo + |ring| && q != p
      ensures At(Put(ring, p, b), q) == At(ring, q)
    {
      if p < q { SlotsDiffer(p, q, |ring|); } else { SlotsDiffer(q, p, |ring|); }
    }
  }

  /** Byte j of data goes to position p + j. */
  function PutAll(ring: seq<byte>, p: nat, data: seq<byte>): (r: seq<byte>)
    requires |ring| > 0
    ensures |r| == |ring|
    decreases |data|
  {
    if data == [] then ring else PutAll(Put(ring, p, data[0]), p + 1, data[1..])
  }

  /** In a window that contains all of [p, p + |data|), exactly these positions change. */
  lemma {:induction false} PutAllAt(ring: seq<byte>, lo: nat, p: nat, data: seq<byte>)
    requires |ring| > 0
    requires lo <= p && p + |data| <= lo + |ring|
    ensures forall q: nat :: lo <= q < lo + |ring| ==>
              At(PutAll(ring, p, data), q) == if p <= q < p + |data| then data[q - p] else At(ring, q)
    decreases |data|
  {
    if data != [] {
      PutFrame(ring, lo, p, data[0]);
      PutAllAt(Put(ring, p, data[0]), lo, p + 1, data[1..]);
    }
  }

  /** Copying the pieces one after the other copies the whole. */
  lemma {:induction false} PutAllConcat(ring: seq<byte>, p: nat, a: seq<byte>, b: seq<byte>)
    requires |ring| > 0
    ensures PutAll(ring, p, a + b) == PutAll(PutAll(ring, p, a), p + |a|, b)
    decreases |a|
  {
    if a == [] {
      assert a + b == b;
    } else {
      PutAllConcat(Put(ring, p, a[0]), p + 1, a[1..], b);
      assert (a + b)[1..] == a[1..] + b;
    }
  }
}
