/** The polls over an array of door bells or write positions: scalar scan, SSE/AVX block scans with mask and
    leading-zero arithmetic, and the string-compare scan.  A cell is set if it differs from `empty` (0 for bells,
    -1 for positions).  The polls spin until something is set, so the array is taken to hold a set cell. */
module Polls {
  import opened Counters

  // ----- masks -----

  /** The number whose bit k is b[k]. */
  function Bits(b: seq<bool>): nat {
    if b == [] then 0 else (if b[0] then 1 else 0) + 2 * Bits(b[1..])
  }

  function Not(b: seq<bool>): (r: seq<bool>)
    ensures |r| == |b| && forall k :: 0 <= k < |b| ==> r[k] == !b[k]
  {
    seq(|b|, k requires 0 <= k < |b| => !b[k])
  }

  /** `compl` on a mask of |b| bits. */
  lemma {:induction false} Complement(b: seq<bool>)
    ensures Bits(b) < Pow2(|b|)
    ensures Bits(Not(b)) == Pow2(|b|) - 1 - Bits(b)
  {
    if b != [] {
      Complement(b[1..]);
      assert Not(b)[1..] == Not(b[1..]);
    }
  }

  /** Number of leading zeros of x as a w-bit word; `__builtin_clz` is this for w == 32. */
  function LeadingZeros(x: nat, w: nat): nat
    requires 0 < x < Pow2(w)
  {
    if x >= Pow2(w - 1) then 0 else 1 + LeadingZeros(x, w - 1)
  }

  ghost predicate HighestSet(b: seq<bool>, h: nat) {
    h < |b| && b[h] && forall k :: h < k < |b| ==> !b[k]
  }

  lemma {:induction false} NoBits(b: seq<bool>)
    ensures Bits(b) == 0 <==> forall k :: 0 <= k < |b| ==> !b[k]
  {
    if b != [] {
      NoBits(b[1..]);
      assert forall k :: 0 < k < |b| ==> b[k] == b[1..][k - 1];
    }
  }

  lemma {:induction false} HighestBit(b: seq<bool>, h: nat)
    requires HighestSet(b, h)
    ensures Pow2(h) <= Bits(b) < Pow2(h + 1)
  {
    if h == 0 {
      NoBits(b[1..]);
      assert Pow2(1) == 2 * Pow2(0);
    } else {
      assert HighestSet(b[1..], h - 1) by {
        assert b[1..][h - 1] == b[h];
      }
      HighestBit(b[1..], h - 1);
    }
  }

  lemma {:induction false} LeadingZerosOf(x: nat, h: nat, w: nat)
    requires h < w && Pow2(h) <= x < Pow2(h + 1)
    ensures 0 < x < Pow2(w) && LeadingZeros(x, w) == w - 1 - h
    decreases w
  {
    PowersGrow(h + 1, w);
    PowersGrow(h, w - 1);
    if h + 1 < w {
      PowersGrow(h + 1, w - 1);
      LeadingZerosOf(x, h, w - 1);
    }
  }

  /** What a byte mask makes of lane-wise marks: every lane is repeated `bits` times. */
  function Spread(marks: seq<bool>, bits: nat): (b: seq<bool>)
    requires bits > 0
    ensures |b| == |marks| * bits
  {
    if marks == [] then [] else seq(bits, _ => marks[0]) + Spread(marks[1..], bits)
  }

  lemma {:induction false} SpreadNot(marks: seq<bool>, bits: nat)
    requires bits > 0
    ensures Spread(Not(marks), bits) == Not(Spread(marks, bits))
  {
    if marks != [] {
      SpreadNot(marks[1..], bits);
      assert Not(marks)[1..] == Not(marks[1..]);
    }
  }

  lemma {:induction false} SpreadHighest(marks: seq<bool>, bits: nat, lane: nat)
    requires bits > 0 && HighestSet(marks, lane)
    ensures HighestSet(Spread(marks, bits), lane * bits + bits - 1)
  {
    var rest := Spread(marks[1..], bits);
    if lane == 0 {
      SpreadNone(marks[1..], bits);
    } else {
      assert HighestSet(marks[1..], lane - 1) by {
        assert marks[1..][lane - 1] == marks[lane];
      }
      SpreadHighest(marks[1..], bits, lane - 1);
      assert lane * bits == (lane - 1) * bits + bits;
    }
  }

  lemma {:induction false} SpreadNone(marks: seq<bool>, bits: nat)
    requires bits > 0 && forall k :: 0 <= k < |marks| ==> !marks[k]
    ensures forall k :: 0 <= k < |Spread(marks, bits)| ==> !Spread(marks, bits)[k]
  {
    if marks != [] {
      SpreadNone(marks[1..], bits);
    }
  }

  /** `32 - clz` of the complemented comparison mask, divided by the bits of a lane, names the highest set lane. */
  lemma {:induction false} MaskNamesHighestLane(unset: seq<bool>, bits: nat, lane: nat)
    requires bits > 0 && |unset| * bits <= 32
    requires HighestSet(Not(unset), lane)
    ensures var mask := Pow2(|unset| * bits) - 1 - Bits(Spread(unset, bits));
            0 < mask < Pow2(32) && (32 - LeadingZeros(mask, 32)) / bits - 1 == lane
  {
    Complement(Spread(unset, bits));
    SpreadNot(unset, bits);
    SpreadHighest(Not(unset), bits, lane);
    var h := lane * bits + bits - 1;
    HighestBit(Spread(Not(unset), bits), h);
    LeadingZerosOf(Bits(Spread(Not(unset), bits)), h, 32);
    assert h + 1 == (lane + 1) * bits;
    DivExact(lane + 1, bits);
  }

  lemma {:induction false} DivExact(a: nat, b: nat)
    requires b > 0
    ensures a * b / b == a
  {
    var d := a * b / b - a;
    assert d * b == -((a * b) % b) by {
      assert d * b == (a * b / b) * b - a * b;
    }
    assert d >= 1 ==> d * b >= b;
    assert d <= -1 ==> d * b + b <= 0;
  }

  // ----- what a poll picks -----

  ghost predicate SomeSet(s: seq<int>, empty: int) {
    exists k :: 0 <= k < |s| && s[k] != empty
  }

  ghost predicate NoneSet(s: seq<int>, empty: int, lo: nat, hi: nat) {
    hi <= |s| && forall k :: lo <= k < hi ==> s[k] == empty
  }

  /** The scalar scan: the first set cell. */
  ghost predicate FirstSet(s: seq<int>, empty: int, sender: nat) {
    sender < |s| && s[sender] != empty && NoneSet(s, empty, 0, sender)
  }

  /** The block scans: the highest set cell of the first block that has one; the block starts at `block`. */
  ghost predicate HighestOfFirstBlock(s: seq<int>, empty: int, lanes: nat, block: nat, sender: nat) {
    && lanes > 0 && block % lanes == 0 && block <= sender < block + lanes <= |s|
    && s[sender] != empty && NoneSet(s, empty, 0, block) && NoneSet(s, empty, sender + 1, block + lanes)
  }

  /** `scalarPoll`, `exPoll`, `MulticlientRDMATransportServer::poll` */
  method ScalarPoll(cells: array<int>, empty: int) returns (sender: nat, value: int)
    requires SomeSet(cells[..], empty)
    modifies cells
    ensures FirstSet(old(cells[..]), empty, sender)
    ensures value == old(cells[..])[sender] && cells[..] == old(cells[..])[sender := empty]
  {
    for i := 0 to cells.Length
      invariant cells[..] == old(cells[..])
      invariant NoneSet(cells[..], empty, 0, i)
    {
      var writePos := cells[i];
      if writePos != empty {
        cells[i] := empty;
        return i, writePos;
      }
    }
    assert false;
  }

  /** The lanes of one vector load that compare equal to the empty value. */
  function CompareEqual(data: seq<int>, empty: int): (cmp: seq<bool>)
    ensures |cmp| == |data| && forall k :: 0 <= k < |data| ==> cmp[k] == (data[k] == empty)
  {
    seq(|data|, k requires 0 <= k < |data| => data[k] == empty)
  }

  lemma {:induction false} HighestExists(b: seq<bool>) returns (h: nat)
    requires exists k :: 0 <= k < |b| && b[k]
    ensures HighestSet(b, h)
    decreases |b|
  {
    if b[|b| - 1] {
      return |b| - 1;
    }
    h := HighestExists(b[..|b| - 1]);
  }

  /** `compl movemask(cmp)`, a mask of `bits` bits per lane. */
  function SetMask(cmp: seq<bool>, bits: nat): nat
    requires bits > 0
  {
    Complement(Spread(cmp, bits));
    Pow2(|cmp| * bits) - 1 - Bits(Spread(cmp, bits))
  }

  /** The mask is zero exactly if no lane is set. */
  lemma {:induction false} MaskIsNonzero(cmp: seq<bool>, bits: nat)
    requires bits > 0
    ensures SetMask(cmp, bits) == 0 <==> forall k :: 0 <= k < |cmp| ==> cmp[k]
  {
    Complement(Spread(cmp, bits));
    SpreadNot(cmp, bits);
    NoBits(Spread(Not(cmp), bits));
    if forall k :: 0 <= k < |cmp| ==> cmp[k] {
      SpreadNone(Not(cmp), bits);
    } else {
      var k :| 0 <= k < |cmp| && !cmp[k];
      assert Not(cmp)[k];
      var lane := HighestExists(Not(cmp));
      SpreadHighest(Not(cmp), bits, lane);
    }
  }

  lemma {:induction false} SetMaskRange(cmp: seq<bool>, bits: nat)
    requires bits > 0 && |cmp| * bits <= 32 && SetMask(cmp, bits) != 0
    ensures 0 < SetMask(cmp, bits) < Pow2(32)
    ensures exists lane :: HighestSet(Not(cmp), lane) && (32 - LeadingZeros(SetMask(cmp, bits), 32)) / bits - 1 == lane
  {
    MaskIsNonzero(cmp, bits);
    var k :| 0 <= k < |cmp| && !cmp[k];
    assert Not(cmp)[k];
    var lane := HighestExists(Not(cmp));
    MaskNamesHighestLane(cmp, bits, lane);
  }

  /** The lane that the leading-zero arithmetic names is the highest set one. */
  function HighestLane(cmp: seq<bool>, bits: nat): (lane: nat)
    requires bits > 0 && |cmp| * bits <= 32 && SetMask(cmp, bits) != 0
    ensures HighestSet(Not(cmp), lane)
  {
    SetMaskRange(cmp, bits);
    (32 - LeadingZeros(SetMask(cmp, bits), 32)) / bits - 1
  }

  /** `SIMDPoll` (8 lanes, 4 mask bits each), `SSEPoll` (4 lanes, 4 bits), `exPollSIMD` (32 lanes, 1 bit),
      `exPollSSE` and the server's `pollSSE` (16 lanes, 1 bit). */
  method VectorPoll(cells: array<int>, empty: int, lanes: nat, bits: nat)
    returns (sender: nat, value: int, ghost block: nat)
    requires 0 < lanes && 0 < bits && lanes * bits <= 32 && cells.Length % lanes == 0
    requires SomeSet(cells[..], empty)
    modifies cells
    ensures HighestOfFirstBlock(old(cells[..]), empty, lanes, block, sender)
    ensures value == old(cells[..])[sender] && cells[..] == old(cells[..])[sender := empty]
  {
    var i := 0;
    while i < cells.Length
      invariant i <= cells.Length && i % lanes == 0
      invariant cells[..] == old(cells[..])
      invariant NoneSet(cells[..], empty, 0, i)
    {
      BlockInside(i, cells.Length, lanes);
      var cmp := CompareEqual(cells[i..i + lanes], empty);
      MaskIsNonzero(cmp, bits);
      if SetMask(cmp, bits) != 0 {
        sender := i + HighestLane(cmp, bits);
        HighestInBlock(cells[..], empty, i, lanes, cmp, HighestLane(cmp, bits));
        value := cells[sender];
        cells[sender] := empty;
        block := i;
        return;
      }
      EmptyBlock(cells[..], empty, i, lanes, cmp);
      NextBlock(i, lanes);
      i := i + lanes;
    }
    assert false;
  }

  lemma {:induction false} EmptyBlock(s: seq<int>, empty: int, i: nat, lanes: nat, cmp: seq<bool>)
    requires i + lanes <= |s| && NoneSet(s, empty, 0, i) && cmp == CompareEqual(s[i..i + lanes], empty)
    requires forall k :: 0 <= k < |cmp| ==> cmp[k]
    ensures NoneSet(s, empty, 0, i + lanes)
  {
    forall k | i <= k < i + lanes ensures s[k] == empty {
      assert cmp[k - i];
    }
  }

  lemma {:induction false} NextBlock(i: nat, lanes: nat)
    requires lanes > 0 && i % lanes == 0
    ensures (i + lanes) % lanes == 0
  {
    var k := i / lanes;
    assert i + lanes == (k + 1) * lanes;
    DivExact(k + 1, lanes);
  }

  lemma {:induction false} BlockInside(i: nat, length: nat, lanes: nat)
    requires lanes > 0 && i % lanes == 0 && length % lanes == 0 && i < length
    ensures i + lanes <= length
  {
    var a, b := i / lanes, length / lanes;
    assert i == a * lanes && length == b * lanes;
    assert b <= a ==> b * lanes <= a * lanes;
    assert (a + 1) * lanes == i + lanes;
    assert a + 1 <= b ==> (a + 1) * lanes <= b * lanes;
  }

  lemma {:induction false} HighestInBlock(s: seq<int>, empty: int, i: nat, lanes: nat, cmp: seq<bool>, lane: nat)
    requires lanes > 0 && i % lanes == 0 && i + lanes <= |s| && NoneSet(s, empty, 0, i)
    requires cmp == CompareEqual(s[i..i + lanes], empty) && HighestSet(Not(cmp), lane)
    ensures HighestOfFirstBlock(s, empty, lanes, i, i + lane)
  {
    forall k | i + lane + 1 <= k < i + lanes ensures s[k] == empty {
      assert !Not(cmp)[k - i];
    }
  }

  /** `_mm_cmpestri` with negative polarity: the first lane that is not empty, or the number of lanes. */
  function FirstMismatch(data: seq<int>, empty: int): (m: nat)
    ensures m <= |data| && NoneSet(data, empty, 0, m)
    ensures m < |data| ==> data[m] != empty
    decreases |data|
  {
    if data == [] || data[0] != empty then 0 else 1 + FirstMismatch(data[1..], empty)
  }

  /** `exPollPCMP` picks what the scalar scan picks. */
  method StringComparePoll(cells: array<int>, empty: int, lanes: nat) returns (sender: nat, value: int)
    requires 0 < lanes && cells.Length % lanes == 0 && SomeSet(cells[..], empty)
    modifies cells
    ensures FirstSet(old(cells[..]), empty, sender)
    ensures value == old(cells[..])[sender] && cells[..] == old(cells[..])[sender := empty]
  {
    var i := 0;
    while i < cells.Length
      invariant i <= cells.Length && i % lanes == 0
      invariant cells[..] == old(cells[..])
      invariant NoneSet(cells[..], empty, 0, i)
    {
      BlockInside(i, cells.Length, lanes);
      var m := FirstMismatch(cells[i..i + lanes], empty);
      FirstInBlock(cells[..], empty, i, lanes, m);
      if m != lanes {
        sender := m + i;
        value := cells[sender];
        cells[sender] := empty;
        return;
      }
      NextBlock(i, lanes);
      i := i + lanes;
    }
    assert false;
  }

  lemma {:induction false} FirstInBlock(s: seq<int>, empty: int, i: nat, lanes: nat, m: nat)
    requires i + lanes <= |s| && NoneSet(s, empty, 0, i) && m == FirstMismatch(s[i..i + lanes], empty)
    ensures NoneSet(s, empty, 0, i + m)
    ensures m < lanes ==> FirstSet(s, empty, i + m)
  {
    var data := s[i..i + lanes];
    forall k | i <= k < i + m ensures s[k] == empty {
      assert data[k - i] == empty;
    }
  }

  // ----- several polls in a row -----

  /** The set cells. */
  ghost function Rung(s: seq<int>, empty: int): set<nat> {
    set k: nat | k < |s| && s[k] != empty
  }

  /** Each pick is a set cell and is cleared; `end` is what is left. */
  ghost predicate Picks(s: seq<int>, empty: int, picks: seq<nat>, end: seq<int>)
    decreases |picks|
  {
    if picks == [] then end == s
    else picks[0] < |s| && s[picks[0]] != empty && Picks(s[picks[0] := empty], empty, picks[1..], end)
  }

  lemma {:induction false} PicksSnoc(s: seq<int>, empty: int, picks: seq<nat>, mid: seq<int>, pick: nat)
    requires Picks(s, empty, picks, mid) && pick < |mid| && mid[pick] != empty
    ensures Picks(s, empty, picks + [pick], mid[pick := empty])
    decreases |picks|
  {
    if picks != [] {
      PicksSnoc(s[picks[0] := empty], empty, picks[1..], mid, pick);
      assert (picks + [pick])[1..] == picks[1..] + [pick];
    }
  }

  ghost predicate Distinct(picks: seq<nat>) {
    forall i, j :: 0 <= i < j < |picks| ==> picks[i] != picks[j]
  }

  lemma {:induction false} PicksAreDistinct(s: seq<int>, empty: int, picks: seq<nat>, end: seq<int>)
    requires Picks(s, empty, picks, end)
    ensures Distinct(picks)
    ensures forall p :: p in picks ==> p in Rung(s, empty)
    ensures |Rung(s, empty)| == |Rung(end, empty)| + |picks|
    decreases |picks|
  {
    if picks != [] {
      var s1 := s[picks[0] := empty];
      PicksAreDistinct(s1, empty, picks[1..], end);
      assert Rung(s1, empty) == Rung(s, empty) - {picks[0]};
      assert forall j :: 0 < j < |picks| ==> picks[j] == picks[1..][j - 1];
      forall j | 0 < j < |picks| ensures picks[0] != picks[j] {
        assert picks[j] in picks[1..];
      }
      forall p | p in picks ensures p in Rung(s, empty) {
        assert p == picks[0] || p in picks[1..];
      }
    }
  }

  lemma {:induction false} PicksLeave(s: seq<int>, empty: int, picks: seq<nat>, end: seq<int>)
    requires Picks(s, empty, picks, end)
    ensures Rung(end, empty) == Rung(s, empty) - set p | p in picks
    decreases |picks|
  {
    if picks != [] {
      var s1 := s[picks[0] := empty];
      PicksLeave(s1, empty, picks[1..], end);
      assert Rung(s1, empty) == Rung(s, empty) - {picks[0]};
      assert picks == [picks[0]] + picks[1..];
    }
  }

  /** The ways to scan: `scalarPoll` and `exPoll`; `SIMDPoll`, `SSEPoll`, `exPollSIMD`, `exPollSSE`; `exPollPCMP`. */
  datatype Scan = Scalar | Vector(lanes: nat, bits: nat) | StringCompare(lanes: nat)

  /** The array consists of whole blocks of the scan. */
  predicate Suits(scan: Scan, length: nat) {
    match scan
    case Scalar => true
    case Vector(lanes, bits) => 0 < lanes && 0 < bits && lanes * bits <= 32 && length % lanes == 0
    case StringCompare(lanes) => 0 < lanes && length % lanes == 0
  }

  /** One poll by any scan clears one set cell and returns it. */
  method Poll(cells: array<int>, empty: int, scan: Scan) returns (sender: nat, value: int)
    requires Suits(scan, cells.Length) && SomeSet(cells[..], empty)
    modifies cells
    ensures sender < cells.Length && old(cells[..])[sender] == value != empty
    ensures cells[..] == old(cells[..])[sender := empty]
  {
    match scan
    case Scalar =>
      sender, value := ScalarPoll(cells, empty);
    case Vector(lanes, bits) =>
      ghost var block;
      sender, value, block := VectorPoll(cells, empty, lanes, bits);
    case StringCompare(lanes) =>
      sender, value := StringComparePoll(cells, empty, lanes);
  }

  /** While no new bell rings, as many polls as bells are rung return every rung index exactly once, whichever
      scan each of them uses. */
  method PollAll(cells: array<int>, empty: int, scans: seq<Scan>) returns (senders: seq<nat>)
    requires forall i :: 0 <= i < |scans| ==> Suits(scans[i], cells.Length)
    requires |scans| == |Rung(cells[..], empty)|
    modifies cells
    ensures Distinct(senders)
    ensures (set p | p in senders) == old(Rung(cells[..], empty))
    ensures forall k :: 0 <= k < cells.Length ==> cells[k] == empty
  {
    ghost var start := cells[..];
    senders := [];
    for i := 0 to |scans|
      invariant |senders| == i
      invariant Picks(start, empty, senders, cells[..])
    {
      PicksAreDistinct(start, empty, senders, cells[..]);
      SomeLeft(cells[..], empty);
      ghost var mid := cells[..];
      var sender, value := Poll(cells, empty, scans[i]);
      PicksSnoc(start, empty, senders, mid, sender);
      senders := senders + [sender];
    }
    PicksAreDistinct(start, empty, senders, cells[..]);
    PicksLeave(start, empty, senders, cells[..]);
    NothingLeft(cells[..], empty);
  }

  lemma {:induction false} SomeLeft(s: seq<int>, empty: int)
    requires |Rung(s, empty)| > 0
    ensures SomeSet(s, empty)
  {
    var k :| k in Rung(s, empty);
  }

  lemma {:induction false} NothingLeft(s: seq<int>, empty: int)
    requires |Rung(s, empty)| == 0
    ensures forall k :: 0 <= k < |s| ==> s[k] == empty
  {
    forall k | 0 <= k < |s| ensures s[k] == empty {
      assert k !in Rung(s, empty);
    }
  }
}
