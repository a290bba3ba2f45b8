/** Two ways to put bytes into a ring: `wraparound` cuts a range into one or two segments, the doubly mapped buffer
    lets a range run past the end because index i names physical byte i mod size.  Both are the same function
    of the stream position. */
module Wraparound {
  import opened Frames
  import opened Rings
  import opened Counters

  /** One call of the callback: `prev` bytes were handled before, the range is [begin, end). */
  datatype Segment = Segment(prev: nat, begin: nat, end: nat)

  function Segments(total: nat, todo: nat, pos: nat): seq<Segment>
    requires total > 0
  {
    AndBound(pos, total - 1);
    var begin := And(pos, total - 1);
    if total - begin >= todo then
      [Segment(0, begin, begin + todo)]
    else
      [Segment(0, begin, total), Segment(total - begin, 0, todo - (total - begin))]
  }

  /** Byte j of the segment lies in the slot of its stream position. */
  ghost predicate PlacesByte(seg: Segment, total: nat, pos: nat, j: nat)
    requires total > 0
  {
    seg.begin + j == (pos + seg.prev + j) % total
  }

  ghost predicate Places(seg: Segment, total: nat, pos: nat) {
    total > 0 && seg.begin <= seg.end <= total &&
    forall j: nat :: j < seg.end - seg.begin ==> PlacesByte(seg, total, pos, j)
  }

  ghost predicate Disjoint(a: Segment, b: Segment) {
    a.begin == a.end || b.begin == b.end || a.end <= b.begin || b.end <= a.begin
  }

  lemma {:induction false} SegmentPlaces(total: nat, pos: nat, seg: Segment, k: int)
    requires total > 0 && seg.begin <= seg.end <= total
    requires pos + seg.prev == k * total + seg.begin
    ensures Places(seg, total, pos)
  {
    forall j: nat | j < seg.end - seg.begin ensures PlacesByte(seg, total, pos, j) {
      ModUnique(pos + seg.prev + j, k, seg.begin + j, total);
    }
  }

  lemma {:induction false} FirstPlaces(total: nat, pos: nat, seg: Segment)
    requires total > 0 && pos % total == seg.begin <= seg.end <= total && seg.prev == 0
    ensures Places(seg, total, pos)
  {
    SegmentPlaces(total, pos, seg, pos / total);
  }

  lemma {:induction false} SecondPlaces(total: nat, pos: nat, seg: Segment)
    requires total > 0 && seg.begin == 0 && seg.end <= total && seg.prev == total - pos % total
    ensures Places(seg, total, pos)
  {
    var round := pos / total;
    assert (round + 1) * total == round * total + total;
    SegmentPlaces(total, pos, seg, round + 1);
  }

  /** For any range no longer than the ring the segments lie in bounds, follow each other without a gap, cover the
      whole range, do not overlap, and put every byte where its stream position belongs. */
  lemma {:induction false} SegmentsAreExact(total: nat, todo: nat, pos: nat)
    requires PassesSizeCheck(total) && todo <= total
    ensures var s := Segments(total, todo, pos);
            && 1 <= |s| <= 2
            && (forall i :: 0 <= i < |s| ==> Places(s[i], total, pos))
            && s[0].prev == 0
            && (|s| == 2 ==> s[1].prev == s[0].end - s[0].begin && Disjoint(s[0], s[1]))
            && s[|s| - 1].prev + s[|s| - 1].end - s[|s| - 1].begin == todo
  {
    MaskIsMod(pos, total);
    var s := Segments(total, todo, pos);
    FirstPlaces(total, pos, s[0]);
    if |s| == 2 {
      SecondPlaces(total, pos, s[1]);
    }
  }

  /** The cut is harmless only up to the ring size: any longer range overwrites its own start. */
  lemma {:induction false} OverlapIsExact(total: nat, todo: nat, pos: nat)
    requires PassesSizeCheck(total)
    ensures var s := Segments(total, todo, pos);
            (|s| == 2 ==> Disjoint(s[0], s[1])) <==> todo <= total
  {
    MaskIsMod(pos, total);
  }

  // ----- copying in -----

  /** `copy(data + prev, data + prev + (end - begin), buffer + begin)` */
  function Overwrite(buf: seq<byte>, seg: Segment, data: seq<byte>): (r: seq<byte>)
    requires seg.begin <= seg.end <= |buf| && seg.prev + (seg.end - seg.begin) <= |data|
    ensures |r| == |buf|
  {
    buf[..seg.begin] + data[seg.prev..seg.prev + (seg.end - seg.begin)] + buf[seg.end..]
  }

  lemma {:induction false} OverwriteIsPut(buf: seq<byte>, seg: Segment, data: seq<byte>, pos: nat)
    requires Places(seg, |buf|, pos) && seg.prev + (seg.end - seg.begin) <= |data|
    ensures Overwrite(buf, seg, data)
         == PutAll(buf, pos + seg.prev, data[seg.prev..seg.prev + (seg.end - seg.begin)])
    decreases seg.end - seg.begin
  {
    var len := seg.end - seg.begin;
    var piece := data[seg.prev..seg.prev + len];
    if len == 0 {
      assert Overwrite(buf, seg, data) == buf;
    } else {
      var rest := Segment(seg.prev + 1, seg.begin + 1, seg.end);
      var first := Put(buf, pos + seg.prev, piece[0]);
      assert PlacesByte(seg, |buf|, pos, 0);
      assert first == buf[seg.begin := piece[0]];
      RestPlaces(seg, |buf|, pos);
      OverwriteIsPut(first, rest, data, pos);
      assert data[rest.prev..rest.prev + (len - 1)] == piece[1..];
      OverwriteStep(buf, seg, data);
    }
  }

  lemma {:induction false} RestPlaces(seg: Segment, total: nat, pos: nat)
    requires Places(seg, total, pos) && seg.begin < seg.end
    ensures Places(Segment(seg.prev + 1, seg.begin + 1, seg.end), total, pos)
  {
    var rest := Segment(seg.prev + 1, seg.begin + 1, seg.end);
    forall j: nat | j < rest.end - rest.begin ensures PlacesByte(rest, total, pos, j) {
      assert PlacesByte(seg, total, pos, j + 1);
    }
  }

  lemma {:induction false} OverwriteStep(buf: seq<byte>, seg: Segment, data: seq<byte>)
    requires seg.begin < seg.end <= |buf| && seg.prev + (seg.end - seg.begin) <= |data|
    ensures Overwrite(buf[seg.begin := data[seg.prev]], Segment(seg.prev + 1, seg.begin + 1, seg.end), data)
         == Overwrite(buf, seg, data)
  {
  }

  /** What the callbacks of one `wraparound` leave in the buffer. */
  function CopyIn(buf: seq<byte>, pos: nat, data: seq<byte>): (r: seq<byte>)
    requires PassesSizeCheck(|buf|) && |data| <= |buf|
    ensures |r| == |buf|
  {
    SegmentsAreExact(|buf|, |data|, pos);
    var s := Segments(|buf|, |data|, pos);
    if |s| == 1 then Overwrite(buf, s[0], data) else Overwrite(Overwrite(buf, s[0], data), s[1], data)
  }

  lemma {:induction false} TwoOverwrites(buf: seq<byte>, a: Segment, b: Segment, data: seq<byte>, pos: nat)
    requires Places(a, |buf|, pos) && Places(b, |buf|, pos)
    requires a.prev == 0 && b.prev == a.end - a.begin && b.prev + (b.end - b.begin) == |data|
    ensures Overwrite(Overwrite(buf, a, data), b, data) == PutAll(buf, pos, data)
  {
    OverwriteIsPut(buf, a, data, pos);
    OverwriteIsPut(Overwrite(buf, a, data), b, data, pos);
    var len := b.prev;
    assert data == data[0..len] + data[len..|data|];
    PutAllConcat(buf, pos, data[0..len], data[len..|data|]);
  }

  /** The two-segment copy refines "byte j goes to position pos + j". */
  lemma {:induction false} CopyInIsPutAll(buf: seq<byte>, pos: nat, data: seq<byte>)
    requires PassesSizeCheck(|buf|) && |data| <= |buf|
    ensures CopyIn(buf, pos, data) == PutAll(buf, pos, data)
  {
    SegmentsAreExact(|buf|, |data|, pos);
    var s := Segments(|buf|, |data|, pos);
    if |s| == 1 {
      OverwriteIsPut(buf, s[0], data, pos);
      assert data[0..|data|] == data;
    } else {
      TwoOverwrites(buf, s[0], s[1], data, pos);
    }
  }

  // ----- reading out -----

  /** The bytes at positions pos, pos + 1, ... */
  function Slice(buf: seq<byte>, pos: nat, len: nat): (r: seq<byte>)
    requires |buf| > 0
    ensures |r| == len
  {
    seq<byte>(len, j requires 0 <= j < len => At(buf, pos + j))
  }

  function CopyOut(buf: seq<byte>, pos: nat, len: nat): (r: seq<byte>)
    requires PassesSizeCheck(|buf|) && len <= |buf|
    ensures |r| == len
  {
    SegmentsAreExact(|buf|, len, pos);
    var s := Segments(|buf|, len, pos);
    if |s| == 1 then buf[s[0].begin..s[0].end] else buf[s[0].begin..s[0].end] + buf[s[1].begin..s[1].end]
  }

  lemma {:induction false} SegmentSlice(buf: seq<byte>, pos: nat, seg: Segment)
    requires Places(seg, |buf|, pos)
    ensures buf[seg.begin..seg.end] == Slice(buf, pos + seg.prev, seg.end - seg.begin)
  {
    var len := seg.end - seg.begin;
    forall j: nat | j < len ensures buf[seg.begin..seg.end][j] == Slice(buf, pos + seg.prev, len)[j] {
      assert PlacesByte(seg, |buf|, pos, j);
      assert At(buf, pos + seg.prev + j) == buf[seg.begin + j];
    }
  }

  lemma {:induction false} SliceConcat(buf: seq<byte>, pos: nat, a: nat, b: nat)
    requires |buf| > 0
    ensures Slice(buf, pos, a) + Slice(buf, pos + a, b) == Slice(buf, pos, a + b)
  {
  }

  lemma {:induction false} CopyOutIsSlice(buf: seq<byte>, pos: nat, len: nat)
    requires PassesSizeCheck(|buf|) && len <= |buf|
    ensures CopyOut(buf, pos, len) == Slice(buf, pos, len)
  {
    SegmentsAreExact(|buf|, len, pos);
    var s := Segments(|buf|, len, pos);
    if |s| == 1 {
      SegmentSlice(buf, pos, s[0]);
    } else {
      TwoSlices(buf, pos, s[0], s[1], len);
    }
  }

  lemma {:induction false} TwoSlices(buf: seq<byte>, pos: nat, a: Segment, b: Segment, len: nat)
    requires Places(a, |buf|, pos) && Places(b, |buf|, pos)
    requires a.prev == 0 && b.prev == a.end - a.begin && b.prev + (b.end - b.begin) == len
    ensures buf[a.begin..a.end] + buf[b.begin..b.end] == Slice(buf, pos, len)
  {
    SegmentSlice(buf, pos, a);
    SegmentSlice(buf, pos, b);
    SliceConcat(buf, pos, b.prev, len - b.prev);
  }

  /** Reading a range back gives what was put there. */
  lemma {:induction false} ReadBack(buf: seq<byte>, pos: nat, data: seq<byte>)
    requires |data| <= |buf| && |buf| > 0
    ensures Slice(PutAll(buf, pos, data), pos, |data|) == data
  {
    PutAllAt(buf, pos, pos, data);
    forall j: nat | j < |data| ensures Slice(PutAll(buf, pos, data), pos, |data|)[j] == data[j] {
      assert At(PutAll(buf, pos, data), pos + j) == data[j];
    }
  }

  // ----- the doubled mapping -----

  /** A plain copy to index `at` of the doubly mapped buffer. */
  function DoubledCopy(buf: seq<byte>, at: nat, data: seq<byte>): (r: seq<byte>)
    requires at < |buf| && |data| <= |buf|
    ensures |r| == |buf|
  {
    var virt := buf + buf;
    var written := virt[..at] + data + virt[at + |data|..];
    // both halves are views of the same bytes: a byte is new if either view of it was written
    seq<byte>(|buf|, i requires 0 <= i < |buf| => if at <= i < at + |data| then written[i] else written[i + |buf|])
  }

  lemma {:induction false} ShiftedSlot(p: nat, j: nat, n: nat)
    requires n > 0
    ensures (p % n + j) % n == (p + j) % n
  {
    var r := p % n + j;
    assert (p / n + r / n) * n == p / n * n + r / n * n;
    ModUnique(p + j, p / n + r / n, r % n, n);
  }

  lemma {:induction false} DoubledByte(buf: seq<byte>, pos: nat, data: seq<byte>, j: nat)
    requires |buf| > 0 && |data| <= |buf| && j < |buf|
    ensures At(DoubledCopy(buf, pos % |buf|, data), pos + j) == if j < |data| then data[j] else At(buf, pos + j)
  {
    var n, at := |buf|, pos % |buf|;
    ShiftedSlot(pos, j, n);
    if at + j < n {
      ModUnique(at + j, 0, at + j, n);
    } else {
      ModUnique(at + j, 1, at + j - n, n);
    }
  }

  lemma {:induction false} SameRing(a: seq<byte>, b: seq<byte>, pos: nat)
    requires |a| == |b| > 0
    requires forall q: nat :: pos <= q < pos + |a| ==> At(a, q) == At(b, q)
    ensures a == b
  {
    forall i: nat | i < |a| ensures a[i] == b[i] {
      var n, at := |a|, pos % |a|;
      var j := if i >= at then i - at else i + n - at;
      ShiftedSlot(pos, j, n);
      ModUnique(at + j, if i >= at then 0 else 1, i, n);
      assert At(a, pos + j) == At(b, pos + j);
    }
  }

  lemma {:induction false} DoubledIsPutAll(buf: seq<byte>, pos: nat, data: seq<byte>)
    requires |data| <= |buf| && |buf| > 0
    ensures DoubledCopy(buf, pos % |buf|, data) == PutAll(buf, pos, data)
  {
    PutAllAt(buf, pos, pos, data);
    var a, b := DoubledCopy(buf, pos % |buf|, data), PutAll(buf, pos, data);
    forall q: nat | pos <= q < pos + |buf| ensures At(a, q) == At(b, q) {
      DoubledByte(buf, pos, data, q - pos);
    }
    SameRing(a, b, pos);
  }

  /** A straight copy into the doubled mapping leaves the same physical bytes as the two-segment copy. */
  lemma {:induction false} DoubledIsTwoSegment(buf: seq<byte>, pos: nat, data: seq<byte>)
    requires PassesSizeCheck(|buf|) && |data| <= |buf|
    ensures And(pos, |buf| - 1) < |buf| && DoubledCopy(buf, And(pos, |buf| - 1), data) == CopyIn(buf, pos, data)
  {
    MaskIsMod(pos, |buf|);
    CopyInIsPutAll(buf, pos, data);
    DoubledIsPutAll(buf, pos, data);
  }

  /** A history of writes, each no longer than the ring, one after the other. */
  function TwoSegmentHistory(buf: seq<byte>, pos: nat, writes: seq<seq<byte>>): seq<byte>
    requires PassesSizeCheck(|buf|) && forall i :: 0 <= i < |writes| ==> |writes[i]| <= |buf|
    decreases |writes|
  {
    if writes == [] then buf else TwoSegmentHistory(CopyIn(buf, pos, writes[0]), pos + |writes[0]|, writes[1..])
  }

  function DoubledHistory(buf: seq<byte>, pos: nat, writes: seq<seq<byte>>): seq<byte>
    requires PassesSizeCheck(|buf|) && forall i :: 0 <= i < |writes| ==> |writes[i]| <= |buf|
    decreases |writes|
  {
    if writes == [] then buf
    else
      AndBound(pos, |buf| - 1);
      DoubledHistory(DoubledCopy(buf, And(pos, |buf| - 1), writes[0]), pos + |writes[0]|, writes[1..])
  }

  /** Both ring implementations hold the same physical bytes after the same history. */
  lemma {:induction false} SameHistorySameRing(buf: seq<byte>, pos: nat, writes: seq<seq<byte>>)
    requires PassesSizeCheck(|buf|) && forall i :: 0 <= i < |writes| ==> |writes[i]| <= |buf|
    ensures TwoSegmentHistory(buf, pos, writes) == DoubledHistory(buf, pos, writes)
    decreases |writes|
  {
    if writes != [] {
      DoubledIsTwoSegment(buf, pos, writes[0]);
      SameHistorySameRing(CopyIn(buf, pos, writes[0]), pos + |writes[0]|, writes[1..]);
    }
  }
}
