/** The chunked `write` and `read` of the RDMA transport over a ring that delivers whole messages in order. */
module Transport {
  import opened Frames
  import opened Chunking
  import opened MessageBuffers
  import VirtualChannel
  import VirtualProgress
  import Inbox

  /** The messages that one `write` sends. */
  function Split(data: seq<byte>, cap: nat): seq<Message>
    requires cap > 0
    decreases |data|
  {
    if data == [] then [] else var c := Min(|data|, cap); [data[..c]] + Split(data[c..], cap)
  }

  function Lengths(ms: seq<Message>): (r: seq<nat>)
    ensures |r| == |ms|
  {
    seq(|ms|, i requires 0 <= i < |ms| => |ms[i]|)
  }

  /** Both sides cut alike: the messages have the sizes into which a read of that length is cut. */
  lemma {:induction false} SplitLengths(data: seq<byte>, cap: nat)
    requires cap > 0
    ensures Lengths(Split(data, cap)) == Chunks(|data|, cap)
    decreases |data|
  {
    if data != [] {
      var c := Min(|data|, cap);
      SplitLengths(data[c..], cap);
      assert Lengths(Split(data, cap)) == [c] + Lengths(Split(data[c..], cap));
    }
  }

  /** Piece i is the i-th stretch of cap bytes, cut at the end of the data. */
  ghost predicate IsPiece(m: Message, data: seq<byte>, cap: nat, i: nat) {
    var lo, hi := i * cap, (i + 1) * cap;
    lo < |data| && m == data[lo..if hi <= |data| then hi else |data|]
  }

  /** ms are the pieces of data: as few as possible, all but the last of them full. */
  ghost predicate Pieces(ms: seq<Message>, data: seq<byte>, cap: nat) {
    && cap > 0 && |ms| == (|data| + cap - 1) / cap
    && forall i :: 0 <= i < |ms| ==> IsPiece(ms[i], data, cap, i)
  }

  lemma {:induction false} LaterPiece(m: Message, data: seq<byte>, cap: nat, i: nat)
    requires 0 < cap <= |data| && IsPiece(m, data[cap..], cap, i)
    ensures IsPiece(m, data, cap, i + 1)
  {
    assert (i + 1) * cap == i * cap + cap && (i + 2) * cap == i * cap + 2 * cap;
  }

  /** A write sends exactly the full stretches of cap bytes, and the rest if there is one. */
  lemma {:induction false} SplitIsPieces(data: seq<byte>, cap: nat)
    requires cap > 0
    ensures Pieces(Split(data, cap), data, cap)
    decreases |data|
  {
    SplitLengths(data, cap);
    ChunksAreFull(|data|, cap);
    var ms := Split(data, cap);
    if data != [] {
      var c := Min(|data|, cap);
      SplitIsPieces(data[c..], cap);
      forall i | 0 <= i < |ms| ensures IsPiece(ms[i], data, cap, i) {
        if i > 0 {
          FullUnlessLast(|data|, cap);
          LaterPiece(ms[i], data, cap, i - 1);
        }
      }
    }
  }

  lemma {:induction false} FullUnlessLast(size: nat, cap: nat)
    requires 0 < cap && size > 0
    ensures |Chunks(size, cap)| > 1 ==> Min(size, cap) == cap <= size
  {
    var c := Min(size, cap);
    assert Chunks(size, cap) == [c] + Chunks(size - c, cap);
    assert size == c ==> Chunks(size - c, cap) == [];
  }

  lemma {:induction false} SplitFits(data: seq<byte>, n: nat)
    requires 16 < n < SIZE_LIMIT
    ensures Inbox.MessagesFit(Split(data, n - 16), n)
    decreases |data|
  {
    if data != [] {
      SplitFits(data[Min(|data|, n - 16)..], n);
    }
  }

  // ----- reading -----

  /** A read of `size` bytes gets through: there are enough messages and none is longer than its chunk. */
  predicate Readable(queue: seq<Message>, size: nat, cap: nat)
    requires cap > 0
    decreases size
  {
    size == 0 ||
    var c := Min(size, cap);
    queue != [] && |queue[0]| <= c && Readable(queue[1..], size - c, cap)
  }

  /** The first message that does not fit its chunk makes the read throw; without one it waits. */
  predicate Overlong(queue: seq<Message>, size: nat, cap: nat)
    requires cap > 0
    decreases size
  {
    size != 0 && queue != [] &&
    var c := Min(size, cap);
    |queue[0]| > c || Overlong(queue[1..], size - c, cap)
  }

  function Deposited(buf: seq<byte>, at: nat, m: Message): (r: seq<byte>)
    requires at + |m| <= |buf|
    ensures |r| == |buf|
  {
    buf[..at] + m + buf[at + |m|..]
  }

  /** What a read leaves in the caller's buffer.  It advances by whole chunks, whatever was received. */
  function Deposit(buf: seq<byte>, at: nat, queue: seq<Message>, size: nat, cap: nat): (r: seq<byte>)
    requires cap > 0 && Readable(queue, size, cap) && at + size <= |buf|
    ensures |r| == |buf|
    decreases size
  {
    if size == 0 then buf
    else
      var c := Min(size, cap);
      Deposit(Deposited(buf, at, queue[0]), at + c, queue[1..], size - c, cap)
  }

  /** How many messages a read consumes. */
  function Consumed(size: nat, cap: nat): nat
    requires cap > 0
  {
    |Chunks(size, cap)|
  }

  lemma {:induction false} ReadableLength(queue: seq<Message>, size: nat, cap: nat)
    requires cap > 0 && Readable(queue, size, cap)
    ensures Consumed(size, cap) <= |queue|
    decreases size
  {
    if size > 0 {
      ReadableLength(queue[1..], size - Min(size, cap), cap);
    }
  }

  /** What one write sent, a read of the same size puts back together, wherever the buffer starts. */
  lemma {:induction false} ReadUndoesWrite(data: seq<byte>, rest: seq<Message>, cap: nat, buf: seq<byte>, at: nat)
    requires cap > 0 && at + |data| <= |buf|
    ensures Readable(Split(data, cap) + rest, |data|, cap)
    ensures Deposit(buf, at, Split(data, cap) + rest, |data|, cap) == Deposited(buf, at, data)
    ensures Consumed(|data|, cap) == |Split(data, cap)|
    decreases |data|
  {
    SplitLengths(data, cap);
    if data == [] {
      assert Split(data, cap) + rest == rest;
    } else {
      var c := Min(|data|, cap);
      var q := Split(data, cap) + rest;
      assert q[0] == data[..c] && q[1..] == Split(data[c..], cap) + rest;
      DepositedTwice(buf, at, data, c);
      ReadUndoesWrite(data[c..], rest, cap, Deposited(buf, at, data[..c]), at + c);
    }
  }

  lemma {:induction false} DepositedTwice(buf: seq<byte>, at: nat, data: seq<byte>, c: nat)
    requires c <= |data| && at + |data| <= |buf|
    ensures Deposited(Deposited(buf, at, data[..c]), at + c, data[c..]) == Deposited(buf, at, data)
  {
  }

  /** Message i is copied to offset i * cap, however long the messages before it were: `read` advances by what it asked
      for. */
  lemma {:induction false} MessageLandsAtItsChunk(buf: seq<byte>, at: nat, queue: seq<Message>, size: nat, cap: nat, i: nat, k: nat)
    requires cap > 0 && Readable(queue, size, cap) && at + size <= |buf| && i < Consumed(size, cap)
    requires i < |queue| && k < |queue[i]|
    ensures at + i * cap + k < at + size
    ensures Deposit(buf, at, queue, size, cap)[at + i * cap + k] == queue[i][k]
    decreases size
  {
    var c := Min(size, cap);
    var next := Deposited(buf, at, queue[0]);
    if i == 0 {
      DepositFrame(next, at + c, queue[1..], size - c, cap, at + k);
    } else {
      assert i * cap == (i - 1) * cap + cap;
      MessageLandsAtItsChunk(next, at + c, queue[1..], size - c, cap, i - 1, k);
    }
  }

  // ----- when the caller's buffer is really filled -----

  /** Every message has exactly the size of its chunk. */
  predicate Exact(queue: seq<Message>, size: nat, cap: nat)
    requires cap > 0
    decreases size
  {
    size == 0 ||
    var c := Min(size, cap);
    queue != [] && |queue[0]| == c && Exact(queue[1..], size - c, cap)
  }

  lemma {:induction false} DepositFrame(buf: seq<byte>, at: nat, queue: seq<Message>, size: nat, cap: nat, k: nat)
    requires cap > 0 && Readable(queue, size, cap) && at + size <= |buf| && k < at
    ensures Deposit(buf, at, queue, size, cap)[k] == buf[k]
    decreases size
  {
    if size > 0 {
      var c := Min(size, cap);
      DepositFrame(Deposited(buf, at, queue[0]), at + c, queue[1..], size - c, cap, k);
    }
  }

  /** The read fills the buffer: what it held before does not show in the result. */
  ghost predicate Fills(queue: seq<Message>, size: nat, cap: nat, at: nat)
    requires cap > 0 && Readable(queue, size, cap)
  {
    forall a: seq<byte>, b: seq<byte>, k: nat :: |a| == |b| == at + size && at <= k < at + size ==>
      Deposit(a, at, queue, size, cap)[k] == Deposit(b, at, queue, size, cap)[k]
  }

  lemma {:induction false} ExactFillsAt(a: seq<byte>, b: seq<byte>, at: nat, queue: seq<Message>, size: nat, cap: nat, k: nat)
    requires cap > 0 && Readable(queue, size, cap) && Exact(queue, size, cap)
    requires |a| == |b| == at + size && at <= k < at + size
    ensures Deposit(a, at, queue, size, cap)[k] == Deposit(b, at, queue, size, cap)[k]
    decreases size
  {
    var c := Min(size, cap);
    var a', b' := Deposited(a, at, queue[0]), Deposited(b, at, queue[0]);
    if k < at + c {
      DepositFrame(a', at + c, queue[1..], size - c, cap, k);
      DepositFrame(b', at + c, queue[1..], size - c, cap, k);
    } else {
      ExactFillsAt(a', b', at + c, queue[1..], size - c, cap, k);
    }
  }

  /** Byte k of the buffer is written by one of the messages. */
  predicate Touched(at: nat, queue: seq<Message>, size: nat, cap: nat, k: nat)
    requires cap > 0 && Readable(queue, size, cap)
    decreases size
  {
    size > 0 &&
    var c := Min(size, cap);
    at <= k < at + |queue[0]| || Touched(at + c, queue[1..], size - c, cap, k)
  }

  lemma {:induction false} Untouched(buf: seq<byte>, at: nat, queue: seq<Message>, size: nat, cap: nat, k: nat)
    requires cap > 0 && Readable(queue, size, cap) && at + size <= |buf| && k < |buf|
    requires !Touched(at, queue, size, cap, k)
    ensures Deposit(buf, at, queue, size, cap)[k] == buf[k]
    decreases size
  {
    if size > 0 {
      var c := Min(size, cap);
      Untouched(Deposited(buf, at, queue[0]), at + c, queue[1..], size - c, cap, k);
    }
  }

  lemma {:induction false} NotBehind(at: nat, queue: seq<Message>, size: nat, cap: nat, k: nat)
    requires cap > 0 && Readable(queue, size, cap) && k < at
    ensures !Touched(at, queue, size, cap, k)
    decreases size
  {
    if size > 0 {
      NotBehind(at + Min(size, cap), queue[1..], size - Min(size, cap), cap, k);
    }
  }

  /** The first message that is shorter than its chunk leaves a gap. */
  lemma {:induction false} Gap(at: nat, queue: seq<Message>, size: nat, cap: nat) returns (k: nat)
    requires cap > 0 && Readable(queue, size, cap) && !Exact(queue, size, cap)
    ensures at <= k < at + size && !Touched(at, queue, size, cap, k)
    decreases size
  {
    var c := Min(size, cap);
    if |queue[0]| < c {
      k := at + |queue[0]|;
      NotBehind(at + c, queue[1..], size - c, cap, k);
    } else {
      k := Gap(at + c, queue[1..], size - c, cap);
    }
  }

  lemma {:induction false} GapShows(queue: seq<Message>, size: nat, cap: nat, at: nat)
    requires cap > 0 && Readable(queue, size, cap) && !Exact(queue, size, cap)
    ensures !Fills(queue, size, cap, at)
  {
    var k := Gap(at, queue, size, cap);
    var a, b := seq<byte>(at + size, _ => 0), seq<byte>(at + size, _ => 1);
    Untouched(a, at, queue, size, cap, k);
    Untouched(b, at, queue, size, cap, k);
  }

  /** `read` ignores the received sizes, so it fills the buffer if and only if the writer cut exactly alike. */
  lemma {:induction false} FillsIsExact(queue: seq<Message>, size: nat, cap: nat, at: nat)
    requires cap > 0 && Readable(queue, size, cap)
    ensures Fills(queue, size, cap, at) <==> Exact(queue, size, cap)
  {
    if !Exact(queue, size, cap) {
      GapShows(queue, size, cap, at);
    } else {
      forall a: seq<byte>, b: seq<byte>, k: nat | |a| == |b| == at + size && at <= k < at + size
        ensures Deposit(a, at, queue, size, cap)[k] == Deposit(b, at, queue, size, cap)[k]
      {
        ExactFillsAt(a, b, at, queue, size, cap, k);
      }
    }
  }

  // ----- the loops -----

  datatype Outcome = Done | Throws | Waits

  /** The ring buffer as the transport sees it: whole messages, in order (see VirtualChannel). */
  class Ring {
    const size: nat
    var queue: seq<Message>

    constructor (n: nat)
      ensures size == n && queue == []
    {
      size := n;
      queue := [];
    }

    method Send(m: Message) returns (r: Outcome)
      modifies this
      ensures r == if FrameSize(m) <= size then Done else Throws
      ensures queue == if r.Done? then old(queue) + [m] else old(queue)
    {
      if FrameSize(m) > size {
        return Throws;
      }
      queue := queue + [m];
      r := Done;
    }

    /** Copies the next message to buffer[at..]; both size checks throw and consume nothing. */
    method Receive(buffer: array<byte>, at: nat, maxSize: nat) returns (r: Outcome)
      requires at + maxSize <= buffer.Length
      modifies this, buffer
      ensures r == if 16 + maxSize > size then Throws else if old(queue) == [] then Waits
                   else if |old(queue)[0]| > maxSize then Throws else Done
      ensures r.Done? ==> queue == old(queue)[1..] && buffer[..] == Deposited(old(buffer[..]), at, old(queue)[0])
      ensures !r.Done? ==> queue == old(queue) && buffer[..] == old(buffer[..])
    {
      if 16 + maxSize > size {
        return Throws;
      }
      if queue == [] {
        return Waits;
      }
      var m := queue[0];
      if |m| > maxSize {
        return Throws;
      }
      CopyArray(buffer, at, m);
      queue := queue[1..];
      r := Done;
    }
  }

  lemma {:induction false} SplitStep(data: seq<byte>, i: nat, cap: nat)
    requires cap > 0 && i < |data|
    ensures var c := Min(|data| - i, cap); Split(data[i..], cap) == [data[i..i + c]] + Split(data[i + c..], cap)
  {
    var c := Min(|data| - i, cap);
    assert data[i..][..c] == data[i..i + c] && data[i..][c..] == data[i + c..];
  }

  /** `write_impl`: never throws, and sends the pieces of the data. */
  method Write(ring: Ring, data: seq<byte>) returns (r: Outcome)
    requires ring.size > 16
    modifies ring
    ensures r.Done? && ring.queue == old(ring.queue) + Split(data, ring.size - 16)
    ensures Pieces(ring.queue[|old(ring.queue)|..], data, ring.size - 16)
  {
    var i, cap := 0, ring.size - 16;
    assert data[0..] == data;
    ghost var done := [];
    while i < |data|
      invariant i <= |data|
      invariant ring.queue == old(ring.queue) + done && done + Split(data[i..], cap) == Split(data, cap)
    {
      var chunk := Min(|data| - i, cap);
      var piece := data[i..i + chunk];
      SplitStep(data, i, cap);
      Associative(done, [piece], Split(data[i + chunk..], cap));
      Associative(old(ring.queue), done, [piece]);
      done := done + [piece];
      r := ring.Send(piece);
      if !r.Done? {
        return;
      }
      i := i + chunk;
    }
    r := Done;
    AppendedPieces(old(ring.queue), data, cap);
  }

  lemma {:induction false} AppendedPieces(queue: seq<Message>, data: seq<byte>, cap: nat)
    requires cap > 0
    ensures Pieces((queue + Split(data, cap))[|queue|..], data, cap)
  {
    SplitIsPieces(data, cap);
    assert (queue + Split(data, cap))[|queue|..] == Split(data, cap);
  }

  /** `read_impl`: ends exactly if the messages are there and none is longer than its chunk, throws exactly if it
      reaches one that is, and leaves in the buffer what `Deposit` says. */
  method Read(ring: Ring, buffer: array<byte>, size: nat) returns (r: Outcome)
    requires ring.size > 16 && size <= buffer.Length
    modifies ring, buffer
    ensures r.Done? <==> Readable(old(ring.queue), size, ring.size - 16)
    ensures r.Throws? <==> Overlong(old(ring.queue), size, ring.size - 16)
    ensures r.Done? ==> buffer[..] == Deposit(old(buffer[..]), 0, old(ring.queue), size, ring.size - 16)
    ensures r.Done? ==>
              Consumed(size, ring.size - 16) <= |old(ring.queue)| && ring.queue == old(ring.queue)[Consumed(size, ring.size - 16)..]
  {
    var i, cap := 0, ring.size - 16;
    ghost var used := 0;
    ghost var all := ring.queue;
    while i < size
      invariant i <= size && used <= |all| && ring.queue == all[used..]
      invariant Readable(ring.queue, size - i, cap) == Readable(all, size, cap)
      invariant Overlong(ring.queue, size - i, cap) == Overlong(all, size, cap)
      invariant used + Consumed(size - i, cap) == Consumed(size, cap)
      invariant Readable(all, size, cap) ==>
                  Deposit(buffer[..], i, ring.queue, size - i, cap) == Deposit(old(buffer[..]), 0, all, size, cap)
    {
      var chunk := Min(size - i, cap);
      r := ring.Receive(buffer, i, chunk);
      if !r.Done? {
        return;
      }
      i, used := i + chunk, used + 1;
    }
    r := Done;
  }

  // ----- whole conversations -----

  function AllSplit(datas: seq<seq<byte>>, cap: nat): seq<Message>
    requires cap > 0
  {
    if datas == [] then [] else Split(datas[0], cap) + AllSplit(datas[1..], cap)
  }

  function Sizes(datas: seq<seq<byte>>): seq<nat> {
    Lengths(datas)
  }

  /** Reads of the given sizes, each into a fresh buffer, until one of them would not get through. */
  function ReadAll(queue: seq<Message>, sizes: seq<nat>, cap: nat): seq<seq<byte>>
    requires cap > 0
    decreases |sizes|
  {
    if sizes == [] || !Readable(queue, sizes[0], cap) then []
    else
      ReadableLength(queue, sizes[0], cap);
      [Deposit(seq<byte>(sizes[0], _ => 0), 0, queue, sizes[0], cap)] +
      ReadAll(queue[Consumed(sizes[0], cap)..], sizes[1..], cap)
  }

  /** Any sequence of writes, read back with the same sizes, comes out byte for byte, whatever is sent after it. */
  lemma {:induction false} ReadsUndoWrites(datas: seq<seq<byte>>, rest: seq<Message>, cap: nat)
    requires cap > 0
    ensures ReadAll(AllSplit(datas, cap) + rest, Sizes(datas), cap) == datas
    decreases |datas|
  {
    if datas != [] {
      var d, later := datas[0], AllSplit(datas[1..], cap) + rest;
      assert AllSplit(datas, cap) + rest == Split(d, cap) + later;
      assert Sizes(datas) == [|d|] + Sizes(datas[1..]);
      FirstRead(d, later, Sizes(datas[1..]), cap);
      ReadsUndoWrites(datas[1..], rest, cap);
    }
  }

  lemma {:induction false} FirstRead(d: seq<byte>, later: seq<Message>, sizes: seq<nat>, cap: nat)
    requires cap > 0
    ensures ReadAll(Split(d, cap) + later, [|d|] + sizes, cap) == [d] + ReadAll(later, sizes, cap)
  {
    var q, blank := Split(d, cap) + later, seq<byte>(|d|, _ => 0);
    ReadUndoesWrite(d, later, cap, blank, 0);
    assert Deposited(blank, 0, d) == d;
    assert q[Consumed(|d|, cap)..] == later;
    assert ([|d|] + sizes)[1..] == sizes;
  }

  lemma {:induction false} AllSplitAt(datas: seq<seq<byte>>, k: nat, cap: nat)
    requires cap > 0 && k <= |datas|
    ensures AllSplit(datas, cap) == AllSplit(datas[..k], cap) + AllSplit(datas[k..], cap)
    decreases k
  {
    if k > 0 {
      AllSplitAt(datas[1..], k - 1, cap);
      assert datas[..k][1..] == datas[1..][..k - 1];
      assert datas[1..][k - 1..] == datas[k..];
    } else {
      assert datas[..0] == [] && datas[0..] == datas;
    }
  }

  /** The transport over the ring protocol: in every interleaving of sender, card and receiver, as soon as the
      messages of the first k writes are received, reads of the same sizes reproduce these k writes. */
  lemma {:induction false} EndToEnd(n: nat, paranoid: bool, anyOrder: bool, steps: seq<VirtualChannel.Step>,
                                    datas: seq<seq<byte>>, k: nat)
    requires n > 16 && (paranoid || !anyOrder) && k <= |datas|
    requires VirtualChannel.Legal(VirtualChannel.Init(n, paranoid, anyOrder), steps)
    requires VirtualChannel.Handed(steps) <= AllSplit(datas, n - 16) && Inbox.AllUnambiguous(VirtualChannel.Handed(steps))
    requires var s := VirtualChannel.Run(VirtualChannel.Init(n, paranoid, anyOrder), steps);
             |AllSplit(datas[..k], n - 16)| <= |s.receiver.received|
    ensures var s := VirtualChannel.Run(VirtualChannel.Init(n, paranoid, anyOrder), steps);
            ReadAll(s.receiver.received, Sizes(datas[..k]), n - 16) == datas[..k]
  {
    var s := VirtualChannel.Run(VirtualChannel.Init(n, paranoid, anyOrder), steps);
    VirtualChannel.ReceivedIsPrefixOfSent(n, paranoid, anyOrder, steps);
    AllSplitAt(datas, k, n - 16);
    var first := AllSplit(datas[..k], n - 16);
    var rest := s.receiver.received[|first|..];
    assert s.receiver.received == first + rest;
    ReadsUndoWrites(datas[..k], rest, n - 16);
  }

  /** Once the messages of a sequence of writes are handed over, every run can be continued until they are all received,
      and then reads of the same sizes reproduce the writes. */
  lemma {:induction false} EveryWriteCanBeRead(n: nat, paranoid: bool, anyOrder: bool, steps: seq<VirtualChannel.Step>,
                                               datas: seq<seq<byte>>)
    requires n > 16 && (paranoid || !anyOrder)
    requires VirtualChannel.Legal(VirtualChannel.Init(n, paranoid, anyOrder), steps)
    requires VirtualChannel.Handed(steps) == AllSplit(datas, n - 16) && Inbox.AllUnambiguous(VirtualChannel.Handed(steps))
    ensures exists more :: ReadsBack(n, VirtualChannel.Init(n, paranoid, anyOrder), steps + more, datas)
  {
    var s0 := VirtualChannel.Init(n, paranoid, anyOrder);
    VirtualProgress.NoRunIsStuck(n, paranoid, anyOrder, steps);
    var more :| VirtualProgress.Delivers(s0, steps, more);
    assert AllSplit(datas, n - 16) + [] == AllSplit(datas, n - 16);
    ReadsUndoWrites(datas, [], n - 16);
    assert ReadsBack(n, s0, steps + more, datas);
  }

  /** In the run exactly the pieces of `datas` were handed over, and reads of the sizes of `datas` return `datas`. */
  ghost predicate ReadsBack(n: nat, s: VirtualChannel.State, steps: seq<VirtualChannel.Step>, datas: seq<seq<byte>>)
    requires n > 16
  {
    && VirtualChannel.Legal(s, steps) && VirtualChannel.Handed(steps) == AllSplit(datas, n - 16)
    && ReadAll(VirtualChannel.Run(s, steps).receiver.received, Sizes(datas), n - 16) == datas
  }

  lemma {:induction false} AllSplitFits(datas: seq<seq<byte>>, n: nat)
    requires 16 < n < SIZE_LIMIT
    ensures Inbox.MessagesFit(AllSplit(datas, n - 16), n)
    decreases |datas|
  {
    if datas != [] {
      SplitFits(datas[0], n);
      AllSplitFits(datas[1..], n);
    }
  }

  /** Any sequence of writes can be made and read back with the same sizes. */
  lemma {:induction false} AnyWritesGetThrough(n: nat, paranoid: bool, anyOrder: bool, datas: seq<seq<byte>>)
    requires 16 < n < SIZE_LIMIT && (paranoid || !anyOrder) && Inbox.AllUnambiguous(AllSplit(datas, n - 16))
    ensures exists steps :: ReadsBack(n, VirtualChannel.Init(n, paranoid, anyOrder), steps, datas)
  {
    AllSplitFits(datas, n);
    var steps := VirtualProgress.DeliverAll(n, paranoid, anyOrder, AllSplit(datas, n - 16));
    EveryWriteCanBeRead(n, paranoid, anyOrder, steps, datas);
  }
}
