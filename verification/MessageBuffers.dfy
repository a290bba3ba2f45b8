/** `RDMAMessageBuffer` as the object it is: two arrays, 64-bit positions that wrap around, loops that copy and
    clear.  The ghost positions are the unbounded ones that the protocol model speaks about; the arrays are specified
    through stream positions.  Results of RDMA READs of the remote read position are parameters. */
module MessageBuffers {
  import opened Frames
  import opened Rings
  import opened Counters
  import opened Wraparound

  datatype SendResult = Posted(posts: seq<Segment>) | DataExceedsBuffer | StillWaiting

  datatype ReceiveResult = Got(data: Message) | TooLong(size: nat) | NothingYet

  // ----- `copy` and `fill` on arrays -----

  /** `copy` into a[at..]. */
  method CopyArray(a: array<byte>, at: nat, data: seq<byte>)
    requires at + |data| <= a.Length
    modifies a
    ensures a[..] == old(a[..])[..at] + data + old(a[..])[at + |data|..]
  {
    for i := 0 to |data|
      invariant a[..at] == old(a[..at])
      invariant a[at..at + i] == data[..i]
      invariant a[at + i..] == old(a[..])[at + i..]
    {
      a[at + i] := data[i];
      assert a[at..at + (i + 1)] == a[at..at + i] + [data[i]];
      assert a[at + (i + 1)..] == old(a[..])[at + i..][1..];
    }
    assert data[..|data|] == data;
    assert a[..] == a[..at] + a[at..at + |data|] + a[at + |data|..];
  }

  /** One `wraparound` that copies data into the buffer at stream position p, of which only the low 64 bits are
      at hand. */
  method CopyAround(buffer: array<byte>, pos: Word64, data: seq<byte>, ghost p: nat)
    requires PassesSizeCheck(buffer.Length) && buffer.Length < SIZE_LIMIT && pos == Stored(p)
    requires |data| <= buffer.Length
    modifies buffer
    ensures buffer[..] == PutAll(old(buffer[..]), p, data)
  {
    SegmentsAreExact(buffer.Length, |data|, p);
    SameSegments(buffer.Length, |data|, p);
    CopyInIsPutAll(buffer[..], p, data);
    var s := Segments(buffer.Length, |data|, pos);
    CopyArray(buffer, s[0].begin, data[..s[0].end - s[0].begin]);
    if |s| == 2 {
      CopyArray(buffer, s[1].begin, data[s[1].prev..s[1].prev + (s[1].end - s[1].begin)]);
    }
  }

  /** The segments depend on the slot only, so the wrapped counter yields the same ones. */
  lemma {:induction false} SameSegments(total: nat, todo: nat, p: nat)
    requires PassesSizeCheck(total) && total < SIZE_LIMIT
    ensures Segments(total, todo, Stored(p)) == Segments(total, todo, p)
  {
    StoredSlot(p, total);
    MaskIsMod(p, total);
  }

  /** What one look at the ring finds: the size word at p, and the trailer where that size puts it. */
  function SizeSeen(ring: seq<byte>, p: nat): nat
    requires |ring| > 0
  {
    Value(Slice(ring, p, 8))
  }

  predicate LooksComplete(ring: seq<byte>, p: nat)
    requires |ring| > 0
  {
    Slice(ring, p + 8 + SizeSeen(ring, p), 8) == VALIDITY
  }

  lemma {:induction false} ValueBound(s: seq<byte>)
    ensures Value(s) < Pow256(|s|)
  {
    if s != [] {
      ValueBound(s[1..]);
    }
  }

  lemma {:induction false} WordBound(s: seq<byte>)
    requires |s| == 8
    ensures Value(s) < SIZE_LIMIT
  {
    ValueBound(s);
    assert Pow256(8) == SIZE_LIMIT;
  }

  /** The space the sender may use if the receiver has read up to `remote`. */
  function Free(size: nat, sent: nat, remote: nat): int {
    size - (sent - remote)
  }

  /** Positions that successive READs may return: never behind the last one, never ahead of what was sent. */
  ghost predicate Plausible(positions: seq<nat>, remote: nat, sent: nat) {
    && (forall i :: 0 <= i < |positions| ==> remote <= positions[i] <= sent)
    && (forall i, j :: 0 <= i < j < |positions| ==> positions[i] <= positions[j])
  }

  /** The position already known, or one of those read, leaves room for `need` bytes. */
  ghost predicate RoomFound(size: nat, sent: nat, remote: nat, positions: seq<nat>, need: nat) {
    need <= Free(size, sent, remote) || exists i :: 0 <= i < |positions| && need <= Free(size, sent, positions[i])
  }

  function Latest(remote: nat, positions: seq<nat>): nat {
    if positions == [] then remote else positions[|positions| - 1]
  }

  /** Positions only grow, so the latest one decides. */
  lemma {:induction false} LatestDecides(size: nat, sent: nat, remote: nat, positions: seq<nat>, need: nat)
    requires Plausible(positions, remote, sent)
    ensures RoomFound(size, sent, remote, positions, need) <==> need <= Free(size, sent, Latest(remote, positions))
  {
  }

  /** What is left of the reads after the first k. */
  lemma {:induction false} LaterReads(positions: seq<nat>, k: nat, remote: nat, sent: nat, later: nat)
    requires Plausible(positions, remote, sent) && k <= |positions| && sent <= later
    ensures Plausible(positions[k..], Latest(remote, positions[..k]), later)
    ensures Latest(Latest(remote, positions[..k]), positions[k..]) == Latest(remote, positions)
  {
  }

  class MessageBuffer {
    const size: Word64
    const sendBuffer: array<byte>
    const receiveBuffer: array<byte>
    var sendPos: Word64
    var readPos: Word64
    var currentRemoteReceive: Word64
    ghost var sent: nat
    ghost var consumed: nat
    ghost var remote: nat

    ghost predicate Valid()
      reads this
    {
      && PassesSizeCheck(size) && size >= 16
      && sendBuffer.Length == receiveBuffer.Length == size && sendBuffer != receiveBuffer
      && sendPos == Stored(sent) && readPos == Stored(consumed) && currentRemoteReceive == Stored(remote)
      && remote <= sent <= remote + size
    }

    constructor (n: Word64)
      requires PassesSizeCheck(n) && n >= 16
      ensures Valid() && size == n && fresh(sendBuffer) && fresh(receiveBuffer)
      ensures sent == consumed == remote == 0 && receiveBuffer[..] == Zeros(n)
    {
      size := n;
      sendBuffer := new byte[n](_ => 0);
      receiveBuffer := new byte[n](_ => 0);
      sendPos, readPos, currentRemoteReceive := 0, 0, 0;
      sent, consumed, remote := 0, 0, 0;
    }

    /** The waiting loop: ends with enough space exactly if the position it knows or one of those it reads leaves
        enough; it never reads on once there is room. */
    method WaitUntilSendFree(need: nat, positions: seq<nat>) returns (free: bool, used: nat)
      requires Valid() && Plausible(positions, remote, sent)
      modifies this`remote, this`currentRemoteReceive
      ensures Valid() && used <= |positions| && remote == Latest(old(remote), positions[..used])
      ensures free <==> need <= Free(size, sent, remote)
      ensures free <==> RoomFound(size, sent, old(remote), positions, need)
      ensures used > 0 ==> !RoomFound(size, sent, old(remote), positions[..used - 1], need)
    {
      FreeSpaceIsTrue(size, sent, remote);
      var safeToWrite := SafeToWrite(size, sendPos, currentRemoteReceive);
      used := 0;
      while need > safeToWrite
        invariant Valid() && used <= |positions| && remote == Latest(old(remote), positions[..used])
        invariant safeToWrite == Free(size, sent, remote)
        invariant used > 0 ==> !RoomFound(size, sent, old(remote), positions[..used - 1], need)
        decreases |positions| - used
      {
        assert !RoomFound(size, sent, old(remote), positions[..used], need);
        if used == |positions| {
          assert positions[..used] == positions;
          return false, used;
        }
        remote := positions[used];
        currentRemoteReceive := Stored(positions[used]);
        used := used + 1;
        FreeSpaceIsTrue(size, sent, remote);
        safeToWrite := SafeToWrite(size, sendPos, currentRemoteReceive);
      }
      free := true;
    }

    method Append(data: seq<byte>)
      requires Valid() && |data| <= Free(size, sent, remote)
      modifies this`sendPos, this`sent, sendBuffer
      ensures Valid() && sent == old(sent) + |data| && sendBuffer[..] == PutAll(old(sendBuffer[..]), old(sent), data)
    {
      CopyAround(sendBuffer, sendPos, data, sent);
      StoredSum(sent, |data|);
      sendPos := Add64(sendPos, |data|);
      sent := sent + |data|;
    }

    /** Waits for space, then copies; `rest` are the reads it did not need. */
    method WriteToSendBuffer(data: seq<byte>, positions: seq<nat>) returns (done: bool, rest: seq<nat>)
      requires Valid() && Plausible(positions, remote, sent)
      modifies this`remote, this`currentRemoteReceive, this`sendPos, this`sent, sendBuffer
      ensures Valid() && Plausible(rest, remote, sent) && Latest(remote, rest) == Latest(old(remote), positions)
      ensures remote <= Latest(old(remote), positions)
      ensures done <==> |data| <= Free(size, old(sent), Latest(old(remote), positions))
      ensures sent == old(sent) + if done then |data| else 0
      ensures sendBuffer[..] == if done then PutAll(old(sendBuffer[..]), old(sent), data) else old(sendBuffer[..])
    {
      LatestDecides(size, sent, remote, positions, |data|);
      var used: nat;
      done, used := WaitUntilSendFree(|data|, positions);
      LaterReads(positions, used, old(remote), sent, sent + if done then |data| else 0);
      rest := positions[used..];
      if done {
        Append(data);
      }
    }

    /** The three parts of a frame, one after the other.  The whole frame is copied exactly if the latest position
        leaves room for all of it. */
    method WriteFrame(data: Message, positions: seq<nat>) returns (done: bool)
      requires Valid() && Plausible(positions, remote, sent) && Fits(data, size)
      modifies this`remote, this`currentRemoteReceive, this`sendPos, this`sent, sendBuffer
      ensures Valid() && remote <= Latest(old(remote), positions)
      ensures done <==> FrameSize(data) <= Free(size, old(sent), Latest(old(remote), positions))
      ensures done ==> sent == old(sent) + FrameSize(data)
      ensures done ==> sendBuffer[..] == PutAll(old(sendBuffer[..]), old(sent), Frame(data))
    {
      ghost var before, start := sendBuffer[..], sent;
      var word, rest := SizeWord(data), [];
      done, rest := WriteToSendBuffer(word, positions);
      if done {
        done := WriteBody(data, rest);
        FrameInThreeParts(before, start, data);
      }
    }

    /** Payload and trailer. */
    method WriteBody(data: Message, positions: seq<nat>) returns (done: bool)
      requires Valid() && Plausible(positions, remote, sent)
      modifies this`remote, this`currentRemoteReceive, this`sendPos, this`sent, sendBuffer
      ensures Valid() && remote <= Latest(old(remote), positions)
      ensures done <==> |data| + 8 <= Free(size, old(sent), Latest(old(remote), positions))
      ensures done ==> sent == old(sent) + |data| + 8
      ensures done ==> sendBuffer[..] == PutAll(PutAll(old(sendBuffer[..]), old(sent), data), old(sent) + |data|, VALIDITY)
    {
      var rest: seq<nat>;
      done, rest := WriteToSendBuffer(data, positions);
      if done {
        done, rest := WriteToSendBuffer(VALIDITY, rest);
      }
    }

    /** `send`: refuses what can never fit, otherwise copies the frame and posts it as one or two writes. */
    method Send(data: Message, positions: seq<nat>) returns (r: SendResult)
      requires Valid() && Plausible(positions, remote, sent)
      modifies this`remote, this`currentRemoteReceive, this`sendPos, this`sent, sendBuffer
      ensures Valid() && remote <= Latest(old(remote), positions)
      ensures r.DataExceedsBuffer? <==> FrameSize(data) > size
      ensures r.DataExceedsBuffer? ==> sent == old(sent) && sendBuffer[..] == old(sendBuffer[..])
      ensures r.Posted? <==> FrameSize(data) <= Free(size, old(sent), Latest(old(remote), positions))
      ensures r.Posted? ==> sent == old(sent) + FrameSize(data) && r.posts == Segments(size, FrameSize(data), old(sent))
      ensures r.Posted? ==> sendBuffer[..] == PutAll(old(sendBuffer[..]), old(sent), Frame(data))
    {
      if FrameSize(data) > size {
        return DataExceedsBuffer;
      }
      var startOfWrite := sendPos;
      SameSegments(size, FrameSize(data), sent);
      var done := WriteFrame(data, positions);
      r := if done then Posted(Segments(size, FrameSize(data), startOfWrite)) else StillWaiting;
    }

    /** Reads without consuming, at true position p. */
    method ReadFromReceiveBuffer(pos: Word64, len: nat, ghost p: nat) returns (out: seq<byte>)
      requires Valid() && pos == Stored(p) && len <= size
      ensures out == Slice(receiveBuffer[..], p, len)
    {
      SegmentsAreExact(size, len, p);
      SameSegments(size, len, p);
      CopyOutIsSlice(receiveBuffer[..], p, len);
      var s := Segments(size, len, pos);
      out := receiveBuffer[s[0].begin..s[0].end];
      assert out == receiveBuffer[..][s[0].begin..s[0].end];
      if |s| == 2 {
        assert receiveBuffer[s[1].begin..s[1].end] == receiveBuffer[..][s[1].begin..s[1].end];
        out := out + receiveBuffer[s[1].begin..s[1].end];
      }
    }

    method ZeroReceiveBuffer(pos: Word64, len: nat, ghost p: nat)
      requires Valid() && pos == Stored(p) && len <= size
      modifies receiveBuffer
      ensures receiveBuffer[..] == PutAll(old(receiveBuffer[..]), p, Zeros(len))
    {
      CopyAround(receiveBuffer, pos, Zeros(len), p);
    }

    /** One pass of the polling loop: the size word, then the eight bytes where it puts the trailer. */
    method Poll() returns (receiveSize: Word64, valid: bool)
      requires Valid()
      ensures receiveSize == SizeSeen(receiveBuffer[..], consumed)
      ensures valid == LooksComplete(receiveBuffer[..], consumed)
    {
      var word := ReadFromReceiveBuffer(readPos, 8, consumed);
      WordBound(word);
      receiveSize := Value(word);
      StoredSum(consumed, 8 + receiveSize);
      var trailer := ReadFromReceiveBuffer(Add64(readPos, 8 + receiveSize), 8, consumed + 8 + receiveSize);
      valid := trailer == VALIDITY;
    }

    method HasData() returns (r: bool)
      requires Valid()
      ensures r == LooksComplete(receiveBuffer[..], consumed)
    {
      var size;
      size, r := Poll();
    }

    /** `receive`, one pass of its loop.  The code trusts the size word once the trailer matches; that it never
        exceeds the ring is what the protocol guarantees. */
    method Receive(maxSize: nat) returns (r: ReceiveResult)
      requires Valid()
      requires LooksComplete(receiveBuffer[..], consumed) ==> 16 + SizeSeen(receiveBuffer[..], consumed) <= size
      modifies this`readPos, this`consumed, receiveBuffer
      ensures Valid()
      ensures r.NothingYet? <==> !LooksComplete(old(receiveBuffer[..]), old(consumed))
      ensures r.TooLong? ==> maxSize < r.size == SizeSeen(old(receiveBuffer[..]), old(consumed))
      ensures r.Got? ==> |r.data| == SizeSeen(old(receiveBuffer[..]), old(consumed)) <= maxSize
      ensures r.Got? ==> r.data == Slice(old(receiveBuffer[..]), old(consumed) + 8, |r.data|)
      ensures r.Got? ==> receiveBuffer[..] == PutAll(old(receiveBuffer[..]), old(consumed), Zeros(FrameSize(r.data)))
      ensures !r.Got? ==> receiveBuffer[..] == old(receiveBuffer[..])
      ensures consumed == old(consumed) + if r.Got? then FrameSize(r.data) else 0
    {
      var receiveSize, valid := Poll();
      if !valid {
        return NothingYet;
      }
      if receiveSize > maxSize {
        return TooLong(receiveSize);
      }
      StoredSum(consumed, 8);
      var result := ReadFromReceiveBuffer(Add64(readPos, 8), receiveSize, consumed + 8);
      ZeroReceiveBuffer(readPos, 16 + receiveSize, consumed);
      StoredSum(consumed, 16 + receiveSize);
      readPos := Add64(readPos, 16 + receiveSize);
      consumed := consumed + 16 + receiveSize;
      r := Got(result);
    }
  }

  /** Size word, payload and trailer copied in turn are the frame copied at once. */
  lemma {:induction false} FrameInThreeParts(buf: seq<byte>, p: nat, m: Message)
    requires |buf| > 0
    ensures PutAll(PutAll(PutAll(buf, p, SizeWord(m)), p + 8, m), p + 8 + |m|, VALIDITY) == PutAll(buf, p, Frame(m))
  {
    PutAllConcat(buf, p, SizeWord(m), m);
    PutAllConcat(buf, p, SizeWord(m) + m, VALIDITY);
  }
}
