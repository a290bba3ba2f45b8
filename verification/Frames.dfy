/** The wire format shared by both RDMA rings: `size(8) | payload | validity(8)`, sizes little-endian.
    A size word that is read while it is still arriving is `Torn`: each of its bytes is either the
    real one or the zero that was in the ring before. */
module Frames {

  type byte = b: int | 0 <= b < 256

  /** The trailer as it lies in memory on a little-endian machine. */
  const VALIDITY: seq<byte> := [0xEF, 0xBE, 0xEF, 0xBE, 0xAD, 0xDE, 0xAD, 0xDE]

  const WORD: nat := 8

  /** Writes up to this length may be posted inline: the card then takes their bytes at once. */
  const MAX_INLINE: nat := 512

  /** Sizes are 64-bit words. */
  const SIZE_LIMIT: nat := 0x1_0000_0000_0000_0000

  function Pow256(k: nat): nat {
    if k == 0 then 1 else 256 * Pow256(k - 1)
  }

  /** The k low bytes of n, least significant first. */
  function LittleEndian(n: nat, k: nat): (s: seq<byte>)
    ensures |s| == k
  {
    if k == 0 then [] else [n % 256] + LittleEndian(n / 256, k - 1)
  }

  function Value(s: seq<byte>): nat {
    if s == [] then 0 else s[0] + 256 * Value(s[1..])
  }

  lemma {:induction false} SizeWordRoundTrip(n: nat, k: nat)
    requires n < Pow256(k)
    ensures Value(LittleEndian(n, k)) == n
  {
    if k > 0 {
      SizeWordRoundTrip(n / 256, k - 1);
      assert LittleEndian(n, k)[1..] == LittleEndian(n / 256, k - 1);
    }
  }

  lemma ValidityIsTheConstant()
    ensures LittleEndian(0xDEADDEADBEEFBEEF, 8) == VALIDITY
  {
    var n1 := 0xDEADDEADBEEFBEEF / 256;
    var n2 := n1 / 256;
    var n3 := n2 / 256;
    var n4 := n3 / 256;
    assert LittleEndian(n4, 4) == [0xAD, 0xDE, 0xAD, 0xDE] by {
      assert n4 == 0xDEADDEAD;
      assert LittleEndian(0xDEAD, 2) == [0xAD, 0xDE];
      assert LittleEndian(0xDEADDE, 3) == [0xDE] + LittleEndian(0xDEAD, 2);
    }
    assert LittleEndian(n2, 6) == [0xEF] + LittleEndian(n3, 5);
    assert LittleEndian(n3, 5) == [0xBE] + LittleEndian(n4, 4);
    assert LittleEndian(n1, 7) == [0xBE] + LittleEndian(n2, 6);
  }

  function Zeros(n: nat): (z: seq<byte>)
    ensures |z| == n && forall i :: 0 <= i < n ==> z[i] == 0
  {
    seq<byte>(n, _ => 0)
  }

  // ----- torn words -----

  /** t is a reading of word s in which some bytes had not arrived yet. */
  ghost predicate Torn(t: seq<byte>, s: seq<byte>) {
    |t| == |s| && forall i :: 0 <= i < |s| ==> t[i] == 0 || t[i] == s[i]
  }

  lemma {:induction false} TornIsNoLarger(t: seq<byte>, s: seq<byte>)
    requires Torn(t, s)
    ensures Value(t) <= Value(s)
    ensures Value(t) == Value(s) ==> t == s
  {
    if s != [] {
      TornIsNoLarger(t[1..], s[1..]);
      assert t == [t[0]] + t[1..];
      assert s == [s[0]] + s[1..];
    }
  }

  lemma {:induction false} ZeroWord(t: seq<byte>)
    ensures (forall i :: 0 <= i < |t| ==> t[i] == 0) ==> Value(t) == 0
  {
    if t != [] {
      ZeroWord(t[1..]);
    }
  }

  // ----- frames -----

  type Message = seq<byte>

  function FrameSize(m: Message): nat { 2 * WORD + |m| }

  /** m can be framed in a ring of n bytes; `send` throws for anything larger. */
  predicate Fits(m: Message, n: nat) {
    FrameSize(m) <= n && |m| < SIZE_LIMIT
  }

  /** The size word of m as it lies in memory. */
  function SizeWord(m: Message): (w: seq<byte>)
    ensures |w| == 8
  {
    LittleEndian(|m|, 8)
  }

  lemma SizeWordValue(m: Message)
    requires |m| < SIZE_LIMIT
    ensures Value(SizeWord(m)) == |m|
  {
    assert Pow256(8) == SIZE_LIMIT;
    SizeWordRoundTrip(|m|, 8);
  }

  function Frame(m: Message): (f: seq<byte>)
    ensures |f| == FrameSize(m)
  {
    SizeWord(m) + m + VALIDITY
  }

  /** The validity constant lies in s at offset x. */
  ghost predicate TrailerAt(s: seq<byte>, x: nat) {
    x + 8 <= |s| && s[x..x + 8] == VALIDITY
  }

  /** No torn reading of the size word points at a copy of the validity constant inside the payload. */
  ghost predicate Unambiguous(m: Message) {
    forall t: seq<byte> :: Torn(t, SizeWord(m)) ==> !TrailerAt(m, Value(t))
  }

  /** The simple sufficient condition: the payload does not contain the constant at all. */
  ghost predicate FreeOfValidity(m: Message) {
    forall i: nat :: !TrailerAt(m, i)
  }

  lemma FreeOfValidityIsUnambiguous(m: Message)
    ensures FreeOfValidity(m) ==> Unambiguous(m)
  {
  }

  /** VALIDITY is unbordered, so it cannot start inside the payload and end inside the trailer. */
  lemma Unbordered(m: Message, x: nat)
    ensures x < |m| < x + 8 ==> !TrailerAt(m + VALIDITY, x)
  {
    if x < |m| < x + 8 {
      var d := |m| - x;
      var w := (m + VALIDITY)[x..x + 8];
      assert forall j :: d <= j < 8 ==> w[j] == VALIDITY[j - d];
      if d == 2 || d == 4 {
        assert VALIDITY[4 - d] != VALIDITY[4];
      } else if d == 6 {
        assert VALIDITY[6 - d] != VALIDITY[6];
      } else {
        assert VALIDITY[7 - d] != VALIDITY[7];
      }
    }
  }

  lemma MatchInsidePayload(m: Message, x: nat)
    ensures x + 8 <= |m| ==> TrailerAt(m + VALIDITY, x) == TrailerAt(m, x)
  {
    assert x + 8 <= |m| ==> (m + VALIDITY)[x..x + 8] == m[x..x + 8];
  }

  /** A trailer match at a torn offset inside an unambiguous frame is the real trailer. */
  lemma TrailerMatchIsExact(m: Message, t: seq<byte>)
    requires |m| < SIZE_LIMIT
    requires Unambiguous(m)
    requires Torn(t, SizeWord(m))
    requires TrailerAt(m + VALIDITY, Value(t))
    ensures Value(t) == |m| && t == SizeWord(m)
  {
    SizeWordValue(m);
    TornIsNoLarger(t, SizeWord(m));
    Unbordered(m, Value(t));
    MatchInsidePayload(m, Value(t));
  }

  lemma Associative<T>(a: seq<T>, b: seq<T>, c: seq<T>)
    ensures a + b + c == a + (b + c)
  {
  }

  lemma SliceOfSlice(s: seq<byte>, a: nat, b: nat, c: nat, d: nat)
    requires a <= b <= |s| && c <= d <= b - a
    ensures s[a..b][c..d] == s[a + c..a + d]
  {
    var t, u := s[a..b][c..d], s[a + c..a + d];
    assert |t| == |u| && forall k :: 0 <= k < |u| ==> t[k] == u[k];
  }

  // ----- the byte stream of a sequence of messages -----

  function Wire(ms: seq<Message>): seq<byte> {
    if ms == [] then [] else Wire(ms[..|ms| - 1]) + Frame(ms[|ms| - 1])
  }

  ghost predicate IsLast(sent: seq<Message>, m: Message) {
    |sent| > 0 && sent[|sent| - 1] == m
  }

  /** Stream position at which message i starts (or, for i == |ms|, at which the stream ends). */
  function Offset(ms: seq<Message>, i: nat): nat
    requires i <= |ms|
  {
    |Wire(ms[..i])|
  }

  lemma EndOffset(ms: seq<Message>)
    ensures Offset(ms, |ms|) == |Wire(ms)|
  {
    assert ms[..|ms|] == ms;
  }

  lemma BeforeTheEnd(ms: seq<Message>, i: nat)
    requires i <= |ms|
    requires Offset(ms, i) < |Wire(ms)|
    ensures i < |ms|
  {
    EndOffset(ms);
  }

  lemma WireSnoc(ms: seq<Message>, m: Message)
    ensures Wire(ms + [m]) == Wire(ms) + Frame(m)
    ensures Offset(ms + [m], |ms|) == |Wire(ms)|
  {
    assert (ms + [m])[..|ms|] == ms;
  }

  lemma {:induction false} WirePrefix(ms: seq<Message>, i: nat)
    requires i <= |ms|
    ensures Offset(ms, i) <= |Wire(ms)|
    ensures Wire(ms)[..Offset(ms, i)] == Wire(ms[..i])
    decreases |ms|
  {
    if i == |ms| {
      assert ms[..i] == ms;
    } else {
      var init := ms[..|ms| - 1];
      WirePrefix(init, i);
      assert init[..i] == ms[..i];
    }
  }

  /** Message i lies framed at its offset. */
  lemma FrameAt(ms: seq<Message>, i: nat)
    requires i < |ms|
    ensures Offset(ms, i + 1) == Offset(ms, i) + FrameSize(ms[i]) <= |Wire(ms)|
    ensures Wire(ms)[Offset(ms, i)..Offset(ms, i + 1)] == Frame(ms[i])
  {
    WirePrefix(ms, i + 1);
    WireSnoc(ms[..i], ms[i]);
    assert ms[..i] + [ms[i]] == ms[..i + 1];
    var w := Wire(ms)[..Offset(ms, i + 1)];
    assert w[Offset(ms, i)..] == Frame(ms[i]);
    assert w[Offset(ms, i)..] == Wire(ms)[Offset(ms, i)..Offset(ms, i + 1)];
  }

  lemma FrameParts(m: Message)
    ensures Frame(m)[..8] == SizeWord(m)
    ensures Frame(m)[8..8 + |m|] == m
    ensures Frame(m)[8..FrameSize(m)] == m + VALIDITY
  {
  }

  lemma SizeWordAt(ms: seq<Message>, i: nat)
    requires i < |ms|
    ensures Offset(ms, i) + 8 <= |Wire(ms)|
    ensures Wire(ms)[Offset(ms, i)..Offset(ms, i) + 8] == SizeWord(ms[i])
  {
    FrameAt(ms, i);
    FrameParts(ms[i]);
    SliceOfSlice(Wire(ms), Offset(ms, i), Offset(ms, i + 1), 0, 8);
  }

  lemma PayloadAt(ms: seq<Message>, i: nat)
    requires i < |ms|
    ensures Offset(ms, i) + 8 + |ms[i]| <= |Wire(ms)|
    ensures Wire(ms)[Offset(ms, i) + 8..Offset(ms, i) + 8 + |ms[i]|] == ms[i]
  {
    FrameAt(ms, i);
    FrameParts(ms[i]);
    SliceOfSlice(Wire(ms), Offset(ms, i), Offset(ms, i + 1), 8, 8 + |ms[i]|);
  }

  lemma BodyAt(ms: seq<Message>, i: nat)
    requires i < |ms|
    ensures Offset(ms, i + 1) == Offset(ms, i) + FrameSize(ms[i]) <= |Wire(ms)|
    ensures Wire(ms)[Offset(ms, i) + 8..Offset(ms, i + 1)] == ms[i] + VALIDITY
  {
    FrameAt(ms, i);
    FrameParts(ms[i]);
    SliceOfSlice(Wire(ms), Offset(ms, i), Offset(ms, i + 1), 8, FrameSize(ms[i]));
  }

  /** A match x bytes into the body of message i, seen from the stream and from the message. */
  lemma BodyMatch(ms: seq<Message>, i: nat, x: nat)
    requires i < |ms| && x <= |ms[i]|
    requires TrailerAt(Wire(ms), Offset(ms, i) + 8 + x)
    ensures TrailerAt(ms[i] + VALIDITY, x)
  {
    BodyAt(ms, i);
    SliceOfSlice(Wire(ms), Offset(ms, i) + 8, Offset(ms, i + 1), x, x + 8);
  }

  lemma {:induction false} OffsetsGrow(ms: seq<Message>, i: nat, j: nat)
    requires i <= j <= |ms|
    ensures Offset(ms, i) + 16 * (j - i) <= Offset(ms, j)
    decreases j - i
  {
    if i < j {
      FrameAt(ms, i);
      OffsetsGrow(ms, i + 1, j);
    }
  }

  lemma OffsetStable(ms: seq<Message>, m: Message, i: nat)
    requires i <= |ms|
    ensures Offset(ms + [m], i) == Offset(ms, i)
  {
    assert (ms + [m])[..i] == ms[..i];
  }
}
