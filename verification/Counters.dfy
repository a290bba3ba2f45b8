/** The index arithmetic of all rings: sizes are powers of two, positions are 64-bit counters that wrap around, and
    `pos & (size - 1)` picks the slot.  All of it agrees with unbounded positions taken modulo the size. */
module Counters {
  import opened Frames
  import opened Rings

  /** Bitwise and of two numbers. */
  function And(a: nat, b: nat): nat
    decreases a
  {
    if a == 0 || b == 0 then 0 else (if a % 2 == 1 && b % 2 == 1 then 1 else 0) + 2 * And(a / 2, b / 2)
  }

  function Pow2(k: nat): (p: nat)
    ensures p > 0
  {
    if k == 0 then 1 else 2 * Pow2(k - 1)
  }

  /** The constructors' check; they throw for any other size. */
  predicate PassesSizeCheck(size: nat) {
    size != 0 && And(size, size - 1) == 0
  }

  lemma {:induction false} AndSelf(a: nat)
    ensures And(a, a) == a
  {
    if a > 0 {
      AndSelf(a / 2);
    }
  }

  lemma {:induction false} AndBound(a: nat, b: nat)
    ensures And(a, b) <= b
    decreases a
  {
    if a > 0 && b > 0 {
      AndBound(a / 2, b / 2);
    }
  }

  /** One halving: an even number passes like its half, an odd one only if it is 1. */
  lemma {:induction false} CheckHalves(n: nat)
    requires n > 0
    ensures n % 2 == 0 ==> PassesSizeCheck(n) == PassesSizeCheck(n / 2)
    ensures n % 2 == 1 ==> PassesSizeCheck(n) == (n == 1)
  {
    if n % 2 == 0 {
      assert (n - 1) / 2 == n / 2 - 1;
    } else {
      AndSelf(n / 2);
      assert (n - 1) / 2 == n / 2;
    }
  }

  lemma {:induction false} PowersPass(k: nat)
    ensures PassesSizeCheck(Pow2(k))
  {
    if k > 0 {
      PowersPass(k - 1);
      CheckHalves(Pow2(k));
    }
  }

  /** The exponent of a size that passes. */
  function Log(n: nat): (k: nat)
    requires n > 0
  {
    if n == 1 then 0 else 1 + Log(n / 2)
  }

  lemma {:induction false} PassingIsPower(n: nat)
    requires PassesSizeCheck(n)
    ensures n == Pow2(Log(n))
  {
    CheckHalves(n);
    if n > 1 {
      PassingIsPower(n / 2);
    }
  }

  /** The bit trick accepts exactly the powers of two. */
  lemma {:induction false} SizeCheckIsExact(n: nat)
    ensures PassesSizeCheck(n) <==> exists k: nat :: n == Pow2(k)
  {
    if PassesSizeCheck(n) {
      PassingIsPower(n);
    }
    if k: nat :| n == Pow2(k) {
      PowersPass(k);
    }
  }

  // ----- masking -----

  lemma {:induction false} HalvedMod(p: nat, m: nat)
    requires m > 0
    ensures p % (2 * m) == p % 2 + 2 * (p / 2 % m)
  {
    var h := p / 2;
    var k := h / m;
    assert 2 * (k * m) == k * (2 * m);
    assert p == k * (2 * m) + (p % 2 + 2 * (h % m));
    ModUnique(p, k, p % 2 + 2 * (h % m), 2 * m);
  }

  lemma {:induction false} MaskPower(p: nat, k: nat)
    ensures And(p, Pow2(k) - 1) == p % Pow2(k)
    decreases k
  {
    if k > 0 {
      var m := Pow2(k - 1);
      MaskPower(p / 2, k - 1);
      HalvedMod(p, m);
      assert (2 * m - 1) / 2 == m - 1 && (2 * m - 1) % 2 == 1;
      if p == 0 {
        assert 0 % (2 * m) == 0;
      } else if m == 1 {
        assert And(p / 2, 0) == 0;
      }
    }
  }

  /** Masking with size - 1 is the remainder for every position, precisely when the size passes the check. */
  lemma {:induction false} MaskIsExact(n: nat)
    requires n > 0
    ensures (forall p: nat :: And(p, n - 1) == p % n) <==> PassesSizeCheck(n)
  {
    if PassesSizeCheck(n) {
      PassingIsPower(n);
      forall p: nat ensures And(p, n - 1) == p % n {
        MaskPower(p, Log(n));
      }
    }
    if forall p: nat :: And(p, n - 1) == p % n {
      assert And(n, n - 1) == n % n;
    }
  }

  lemma {:induction false} MaskIsMod(p: nat, n: nat)
    requires PassesSizeCheck(n)
    ensures And(p, n - 1) == p % n
  {
    MaskIsExact(n);
  }

  // ----- 64-bit counters -----

  type Word64 = w: nat | w < SIZE_LIMIT

  /** A true position as the code stores it. */
  function Stored(p: nat): Word64 {
    p % SIZE_LIMIT
  }

  function Add64(a: Word64, b: nat): Word64 {
    (a + b) % SIZE_LIMIT
  }

  function Sub64(a: Word64, b: Word64): Word64 {
    (a - b) % SIZE_LIMIT
  }

  lemma WrapIsPower()
    ensures SIZE_LIMIT == Pow2(64)
  {
    assert Pow2(8) == 256;
    assert Pow2(16) == 256 * Pow2(8) by { assert Pow2(12) == 16 * Pow2(8); }
    assert Pow2(32) == 65536 * Pow2(16) by {
      assert Pow2(20) == 16 * Pow2(16);
      assert Pow2(24) == 16 * Pow2(20);
      assert Pow2(28) == 16 * Pow2(24);
    }
    assert Pow2(64) == 0x1_0000_0000 * Pow2(32) by {
      assert Pow2(36) == 16 * Pow2(32);
      assert Pow2(40) == 16 * Pow2(36);
      assert Pow2(44) == 16 * Pow2(40);
      assert Pow2(48) == 16 * Pow2(44);
      assert Pow2(52) == 16 * Pow2(48);
      assert Pow2(56) == 16 * Pow2(52);
      assert Pow2(60) == 16 * Pow2(56);
    }
  }

  lemma {:induction false} PowersDivide(j: nat, k: nat)
    requires j <= k
    ensures Pow2(k) == Pow2(k - j) * Pow2(j)
  {
    if j < k {
      PowersDivide(j, k - 1);
      assert 2 * (Pow2(k - 1 - j) * Pow2(j)) == Pow2(k - j) * Pow2(j);
    }
  }

  lemma {:induction false} PowersGrow(j: nat, k: nat)
    ensures j < k ==> Pow2(j) < Pow2(k)
  {
    if j < k {
      PowersGrow(j, k - 1);
    }
  }

  lemma {:induction false} ModOfMultiple(p: nat, n: nat, q: nat)
    requires n > 0 && q > 0
    ensures p % (q * n) % n == p % n
  {
    var r := p % (q * n);
    var k := p / (q * n);
    assert p == k * (q * n) + r;
    assert r == r / n * n + r % n;
    assert k * (q * n) == k * q * n;
    assert (k * q + r / n) * n == k * q * n + r / n * n;
    ModUnique(p, k * q + r / n, r % n, n);
  }

  /** Wrap-around of the counter never shows in the slot: masking the stored position gives the true position
      modulo the ring size. */
  lemma {:induction false} StoredSlot(p: nat, n: nat)
    requires PassesSizeCheck(n) && n < SIZE_LIMIT
    ensures And(Stored(p), n - 1) == p % n
  {
    MaskIsMod(Stored(p), n);
    PassingIsPower(n);
    WrapIsPower();
    PowersGrow(64, Log(n));
    PowersDivide(Log(n), 64);
    ModOfMultiple(p, n, Pow2(64 - Log(n)));
  }

  /** Adding to a stored counter stores the sum. */
  lemma {:induction false} StoredSum(p: nat, d: nat)
    ensures Add64(Stored(p), d) == Stored(p + d)
  {
    var a := p % SIZE_LIMIT + d;
    ModUnique(p + d, p / SIZE_LIMIT + a / SIZE_LIMIT, a % SIZE_LIMIT, SIZE_LIMIT);
  }

  /** The difference of two stored counters is the true difference as long as that fits. */
  lemma {:induction false} StoredDifference(p: nat, q: nat)
    requires q <= p < q + SIZE_LIMIT
    ensures Sub64(Stored(p), Stored(q)) == p - q
  {
  }

  /** `size - (sendPos - cached)` on the stored counters. */
  function SafeToWrite(size: Word64, sendPos: Word64, cached: Word64): Word64 {
    Sub64(size, Sub64(sendPos, cached))
  }

  /** Under flow control the computed space is the true free space, across overflow of either counter. */
  lemma {:induction false} FreeSpaceIsTrue(size: Word64, sent: nat, cached: nat)
    requires cached <= sent <= cached + size
    ensures SafeToWrite(size, Stored(sent), Stored(cached)) == size - (sent - cached)
  {
    StoredDifference(sent, cached);
  }
}
