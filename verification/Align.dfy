/** Bit masks on 32-bit words, and the mask form of rounding up to an alignment. */
module Align {
  import opened Bytes

  function Pow2(k: nat): (p: nat)
    ensures p >= 1
  {
    if k == 0 then 1 else 2 * Pow2(k - 1)
  }

  ghost predicate PowerOfTwo(a: int) {
    exists k: nat :: a == Pow2(k)
  }

  /** x AND m, bit by bit. */
  function BitAnd(x: nat, m: nat): (r: nat)
    ensures r <= x
    decreases x
  {
    if x == 0 then 0
    else 2 * BitAnd(x / 2, m / 2) + (if x % 2 == 1 && m % 2 == 1 then 1 else 0)
  }

  /** x AND NOT m, bit by bit. */
  function AndNot(x: nat, m: nat): (r: nat)
    ensures r <= x
    decreases x
  {
    if x == 0 then 0
    else 2 * AndNot(x / 2, m / 2) + (if x % 2 == 1 && m % 2 == 0 then 1 else 0)
  }

  /** Bit k of x. */
  function Bit(x: nat, k: nat): bool {
    if k == 0 then x % 2 == 1 else Bit(x / 2, k - 1)
  }

  lemma {:induction false} BitOfAndNot(x: nat, m: nat, k: nat)
    ensures Bit(AndNot(x, m), k) == (Bit(x, k) && !Bit(m, k))
    decreases k
  {
    if x == 0 {
      ZeroHasNoBit(k);
    } else if k > 0 {
      BitOfAndNot(x / 2, m / 2, k - 1);
    }
  }

  /** Two words have no bit in common. */
  ghost predicate Disjoint(x: nat, m: nat) { forall k: nat :: !(Bit(x, k) && Bit(m, k)) }

  lemma DisjointStep(x: nat, m: nat)
    ensures Disjoint(x, m) <==> !(x % 2 == 1 && m % 2 == 1) && Disjoint(x / 2, m / 2)
  {
    if Disjoint(x, m) {
      assert !(Bit(x, 0) && Bit(m, 0));
      forall k: nat ensures !(Bit(x / 2, k) && Bit(m / 2, k)) { assert !(Bit(x, k + 1) && Bit(m, k + 1)); }
    }
    if !(x % 2 == 1 && m % 2 == 1) && Disjoint(x / 2, m / 2) {
      forall k: nat ensures !(Bit(x, k) && Bit(m, k)) {
        if k > 0 { assert !(Bit(x / 2, k - 1) && Bit(m / 2, k - 1)); }
      }
    }
  }

  /** That is so exactly when masking gives zero. */
  lemma {:induction false} AndIsZeroIff(x: nat, m: nat)
    ensures BitAnd(x, m) == 0 <==> Disjoint(x, m)
    decreases x
  {
    hide Disjoint;
    if x == 0 {
      ZeroDisjoint(m);
    } else {
      AndIsZeroIff(x / 2, m / 2);
      DisjointStep(x, m);
    }
  }

  lemma ZeroDisjoint(m: nat)
    ensures Disjoint(0, m)
  {
    forall k: nat ensures !Bit(0, k) { ZeroHasNoBit(k); }
  }

  lemma BitDouble(x: nat, k: nat)
    ensures Bit(2 * x, k) <==> k > 0 && Bit(x, k - 1)
    ensures Bit(2 * x + 1, k) <==> k == 0 || Bit(x, k - 1)
  {
    assert 2 * x / 2 == x && (2 * x + 1) / 2 == x;
  }

  /** The bits of n ones. */
  lemma {:induction false} BitsOfOnes(n: nat, k: nat)
    ensures Bit(Pow2(n) - 1, k) <==> k < n
    decreases n
  {
    hide Bit, Pow2;
    if n == 0 {
      Pow2Zero();
      ZeroHasNoBit(k);
    } else {
      Pow2Next(n - 1);
      BitDouble(Pow2(n - 1) - 1, k);
      if k > 0 { BitsOfOnes(n - 1, k - 1); }
    }
  }

  /** The bits of x with j zeros behind them. */
  lemma {:induction false} BitsShifted(x: nat, j: nat, k: nat)
    ensures Shifted(x, j) == Pow2(j) * x
    ensures Bit(Shifted(x, j), k) <==> j <= k && Bit(x, k - j)
    decreases j
  {
    hide Bit, Pow2;
    if j == 0 {
      Pow2Zero();
    } else {
      Pow2Next(j - 1);
      DoubleProduct(Pow2(j - 1), x);
      BitDouble(Shifted(x, j - 1), k);
      BitsShifted(x, j - 1, if k > 0 then k - 1 else 0);
    }
  }

  function Shifted(x: nat, j: nat): nat { if j == 0 then x else 2 * Shifted(x, j - 1) }

  /** The bits of n ones with j zeros behind them. */
  lemma BitsOfRun(n: nat, j: nat, k: nat)
    ensures Bit(Pow2(j) * (Pow2(n) - 1), k) <==> j <= k < j + n
  {
    hide Bit, Pow2, Shifted;
    BitsShifted(Pow2(n) - 1, j, k);
    if j <= k { BitsOfOnes(n, k - j); }
  }

  /** A power of two has one bit. */
  lemma BitOfPow2(j: nat, k: nat)
    ensures Bit(Pow2(j), k) <==> j == k
  {
    hide Bit, Pow2;
    Pow2Zero();
    Pow2Next(0);
    BitsOfRun(1, j, k);
  }

  lemma {:induction false} ZeroHasNoBit(k: nat)
    ensures !Bit(0, k)
  {
    if k > 0 { ZeroHasNoBit(k - 1); }
  }

  lemma {:induction false} Pow2Monotone(j: nat, k: nat)
    requires j <= k
    ensures Pow2(j) <= Pow2(k)
    decreases k
  {
    if j < k { Pow2Monotone(j, k - 1); }
  }

  lemma {:induction false} Pow2Split(j: nat, k: nat)
    ensures Pow2(j + k) == Pow2(j) * Pow2(k)
    decreases k
  {
    hide *;
    if k == 0 {
      Pow2Zero();
    } else {
      Pow2Split(j, k - 1);
      Pow2Next(j + k - 1);
      Pow2Next(k - 1);
      DoubleProduct(Pow2(j), Pow2(k - 1));
    }
  }

  lemma Pow2Zero()
    ensures Pow2(0) == 1
  {}

  lemma Pow2Next(k: nat)
    ensures Pow2(k + 1) == 2 * Pow2(k)
  {}

  lemma DoubleProduct(p: int, q: int)
    ensures 2 * (p * q) == p * (2 * q)
  {}

  /** A power of two that fits in 32 bits is at most 2^31. */
  lemma PowerOfTwoBound(a: u32)
    requires PowerOfTwo(a)
    ensures 1 <= a <= 0x8000_0000
  {
    var k: nat :| a == Pow2(k);
    Pow2Of32();
    if k >= 32 { Pow2Monotone(32, k); } else { Pow2Monotone(k, 31); }
  }

  lemma Pow2Of32()
    ensures Pow2(32) == W32 && Pow2(31) == 0x8000_0000
  {
    assert Pow2(2) == 4 && Pow2(4) == 16 by { Pow2Split(2, 2); }
    assert Pow2(8) == 256 by { Pow2Split(4, 4); }
    assert Pow2(16) == 65536 by { Pow2Split(8, 8); }
    assert Pow2(32) == W32 by { Pow2Split(16, 16); }
    assert Pow2(32) == 2 * Pow2(31);
  }

  // ---------------------------------------------------------------- multiples

  lemma ModHalves(x: nat, p: nat)
    requires p >= 1
    ensures x % (2 * p) == 2 * (x / 2 % p) + x % 2
  {
    var h := x / 2;
    var q := h / p;
    assert h == q * p + h % p;
    assert x == (2 * p) * q + (2 * (h % p) + x % 2);
    ModUnique(x, 2 * p, q, 2 * (h % p) + x % 2);
  }

  /** Distinct multiples of d are at least d apart. */
  lemma MulStep(d: int, i: int, j: int)
    requires d > 0 && i < j
    ensures d * i + d <= d * j
  {
    var t := j - i - 1;
    assert d * t >= 0;
    assert d * j == d * i + d * t + d;
  }

  lemma ModUnique(x: int, d: int, q: int, r: int)
    requires d > 0 && x == d * q + r && 0 <= r < d
    ensures x % d == r && x / d == q
  {
    var q1 := x / d;
    var r1 := x - d * q1;
    assert 0 <= r1 < d && x % d == r1;
    if q > q1 {
      MulStep(d, q1, q);
    } else if q < q1 {
      MulStep(d, q, q1);
    }
  }

  /** Clearing the low k bits subtracts the remainder modulo 2^k. */
  lemma {:induction false} AndNotLowMask(x: nat, k: nat)
    ensures AndNot(x, Pow2(k) - 1) == x - x % Pow2(k)
    decreases k
  {
    hide AndNot;
    if k == 0 {
      AndNotNothing(x);
    } else if x == 0 {
      assert AndNot(0, Pow2(k) - 1) <= 0;
      ModUnique(0, Pow2(k), 0, 0);
    } else {
      AndNotLowMask(x / 2, k - 1);
      AndNotLowMaskStep(x, Pow2(k - 1));
    }
  }

  lemma AndNotLowMaskStep(x: nat, p: nat)
    requires x > 0 && p >= 1
    requires AndNot(x / 2, p - 1) == x / 2 - x / 2 % p
    ensures AndNot(x, 2 * p - 1) == x - x % (2 * p)
  {
    hide *;
    var h, r := x / 2, x / 2 % p;
    assert AndNot(x, 2 * p - 1) == 2 * (h - r) by { AndNotOddMask(x, p - 1); }
    assert x % (2 * p) == 2 * r + x % 2 by { ModHalves(x, p); }
  }

  lemma AndNotOddMask(x: nat, m: nat)
    requires x > 0
    ensures AndNot(x, 2 * m + 1) == 2 * AndNot(x / 2, m)
  {
    assert (2 * m + 1) / 2 == m && (2 * m + 1) % 2 == 1;
  }

  lemma {:induction false} AndNotNothing(x: nat)
    ensures AndNot(x, 0) == x
    decreases x
  {
    if x > 0 { AndNotNothing(x / 2); }
  }

  // ---------------------------------------------------------------- alignUp

  /** Go: (v + a - 1) &^ (a - 1) on uint32, and v itself when a is zero. */
  function AlignUp(v: u32, a: u32): u32 {
    if a == 0 then v
    else
      var s := if v + a - 1 < W32 then v + a - 1 else v + a - 1 - W32;
      AndNot(s, a - 1)
  }

  /** r is the least multiple of a that is not below v. */
  ghost predicate LeastMultiple(r: int, v: int, a: int)
    requires a > 0
  {
    r % a == 0 && v <= r < v + a
  }

  lemma LeastMultipleIsLeast(r: int, v: int, a: int, m: int)
    requires a > 0 && LeastMultiple(r, v, a) && m % a == 0 && v <= m
    ensures r <= m
  {
    var i, j := r / a, m / a;
    assert r == a * i && m == a * j;
    if j < i {
      MulStep(a, j, i);
    }
  }

  /** The mask computes the least multiple exactly when the addition does not wrap. */
  lemma AlignUpExact(v: u32, a: u32)
    requires PowerOfTwo(a)
    ensures v + a <= W32 ==> LeastMultiple(AlignUp(v, a), v, a)
    ensures v + a > W32 ==> AlignUp(v, a) == 0 < v
    ensures v + a <= W32 <==> v <= AlignUp(v, a)
  {
    hide AndNot, Pow2;
    var k: nat :| a == Pow2(k);
    var s := v + a - 1;
    if s < W32 {
      assert AlignUp(v, a) == s - s % a by { AndNotLowMask(s, k); }
      assert LeastMultiple(s - s % a, v, a) by { hide *; MaskIsMultiple(s, a); ModBounds(s, a); }
    } else {
      assert AlignUp(v, a) == (s - W32) - (s - W32) % a by { AndNotLowMask(s - W32, k); }
      assert (s - W32) % a == s - W32 by { hide *; ModUnique(s - W32, a, 0, s - W32); }
    }
  }

  lemma ModBounds(s: int, a: int)
    requires a > 0
    ensures 0 <= s % a < a
  {}

  lemma MaskIsMultiple(s: int, a: int)
    requires a > 0 && s >= 0
    ensures (s - s % a) % a == 0
  {
    assert s == a * (s / a) + s % a;
    ModUnique(s - s % a, a, s / a, 0);
  }

  /** Rounding up an already rounded value changes nothing. */
  lemma AlignUpFixed(v: u32, a: u32)
    requires PowerOfTwo(a) && v % a == 0 && v + a <= W32
    ensures AlignUp(v, a) == v
  {
    AlignUpExact(v, a);
    LeastMultipleIsLeast(AlignUp(v, a), v, a, v);
  }

  lemma MultiplesAdd(x: int, y: int, a: int)
    requires a > 0 && x % a == 0 && y % a == 0
    ensures (x + y) % a == 0
  {
    assert x == a * (x / a) && y == a * (y / a);
    ModUnique(x + y, a, x / a + y / a, 0);
  }

  /** A multiple of a below 2^32 is at least a below it. */
  lemma BelowTop(x: u32, a: u32)
    requires PowerOfTwo(a) && a > 0 && x % a == 0
    ensures x + a <= W32
  {
    PowerOfTwoBound(a);
    var k: nat :| a == Pow2(k);
    Pow2Of32();
    if k > 31 { Pow2Monotone(32, k); }
    Pow2Split(k, 32 - k);
    var m := Pow2(32 - k);
    TopDistance(x, a, m);
  }

  lemma TopDistance(x: int, a: int, m: int)
    requires a > 0 && x % a == 0 && x < a * m
    ensures x + a <= a * m
  {
    var q := x / a;
    assert x == a * q;
    if q < m { MulStep(a, q, m); } else { MulOrder(a, m, q); }
  }

  lemma MulOrder(a: int, m: int, q: int)
    requires a > 0 && m <= q
    ensures a * m <= a * q
  {
    if m < q { MulStep(a, m, q); }
  }

  lemma MultiplesSubtract(x: int, y: int, a: int)
    requires a > 0 && x % a == 0 && y % a == 0
    ensures (x - y) % a == 0
  {
    assert x == a * (x / a) && y == a * (y / a);
    ModUnique(x - y, a, x / a - y / a, 0);
  }

  lemma TopIsMultiple(a: u32)
    requires PowerOfTwo(a) && a > 0
    ensures W32 % a == 0
  {
    var k: nat :| a == Pow2(k);
    Pow2Of32();
    if k > 31 { Pow2Monotone(32, k); }
    Pow2Split(k, 32 - k);
    ModUnique(W32, a, Pow2(32 - k), 0);
  }

  /** A positive multiple of a is at least a. */
  lemma DivisorBound(x: int, a: int)
    requires a > 0 && x > 0 && x % a == 0
    ensures a <= x
  {
    assert x == a * (x / a);
    if x / a >= 1 { MulOrder(a, 1, x / a); }
  }

  lemma HalfIsMultiple(a: u32)
    requires PowerOfTwo(a) && 0 < a <= 0x8000_0000
    ensures 0x8000_0000 % a == 0
  {
    var k: nat :| a == Pow2(k);
    Pow2Of32();
    if k > 31 { Pow2Monotone(32, k); }
    Pow2Split(k, 31 - k);
    ModUnique(0x8000_0000, a, Pow2(31 - k), 0);
  }

  // ---------------------------------------------------------------- masks of 32 bits

  lemma {:induction false} MaskIsNot(x: nat, m: nat, n: nat)
    requires x < Pow2(n) && m < Pow2(n)
    ensures BitAnd(x, Pow2(n) - 1 - m) == AndNot(x, m)
    decreases n
  {
    hide Pow2;
    if x > 0 {
      if n > 0 { Pow2Next(n - 1); } else { Pow2Zero(); }
      MaskHalves(m, n);
      MaskIsNot(x / 2, m / 2, n - 1);
    }
  }

  lemma MaskHalves(m: nat, n: nat)
    requires n > 0 && m < Pow2(n)
    ensures (Pow2(n) - 1 - m) / 2 == Pow2(n - 1) - 1 - m / 2 && m / 2 < Pow2(n - 1)
    ensures (Pow2(n) - 1 - m) % 2 == 1 - m % 2
  {
    hide Pow2;
    Pow2Next(n - 1);
  }

  lemma {:induction false} AndNotIsClear(x: nat, m: nat)
    ensures BitAnd(AndNot(x, m), m) == 0
    decreases x
  {
    if x == 0 {
    } else {
      AndNotIsClear(x / 2, m / 2);
    }
  }

  /** x OR m, bit by bit. */
  function BitOr(x: nat, m: nat): (r: nat)
    decreases x + m
  {
    if x == 0 && m == 0 then 0
    else 2 * BitOr(x / 2, m / 2) + (if x % 2 == 1 || m % 2 == 1 then 1 else 0)
  }

  lemma {:induction false} BitOfBitOr(x: nat, m: nat, k: nat)
    ensures Bit(BitOr(x, m), k) == (Bit(x, k) || Bit(m, k))
    decreases k
  {
    if x == 0 && m == 0 {
      ZeroHasNoBit(k);
    } else if k > 0 {
      BitOfBitOr(x / 2, m / 2, k - 1);
    }
  }

  lemma {:induction false} BitOrBound(x: nat, m: nat, n: nat)
    requires x < Pow2(n) && m < Pow2(n)
    ensures BitOr(x, m) < Pow2(n)
    decreases n
  {
    if x == 0 && m == 0 {
    } else {
      BitOrBound(x / 2, m / 2, n - 1);
    }
  }

  /** x OR m on 32 bits. */
  function Or32(x: u32, m: u32): u32 {
    Pow2Of32();
    BitOrBound(x, m, 32);
    BitOr(x, m)
  }

  lemma BitOfOr32(x: u32, m: u32, k: nat)
    ensures Bit(Or32(x, m), k) == (Bit(x, k) || Bit(m, k))
  {
    hide Bit, BitOr;
    BitOfBitOr(x, m, k);
  }
}
