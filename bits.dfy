/**
 * Bits of unsigned integers, written arithmetically: bit `s` of `x` is the
 * source's `x & (1 << s)`, and Popcount64c is the source's population count
 * (src/Writer.cpp:13-24) stated by what it computes.
 */
module Bits {

  /** 1 << n */
  function Pow2(n: nat): (r: nat)
    ensures r >= 1
  {
    if n == 0 then 1 else 2 * Pow2(n - 1)
  }

  /** (x & (1 << s)) != 0 */
  predicate Bit(x: nat, s: nat)
    decreases s
  {
    if s == 0 then x % 2 == 1 else Bit(x / 2, s - 1)
  }

  /** Number of set bits of x, one bit at a time from the bottom. */
  function Popcount64c(x: nat): (r: nat)
    ensures r <= x
    ensures r == 0 <==> x == 0
    decreases x
  {
    if x == 0 then 0 else x % 2 + Popcount64c(x / 2)
  }

  /** Reference count: how many of bits 0..n-1 of x are set. */
  function CountBits(x: nat, n: nat): nat
  {
    if n == 0 then 0 else CountBits(x, n - 1) + (if Bit(x, n - 1) then 1 else 0)
  }

  lemma {:induction false} Pow2Add(a: nat, b: nat)
    ensures Pow2(a + b) == Pow2(a) * Pow2(b)
    decreases a
  {
    if a > 0 {
      Pow2Add(a - 1, b);
    }
  }

  lemma {:induction false} Pow2Monotone(a: nat, b: nat)
    requires a <= b
    ensures Pow2(a) <= Pow2(b)
    decreases b
  {
    if a < b {
      Pow2Monotone(a, b - 1);
    }
  }

  lemma {:induction false} CountBitsShift(x: nat, n: nat)
    ensures CountBits(x, n + 1) == x % 2 + CountBits(x / 2, n)
    decreases n
  {
    if n > 0 {
      CountBitsShift(x, n - 1);
    }
  }

  /** Popcount64c(x) is the number of set bits among the n bits of x. */
  lemma {:induction false} PopcountCountsBits(x: nat, n: nat)
    requires x < Pow2(n)
    ensures Popcount64c(x) == CountBits(x, n)
    decreases n
  {
    if n == 0 {
    } else {
      PopcountCountsBits(x / 2, n - 1);
      CountBitsShift(x, n - 1);
    }
  }

  /** A number below 2^n has no set bit at or above n. */
  lemma {:induction false} BitBelow(x: nat, n: nat, s: nat)
    requires x < Pow2(n) && Bit(x, s)
    ensures s < n
    decreases s
  {
    if s > 0 {
      if n == 0 {
        assert x == 0;
        ZeroHasNoBit(s);
      } else {
        BitBelow(x / 2, n - 1, s - 1);
      }
    }
  }

  lemma {:induction false} ZeroHasNoBit(s: nat)
    ensures !Bit(0, s)
    decreases s
  {
    if s > 0 {
      ZeroHasNoBit(s - 1);
    }
  }

  /** An odd number loses its low bit when 1 is taken off. */
  lemma HalveOdd(x: nat)
    requires x % 2 == 1
    ensures (x - 1) / 2 == x / 2 && (x - 1) % 2 == 0
  {
  }

  /** Taking 2p off x takes p off its half and keeps its low bit. */
  lemma HalveSub(x: nat, p: nat)
    requires x / 2 >= p
    ensures x >= 2 * p && (x - 2 * p) / 2 == x / 2 - p && (x - 2 * p) % 2 == x % 2
  {
  }

  /** A number with bit s set is at least 2^s. */
  lemma {:induction false} BitAtLeast(x: nat, s: nat)
    requires Bit(x, s)
    ensures x >= Pow2(s)
    decreases s
  {
    if s > 0 {
      BitAtLeast(x / 2, s - 1);
    }
  }

  /** Clearing a set bit subtracts 2^s and changes no other bit. */
  lemma {:induction false} BitClear(x: nat, s: nat)
    requires Bit(x, s)
    ensures x >= Pow2(s)
    ensures forall t: nat :: Bit(x - Pow2(s), t) <==> t != s && Bit(x, t)
    decreases s
  {
    if s == 0 {
      HalveOdd(x);
      forall t: nat ensures Bit(x - 1, t) <==> t != 0 && Bit(x, t) {
        if t > 0 {
          assert Bit(x - 1, t) == Bit((x - 1) / 2, t - 1);
        }
      }
    } else {
      BitClear(x / 2, s - 1);
      var p := Pow2(s - 1);
      HalveSub(x, p);
      var y := x - Pow2(s);
      assert y == x - 2 * p;
      forall t: nat ensures Bit(y, t) <==> t != s && Bit(x, t) {
        if t > 0 {
          assert Bit(y, t) == Bit(y / 2, t - 1);
        }
      }
    }
  }

  /** Clearing bit s leaves it clear. */
  lemma {:induction false} BitCleared(x: nat, s: nat)
    requires Bit(x, s)
    ensures x >= Pow2(s) && !Bit(x - Pow2(s), s)
    decreases s
  {
    if s == 0 {
      HalveOdd(x);
    } else {
      BitCleared(x / 2, s - 1);
      var p := Pow2(s - 1);
      HalveSub(x, p);
      var y := x - Pow2(s);
      assert y == x - 2 * p;
      assert Bit(y, s) == Bit(y / 2, s - 1);
    }
  }

  /** Clearing a set bit lowers the population count by one. */
  lemma {:induction false} PopcountClear(x: nat, s: nat)
    requires Bit(x, s)
    ensures x >= Pow2(s)
    ensures Popcount64c(x - Pow2(s)) + 1 == Popcount64c(x)
    decreases s
  {
    if s == 0 {
      HalveOdd(x);
    } else {
      PopcountClear(x / 2, s - 1);
      var p := Pow2(s - 1);
      HalveSub(x, p);
      var y := x - Pow2(s);
      assert y == x - 2 * p;
      assert Popcount64c(y) == y % 2 + Popcount64c(y / 2);
    }
  }

  /** Bits of a + 2^k * b: the low k bits are a's, the rest are b's. */
  lemma {:induction false} BitSplit(a: nat, b: nat, k: nat, s: nat)
    requires a < Pow2(k)
    ensures Bit(a + Pow2(k) * b, s) <==> if s < k then Bit(a, s) else Bit(b, s - k)
    decreases k
  {
    if k > 0 {
      var m := Pow2(k - 1) * b;
      DoubleTimes(k, b);
      Halve(a, m);
      if s > 0 {
        BitSplit(a / 2, b, k - 1, s - 1);
      }
    }
  }

  /** 2^k * b is twice 2^(k-1) * b. */
  lemma DoubleTimes(k: nat, b: nat)
    requires k > 0
    ensures Pow2(k) * b == 2 * (Pow2(k - 1) * b)
  {
    var p := Pow2(k - 1);
    assert Pow2(k) == 2 * p;
  }

  /** Halving a + 2m halves a and keeps m whole. */
  lemma Halve(a: nat, m: nat)
    ensures (a + 2 * m) / 2 == a / 2 + m && (a + 2 * m) % 2 == a % 2
  {
  }

  /** A positive number has a set bit below any bound it lies under. */
  lemma {:induction false} SomeBitSet(x: nat, n: nat) returns (s: nat)
    requires 0 < x < Pow2(n)
    ensures s < n && Bit(x, s)
    decreases n
  {
    if x % 2 == 1 {
      s := 0;
    } else {
      var s' := SomeBitSet(x / 2, n - 1);
      s := s' + 1;
    }
  }

  /** (1 << n) - 1 */
  function Mask(n: nat): nat
  {
    Pow2(n) - 1
  }

  /** 2^n - 1 has exactly the bits 0..n-1 set. */
  lemma {:induction false} AllOnes(n: nat)
    ensures Popcount64c(Mask(n)) == n
    ensures forall s: nat :: Bit(Mask(n), s) <==> s < n
    decreases n
  {
    if n == 0 {
      forall s: nat ensures !Bit(0, s) {
        ZeroHasNoBit(s);
      }
    } else {
      AllOnes(n - 1);
      var x := Mask(n);
      assert x / 2 == Mask(n - 1) && x % 2 == 1;
      forall s: nat ensures Bit(x, s) <==> s < n {
        if s > 0 {
          assert Bit(x, s) == Bit(x / 2, s - 1);
        }
      }
    }
  }
}
