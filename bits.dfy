/**
  Bitwise arithmetic on non-negative integers, as Python's unbounded `int`
  performs it. A critic's preference mask is such an integer; the operators
  `^`, `&`, `|` and `1 << k` used by the pairing engine are defined here digit
  by digit in base two, and each is related to `Bit`, the i-th binary digit.
*/
module Bits {

  /** The value of `1 << k`. */
  function Pow2(k: nat): (r: nat)
    ensures r >= 1
  {
    if k == 0 then 1 else 2 * Pow2(k - 1)
  }

  /** Bit `i` of `x` (bit 0 is the least significant). */
  predicate Bit(x: nat, i: nat)
  {
    if i == 0 then x % 2 == 1 else Bit(x / 2, i - 1)
  }

  /** Python's `a ^ b`. */
  function Xor(a: nat, b: nat): nat
    decreases a + b
  {
    if a == 0 && b == 0 then 0
    else 2 * Xor(a / 2, b / 2) + (if a % 2 != b % 2 then 1 else 0)
  }

  /** Python's `a & b`. */
  function And(a: nat, b: nat): nat
    decreases a + b
  {
    if a == 0 || b == 0 then 0
    else 2 * And(a / 2, b / 2) + (if a % 2 == 1 && b % 2 == 1 then 1 else 0)
  }

  /** Python's `a | b`. */
  function Or(a: nat, b: nat): nat
    decreases a + b
  {
    if a == 0 && b == 0 then 0
    else 2 * Or(a / 2, b / 2) + (if a % 2 == 1 || b % 2 == 1 then 1 else 0)
  }

  /** The number of set bits of `x`. */
  function Popcount(x: nat): nat
  {
    if x == 0 then 0 else x % 2 + Popcount(x / 2)
  }

  /** The number of bit positions in which `a` and `b` differ. */
  function HammingDistance(a: nat, b: nat): nat
  {
    Popcount(Xor(a, b))
  }

  // ---------------------------------------------------------------------------
  // Each operator, read bit by bit

  lemma {:induction false} BitOfZero(i: nat)
    ensures !Bit(0, i)
  {
    if i > 0 {
      BitOfZero(i - 1);
    }
  }

  lemma {:induction false} BitOfPow2(k: nat, i: nat)
    ensures Bit(Pow2(k), i) <==> i == k
  {
    if i == 0 {
    } else if k == 0 {
      BitOfZero(i - 1);
    } else {
      BitOfPow2(k - 1, i - 1);
    }
  }

  lemma {:induction false} BitOfXor(a: nat, b: nat, i: nat)
    ensures Bit(Xor(a, b), i) <==> Bit(a, i) != Bit(b, i)
    decreases i
  {
    if a == 0 && b == 0 {
      BitOfZero(i);
    } else if i > 0 {
      BitOfXor(a / 2, b / 2, i - 1);
    }
  }

  lemma {:induction false} BitOfAnd(a: nat, b: nat, i: nat)
    ensures Bit(And(a, b), i) <==> Bit(a, i) && Bit(b, i)
    decreases i
  {
    if a == 0 || b == 0 {
      BitOfZero(i);
    } else if i > 0 {
      BitOfAnd(a / 2, b / 2, i - 1);
    }
  }

  lemma {:induction false} BitOfOr(a: nat, b: nat, i: nat)
    ensures Bit(Or(a, b), i) <==> Bit(a, i) || Bit(b, i)
    decreases i
  {
    if a == 0 && b == 0 {
      BitOfZero(i);
    } else if i > 0 {
      BitOfOr(a / 2, b / 2, i - 1);
    }
  }

  /** Two numbers with the same bits are equal. */
  lemma {:induction false} BitsDetermineValue(a: nat, b: nat)
    requires forall i: nat :: Bit(a, i) <==> Bit(b, i)
    ensures a == b
    decreases a + b
  {
    assert Bit(a, 0) <==> Bit(b, 0);
    if a != 0 || b != 0 {
      forall i: nat
        ensures Bit(a / 2, i) <==> Bit(b / 2, i)
      {
        assert Bit(a, i + 1) <==> Bit(b, i + 1);
      }
      BitsDetermineValue(a / 2, b / 2);
    }
  }

  // ---------------------------------------------------------------------------
  // Algebra used by the engine

  lemma {:induction false} XorIsZeroIff(a: nat, b: nat)
    ensures Xor(a, b) == 0 <==> a == b
    decreases a + b
  {
    if a != 0 || b != 0 {
      XorIsZeroIff(a / 2, b / 2);
    }
  }

  lemma {:induction false} XorCommutes(a: nat, b: nat)
    ensures Xor(a, b) == Xor(b, a)
    decreases a + b
  {
    if a != 0 || b != 0 {
      XorCommutes(a / 2, b / 2);
    }
  }

  /** Flipping the bits in which `a` and `b` differ turns `a` into `b`. */
  lemma XorCancels(a: nat, b: nat)
    ensures Xor(a, Xor(a, b)) == b
  {
    forall i: nat
      ensures Bit(Xor(a, Xor(a, b)), i) <==> Bit(b, i)
    {
      BitOfXor(a, Xor(a, b), i);
      BitOfXor(a, b, i);
    }
    BitsDetermineValue(Xor(a, Xor(a, b)), b);
  }

  lemma {:induction false} AndSelf(a: nat)
    ensures And(a, a) == a
  {
    if a != 0 {
      AndSelf(a / 2);
    }
  }

  lemma {:induction false} OrZero(a: nat)
    ensures Or(a, 0) == a
  {
    if a != 0 {
      OrZero(a / 2);
    }
  }

  lemma {:induction false} PopcountPositive(x: nat)
    ensures Popcount(x) == 0 <==> x == 0
  {
    if x != 0 {
      PopcountPositive(x / 2);
    }
  }

  /** `x & (x - 1) == 0` is the power-of-two test: for `x >= 1` it holds exactly
      when `x` has a single set bit. */
  lemma {:induction false} PowerOfTwoTest(x: nat)
    requires x >= 1
    ensures And(x, x - 1) == 0 <==> Popcount(x) == 1
  {
    if x == 1 {
    } else if x % 2 == 1 {
      assert (x - 1) / 2 == x / 2;
      AndSelf(x / 2);
      PopcountPositive(x / 2);
    } else {
      assert (x - 1) / 2 == x / 2 - 1;
      PowerOfTwoTest(x / 2);
    }
  }

  /** A number has a single set bit exactly when it is a power of two. */
  lemma {:induction false} SingleBitIsPow2(x: nat) returns (k: nat)
    requires Popcount(x) == 1
    ensures x == Pow2(k)
  {
    if x % 2 == 1 {
      PopcountPositive(x / 2);
      k := 0;
    } else {
      k := SingleBitIsPow2(x / 2);
      k := k + 1;
    }
  }

  lemma {:induction false} PopcountOfPow2(k: nat)
    ensures Popcount(Pow2(k)) == 1
  {
    if k > 0 {
      PopcountOfPow2(k - 1);
      PopcountAppendDigit(Pow2(k - 1), 0);
    }
  }

  /** Setting a clear bit adds one to the population count. */
  lemma {:induction false} PopcountSetBit(x: nat, k: nat)
    requires !Bit(x, k)
    ensures Popcount(Or(x, Pow2(k))) == Popcount(x) + 1
  {
    var p := Pow2(k);
    assert Or(x, p) == 2 * Or(x / 2, p / 2) + (if x % 2 == 1 || p % 2 == 1 then 1 else 0);
    if k == 0 {
      OrZero(x / 2);
      PopcountAppendDigit(x / 2, 1);
    } else {
      assert p / 2 == Pow2(k - 1) && p % 2 == 0;
      PopcountSetBit(x / 2, k - 1);
      PopcountAppendDigit(Or(x / 2, p / 2), x % 2);
    }
  }

  /** Appending the binary digit `d` to `y` adds `d` set bits. */
  lemma PopcountAppendDigit(y: nat, d: nat)
    requires d < 2
    ensures Popcount(2 * y + d) == Popcount(y) + d
  {
    var z := 2 * y + d;
    assert z / 2 == y && z % 2 == d;
  }

  /** The population counts of `a` and `b` differ by at most the number of
      bits in which they differ, and by an amount of the same parity. */
  lemma {:induction false} PopcountDifferenceBound(a: nat, b: nat)
    ensures Popcount(a) <= Popcount(b) + HammingDistance(a, b)
    ensures Popcount(b) <= Popcount(a) + HammingDistance(a, b)
    ensures (Popcount(a) + Popcount(b) + HammingDistance(a, b)) % 2 == 0
    decreases a + b
  {
    if a != 0 || b != 0 {
      PopcountDifferenceBound(a / 2, b / 2);
      var d := if a % 2 != b % 2 then 1 else 0;
      XorStep(a, b);
      PopcountAppendDigit(Xor(a / 2, b / 2), d);
      assert a == 2 * (a / 2) + a % 2 && b == 2 * (b / 2) + b % 2;
      PopcountAppendDigit(a / 2, a % 2);
      PopcountAppendDigit(b / 2, b % 2);
      ParityStep(Popcount(a / 2), Popcount(b / 2), HammingDistance(a / 2, b / 2), a % 2, b % 2, d);
    }
  }

  lemma XorStep(a: nat, b: nat)
    ensures Xor(a, b) == 2 * Xor(a / 2, b / 2) + (if a % 2 != b % 2 then 1 else 0)
  {
  }

  lemma ParityStep(pa: nat, pb: nat, h: nat, ea: nat, eb: nat, d: nat)
    requires (pa + pb + h) % 2 == 0
    requires ea < 2 && eb < 2 && d == (if ea != eb then 1 else 0)
    ensures (pa + ea + pb + eb + h + d) % 2 == 0
  {
    assert pa + ea + pb + eb + h + d == (pa + pb + h) + 2 * (if ea == 1 || eb == 1 then 1 else 0);
  }
}
