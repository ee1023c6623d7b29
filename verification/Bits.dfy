/** Bit arithmetic on natural numbers, and the bit tricks of the source. */
module Bits {
  import opened TreeHashing

  /** a & b, where a negative b is in two's complement without end, as in Python. */
  function And(a: nat, b: int): nat {
    if a == 0 then 0 else 2 * And(a / 2, b / 2) + (if a % 2 == 1 && b % 2 == 1 then 1 else 0)
  }

  /** The number of one bits of n. */
  function BitCount(n: nat): nat {
    if n == 0 then 0 else n % 2 + BitCount(n / 2)
  }

  /** One more than the index of the lowest one bit of n, or 0 if there is none. */
  function LowestBit(n: nat): nat {
    if n == 0 then 0 else if n % 2 == 1 then 1 else 1 + LowestBit(n / 2)
  }

  /** n & (n - 1) clears the lowest one bit. */
  lemma {:induction false} ClearLowest(n: nat)
    requires n > 0
    ensures BitCount(And(n, n - 1)) == BitCount(n) - 1
    ensures And(n, n - 1) < n
  {
    if n % 2 == 1 {
      AndSelf(n / 2);
    } else {
      assert (n - 1) / 2 == n / 2 - 1;
      ClearLowest(n / 2);
    }
  }

  lemma {:induction false} AndSelf(n: nat)
    ensures And(n, n) == n
  {
    if n > 0 {
      AndSelf(n / 2);
    }
  }

  lemma {:induction false} OneBit(n: nat)
    ensures IsPowerOfTwo(n) <==> BitCount(n) == 1
  {
    if n > 1 {
      OneBit(n / 2);
      ZeroBits(n / 2);
    }
  }

  lemma {:induction false} ZeroBits(n: nat)
    ensures n == 0 <==> BitCount(n) == 0
  {
    if n > 0 {
      ZeroBits(n / 2);
    }
  }

  /** The bit test of `IsPowerOfTwoPlusOne` is a test for a power of two. */
  lemma AndTestsPowerOfTwo(n: nat)
    requires n > 0
    ensures And(n, n - 1) == 0 <==> IsPowerOfTwo(n)
  {
    ClearLowest(n);
    ZeroBits(And(n, n - 1));
    OneBit(n);
  }

  /** `count_bits_set`. */
  method CountBitsSet(n: nat) returns (count: nat)
    ensures count == BitCount(n)
  {
    count := 0;
    var i := n;
    while i != 0
      invariant 0 <= i
      invariant count + BitCount(i) == BitCount(n)
      decreases i
    {
      ClearLowest(i);
      i := And(i, i - 1);
      count := count + 1;
    }
  }

  /** n with all bits above its lowest one bit cleared. */
  function LowestPower(n: nat): nat {
    if n == 0 then 0 else if n % 2 == 1 then 1 else 2 * LowestPower(n / 2)
  }

  /** n & -n keeps the lowest one bit alone. */
  lemma {:induction false} AndNegated(n: nat)
    ensures And(n, -(n as int)) == LowestPower(n)
  {
    var m: int := n;
    if n % 2 == 1 {
      assert -m / 2 == -(m / 2) - 1;
      AndComplement(n / 2);
    } else if n > 0 {
      assert -m / 2 == -(m / 2);
      AndNegated(n / 2);
    }
  }

  /** A number and its complement have no bit in common. */
  lemma {:induction false} AndComplement(n: nat)
    ensures And(n, -(n as int) - 1) == 0
  {
    var m: int := n;
    if n > 0 {
      assert (-m - 1) / 2 == -(m / 2) - 1 && (-m - 1) % 2 == 1 - m % 2;
      AndComplement(n / 2);
    }
  }

  lemma {:induction false} LowestPowerBit(n: nat)
    ensures n > 0 ==> IsPowerOfTwo(LowestPower(n)) && LowestPower(n) <= n
    ensures LowestBit(LowestPower(n)) == LowestBit(n)
  {
    if n > 0 && n % 2 == 0 {
      LowestPowerBit(n / 2);
    }
  }

  /** `lowest_bit_set`. */
  method LowestBitSet(n: nat) returns (lowBit: nat)
    ensures lowBit == LowestBit(n)
  {
    LowestPowerBit(n);
    AndNegated(n);
    var low := And(n, -(n as int));
    lowBit := 0;
    while low != 0
      invariant low == 0 || IsPowerOfTwo(low)
      invariant lowBit + LowestBit(low) == LowestBit(n)
      decreases low
    {
      low := low / 2;
      lowBit := lowBit + 1;
    }
  }
}
