/** The bitwise operators of the source, as functions on the bits of natural numbers. */
module Bits {
  import opened Arithmetic

  function BitAnd(a: nat, b: nat): (c: nat)
    ensures c <= a && c <= b
  {
    if a == 0 || b == 0 then 0
    else 2 * BitAnd(a / 2, b / 2) + if a % 2 == 1 && b % 2 == 1 then 1 else 0
  }

  function BitXor(a: nat, b: nat): nat
    decreases a + b
  {
    if a == 0 && b == 0 then 0
    else 2 * BitXor(a / 2, b / 2) + if a % 2 != b % 2 then 1 else 0
  }

  function BitOr(a: nat, b: nat): nat
    decreases a + b
  {
    if a == 0 && b == 0 then 0
    else 2 * BitOr(a / 2, b / 2) + if a % 2 == 1 || b % 2 == 1 then 1 else 0
  }

  /** Bit k of a number. */
  predicate Bit(a: nat, k: nat) {
    if k == 0 then a % 2 == 1 else Bit(a / 2, k - 1)
  }

  /** The operators work on every bit by itself. */
  lemma {:induction false} Bitwise(a: nat, b: nat, k: nat)
    ensures Bit(BitAnd(a, b), k) <==> Bit(a, k) && Bit(b, k)
    ensures Bit(BitOr(a, b), k) <==> Bit(a, k) || Bit(b, k)
    ensures Bit(BitXor(a, b), k) <==> Bit(a, k) != Bit(b, k)
  {
    AndParts(a, b);
    OrParts(a, b);
    XorParts(a, b);
    if k == 0 {
    } else {
      Bitwise(a / 2, b / 2, k - 1);
    }
  }

  lemma {:induction false} BitIsDigit(a: nat, k: nat)
    ensures Pow(2, k) > 0 && (Bit(a, k) <==> a / Pow(2, k) % 2 == 1)
  {
    PowPositive(2, k);
    if k == 0 {
    } else {
      BitIsDigit(a / 2, k - 1);
      HalveFirst(a, Pow(2, k - 1));
    }
  }

  lemma {:induction false} HalveFirst(a: nat, p: nat)
    requires p > 0
    ensures a / 2 / p == a / (2 * p)
  {
    var q, r := a / 2 / p, a / 2 % p;
    assert a / 2 == p * q + r;
    assert a == (2 * p) * q + (2 * r + a % 2) by { assert (2 * p) * q == 2 * (p * q); }
    ModUnique(a, 2 * p, q, 2 * r + a % 2);
  }

  lemma {:induction false} OrParts(a: nat, b: nat)
    ensures BitOr(a, b) / 2 == BitOr(a / 2, b / 2)
    ensures BitOr(a, b) % 2 == 1 <==> a % 2 == 1 || b % 2 == 1
  {
  }

  lemma {:induction false} XorFits(a: nat, b: nat, k: nat)
    requires a < Pow(2, k) && b < Pow(2, k)
    ensures BitXor(a, b) < Pow(2, k)
  {
    if k == 0 {
    } else {
      XorFits(a / 2, b / 2, k - 1);
    }
  }

  lemma {:induction false} XorTwice(a: nat, m: nat)
    ensures BitXor(BitXor(a, m), m) == a
    decreases a + m
  {
    if a == 0 && m == 0 {
    } else {
      XorParts(a, m);
      XorParts(BitXor(a, m), m);
      XorTwice(a / 2, m / 2);
    }
  }

  lemma {:induction false} XorSymmetric(a: nat, b: nat)
    ensures BitXor(a, b) == BitXor(b, a)
    decreases a + b
  {
    if a == 0 && b == 0 {
    } else {
      XorSymmetric(a / 2, b / 2);
    }
  }

  lemma {:induction false} XorBack(a: nat, b: nat)
    ensures BitXor(a, BitXor(a, b)) == b
  {
    XorSymmetric(a, b);
    XorTwice(b, a);
    XorSymmetric(BitXor(b, a), a);
  }

  /** XOR with ones only is the complement. */
  lemma {:induction false} XorOnes(a: nat, k: nat)
    requires a < Pow(2, k)
    ensures BitXor(a, Pow(2, k) - 1) == Pow(2, k) - 1 - a
    decreases k
  {
    if k == 0 {
    } else {
      PowPositive(2, k - 1);
      XorOnes(a / 2, k - 1);
      XorOnesStep(a, Pow(2, k - 1));
    }
  }

  lemma {:induction false} XorOnesStep(a: nat, p: nat)
    requires p > 0 && a < 2 * p && BitXor(a / 2, p - 1) == p - 1 - a / 2
    ensures BitXor(a, 2 * p - 1) == 2 * p - 1 - a
  {
    OddHalf(p);
    XorParts(a, 2 * p - 1);
    HalvesDecide(BitXor(a, 2 * p - 1), 2 * p - 1 - a);
  }

  lemma {:induction false} OddHalf(p: nat)
    requires p > 0
    ensures (2 * p - 1) / 2 == p - 1 && (2 * p - 1) % 2 == 1
  {
  }

  lemma {:induction false} HalvesDecide(x: nat, y: nat)
    requires x / 2 == y / 2 && (x % 2 == 1 <==> y % 2 == 1)
    ensures x == y
  {
  }

  /** Masking twice with the same key gives back a number whose dropped bits were zero. */
  lemma {:induction false} MaskedXorTwice(a: nat, m: nat, keep: nat)
    requires BitAnd(a, keep) == a
    ensures BitAnd(BitXor(BitAnd(BitXor(a, m), keep), m), keep) == a
    decreases a + m
  {
    if a == 0 && m == 0 {
    } else {
      var x := BitXor(a, m);
      var y := BitAnd(x, keep);
      var z := BitXor(y, m);
      AndParts(a, keep);
      XorParts(a, m);
      AndParts(x, keep);
      XorParts(y, m);
      AndParts(z, keep);
      MaskedXorTwice(a / 2, m / 2, keep / 2);
    }
  }

  lemma {:induction false} AndParts(a: nat, b: nat)
    ensures BitAnd(a, b) / 2 == BitAnd(a / 2, b / 2)
    ensures BitAnd(a, b) % 2 == 1 <==> a % 2 == 1 && b % 2 == 1
  {
  }

  lemma {:induction false} XorParts(a: nat, b: nat)
    ensures BitXor(a, b) / 2 == BitXor(a / 2, b / 2)
    ensures BitXor(a, b) % 2 == 1 <==> a % 2 != b % 2
  {
  }

  lemma {:induction false} AndTwice(a: nat, keep: nat)
    ensures BitAnd(BitAnd(a, keep), keep) == BitAnd(a, keep)
  {
    if a == 0 || keep == 0 {
    } else {
      AndTwice(a / 2, keep / 2);
    }
  }

  lemma {:induction false} ModHalf(a: nat, m: nat)
    requires m > 0
    ensures a % (2 * m) == 2 * ((a / 2) % m) + a % 2
  {
    var q := a / 2 / m;
    assert a / 2 == m * q + (a / 2) % m;
    assert a == (2 * m) * q + (2 * ((a / 2) % m) + a % 2) by { assert (2 * m) * q == 2 * (m * q); }
    ModUnique(a, 2 * m, q, 2 * ((a / 2) % m) + a % 2);
  }

  /** The mask 2^k - 1 keeps the low k bits. */
  lemma {:induction false} AndLow(a: nat, k: nat)
    ensures Pow(2, k) > 0
    ensures BitAnd(a, Pow(2, k) - 1) == a % Pow(2, k)
    decreases k
  {
    PowPositive(2, k);
    if k == 0 {
    } else {
      AndLow(a / 2, k - 1);
      AndLowStep(a, Pow(2, k - 1));
    }
  }

  lemma {:induction false} AndLowStep(a: nat, p: nat)
    requires p > 0 && BitAnd(a / 2, p - 1) == a / 2 % p
    ensures BitAnd(a, 2 * p - 1) == a % (2 * p)
  {
    OddHalf(p);
    AndParts(a, 2 * p - 1);
    ModHalf(a, p);
    PutLastBit(a, a / 2 % p);
    HalvesDecide(BitAnd(a, 2 * p - 1), a % (2 * p));
  }

  lemma {:induction false} AndDouble(a: nat, b: nat)
    ensures BitAnd(a, 2 * b) == 2 * BitAnd(a / 2, b)
  {
    if a == 0 || b == 0 {
    } else {
      assert 2 * b / 2 == b && 2 * b % 2 == 0;
    }
  }

  lemma {:induction false} PutLastBit(a: nat, low: nat)
    ensures 2 * (a / 2 - low) == a - (2 * low + a % 2)
    ensures (2 * low + a % 2) / 2 == low && (2 * low + a % 2) % 2 == a % 2
  {
  }

  lemma {:induction false} AndHighStep(a: nat, p: nat, q: nat)
    requires p >= q > 0 && BitAnd(a / 2, p - q) == a / 2 - a / 2 % q
    ensures BitAnd(a, 2 * p - 2 * q) == a - a % (2 * q)
  {
    AndDouble(a, p - q);
    ModHalf(a, q);
    PutLastBit(a, a / 2 % q);
  }

  lemma {:induction false} AndAll(a: nat, w: nat)
    requires a < Pow(2, w)
    ensures BitAnd(a, Pow(2, w) - 1) == a
  {
    AndLow(a, w);
    ModUnique(a, Pow(2, w), 0, a);
  }

  /** The mask 2^w - 2^j keeps the bits from j up to w. */
  lemma {:induction false} AndHigh(a: nat, j: nat, w: nat)
    requires j <= w && a < Pow(2, w)
    ensures Pow(2, w) >= Pow(2, j) > 0
    ensures BitAnd(a, Pow(2, w) - Pow(2, j)) == a - a % Pow(2, j)
    decreases j
  {
    PowPositive(2, j);
    PowMonotone(2, j, w);
    if j == 0 {
      AndAll(a, w);
    } else {
      var p, q := Pow(2, w - 1), Pow(2, j - 1);
      AndHigh(a / 2, j - 1, w - 1);
      AndHighStep(a, p, q);
      assert Pow(2, w) == 2 * p && Pow(2, j) == 2 * q;
    }
  }

  /** Testing the highest bit that a number can have. */
  lemma {:induction false} AndTopBit(a: nat, j: nat)
    requires a < Pow(2, j + 1)
    ensures BitAnd(a, Pow(2, j)) != 0 <==> a >= Pow(2, j)
  {
    PowPositive(2, j);
    if j == 0 {
    } else {
      AndTopBit(a / 2, j - 1);
    }
  }

  /** Setting the lowest bit makes a number odd, and the next one up if it was even. */
  lemma {:induction false} OrOne(a: nat)
    ensures BitOr(a, 1) == a + 1 - a % 2
  {
    OrZero(a / 2);
  }

  lemma {:induction false} OrZero(a: nat)
    ensures BitOr(a, 0) == a
  {
    if a == 0 {
    } else {
      OrZero(a / 2);
    }
  }
}
