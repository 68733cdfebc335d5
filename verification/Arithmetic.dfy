/** Integer powers, bit lengths and modular arithmetic: the documented meaning of the
    big-integer operations that the signature scheme is written with. */
module Arithmetic {

  function Pow(b: int, e: nat): int {
    if e == 0 then 1 else b * Pow(b, e - 1)
  }

  lemma {:induction false} PowAdd(b: int, d: nat, e: nat)
    ensures Pow(b, d + e) == Pow(b, d) * Pow(b, e)
  {
    if d == 0 {
    } else {
      PowAdd(b, d - 1, e);
      assert b * (Pow(b, d - 1) * Pow(b, e)) == (b * Pow(b, d - 1)) * Pow(b, e);
    }
  }

  lemma {:induction false} PowMul(b: int, d: nat, e: nat)
    ensures d * e >= 0
    ensures Pow(b, d * e) == Pow(Pow(b, d), e)
  {
    if e == 0 {
      assert d * e == 0;
    } else {
      PowMul(b, d, e - 1);
      assert d * e == d + d * (e - 1);
      PowAdd(b, d, d * (e - 1));
    }
  }

  lemma {:induction false} MulRearrange(a: int, b: int, c: int)
    ensures (a * b) * c == a * (b * c) == (a * c) * b
  {
  }

  lemma {:induction false} MulSwap(a: int, b: int, x: int, y: int)
    ensures (a * b) * (x * y) == (a * x) * (b * y)
  {
    assert (a * b) * (x * y) == a * (b * (x * y));
    assert b * (x * y) == x * (b * y);
    assert a * (x * (b * y)) == (a * x) * (b * y);
  }

  lemma {:induction false} PowOfProduct(a: int, b: int, e: nat)
    ensures Pow(a * b, e) == Pow(a, e) * Pow(b, e)
  {
    if e == 0 {
    } else {
      PowOfProduct(a, b, e - 1);
      MulSwap(a, b, Pow(a, e - 1), Pow(b, e - 1));
    }
  }

  lemma {:induction false} PowPositive(b: nat, e: nat)
    requires b > 0
    ensures Pow(b, e) > 0
  {
    if e == 0 {
    } else {
      PowPositive(b, e - 1);
      assert b * Pow(b, e - 1) > 0;
    }
  }

  lemma {:induction false} PowOne(e: nat)
    ensures Pow(1, e) == 1
  {
    if e == 0 {
    } else {
      PowOne(e - 1);
    }
  }

  lemma {:induction false} PowMonotone(b: nat, d: nat, e: nat)
    requires b >= 1 && d <= e
    ensures Pow(b, d) <= Pow(b, e)
  {
    PowAdd(b, d, e - d);
    PowPositive(b, d);
    PowPositive(b, e - d);
    assert Pow(b, d) * 1 <= Pow(b, d) * Pow(b, e - d);
  }

  lemma {:induction false} MulGrows(b: int, x: int)
    requires b >= 2 && x > 0
    ensures b * x > x
  {
    assert b * x == x + (b - 1) * x;
    assert (b - 1) * x > 0;
  }

  lemma {:induction false} PowStrict(b: nat, d: nat, e: nat)
    requires b >= 2
    ensures d < e <==> Pow(b, d) < Pow(b, e)
  {
    if d < e {
      PowMonotone(b, d + 1, e);
      PowPositive(b, d);
      MulGrows(b, Pow(b, d));
    } else {
      PowMonotone(b, e, d);
    }
  }

  lemma {:induction false} Pow256(k: nat)
    ensures Pow(256, k) == Pow(2, 8 * k)
  {
    PowMul(2, 8, k);
    assert Pow(2, 8) == 256 by {
      assert Pow(2, 4) == 16;
      PowAdd(2, 4, 4);
    }
  }

  /** big.Int.BitLen of a natural number. */
  function BitLen(n: nat): (k: nat)
  {
    if n == 0 then 0 else 1 + BitLen(n / 2)
  }

  /** BitLen is the one number whose powers of two bracket n. */
  lemma {:induction false} BitLenBounds(n: nat)
    ensures n < Pow(2, BitLen(n))
    ensures n > 0 ==> BitLen(n) > 0 && Pow(2, BitLen(n) - 1) <= n
  {
    if n == 0 {
    } else {
      BitLenBounds(n / 2);
      assert n < 2 * Pow(2, BitLen(n / 2));
    }
  }

  lemma {:induction false} BitLenUnique(n: nat, k: nat)
    requires k > 0 && Pow(2, k - 1) <= n < Pow(2, k)
    ensures BitLen(n) == k
  {
    BitLenBounds(n);
    PowPositive(2, k - 1);
    if BitLen(n) < k {
      PowMonotone(2, BitLen(n), k - 1);
    } else if BitLen(n) > k {
      PowMonotone(2, k, BitLen(n) - 1);
    }
  }

  // ----- divisibility and congruence

  predicate Divides(d: int, n: int)
    requires d != 0
  {
    n % d == 0
  }

  lemma {:induction false} DividesIntro(d: int, k: int, n: int)
    requires d > 0 && n == d * k
    ensures Divides(d, n)
  {
    ModUnique(n, d, k, 0);
  }

  lemma {:induction false} Quotient(d: int, n: int)
    requires d > 0 && Divides(d, n)
    ensures n == d * (n / d)
  {
  }

  /** A positive multiple of d is at least d. */
  lemma {:induction false} DividesBound(d: int, n: int)
    requires d > 0 && n > 0 && Divides(d, n)
    ensures d <= n
  {
    ModUnique(n, d, n / d, 0);
    if n < d { ModUnique(n, d, 0, n); }
  }

  lemma {:induction false} ModUnique(a: int, n: int, q: int, r: int)
    requires n > 0 && 0 <= r < n && a == n * q + r
    ensures a % n == r && a / n == q
  {
    var q', r' := a / n, a % n;
    assert a == n * q' + r';
    assert n * (q - q') == r' - r;
    if q > q' {
      MulAtLeast(n, q - q');
    } else if q < q' {
      MulAtLeast(n, q' - q);
    }
  }

  lemma {:induction false} MulAtLeast(n: int, k: int)
    requires n > 0 && k >= 1
    ensures n * k >= n
  {
    assert n * k == n + n * (k - 1);
    assert n * (k - 1) >= 0;
  }

  /** a and b leave the same remainder modulo n. */
  predicate Cong(a: int, b: int, n: int)
    requires n > 0
  {
    a % n == b % n
  }

  lemma {:induction false} CongDiff(a: int, b: int, n: int)
    requires n > 0
    ensures Cong(a, b, n) <==> Divides(n, a - b)
  {
    var k := a / n - b / n;
    if Cong(a, b, n) {
      assert a - b == n * k by { assert n * (a / n) - n * (b / n) == n * k; }
      DividesIntro(n, k, a - b);
    } else if Divides(n, a - b) {
      var j := (a - b) / n;
      assert a == n * (b / n + j) + b % n by {
        assert a - b == n * j;
        assert n * (b / n + j) == n * (b / n) + n * j;
      }
      ModUnique(a, n, b / n + j, b % n);
    }
  }

  lemma {:induction false} CongIntro(a: int, b: int, n: int, k: int)
    requires n > 0 && a == b + n * k
    ensures Cong(a, b, n)
  {
    assert n * (b / n + k) == n * (b / n) + n * k;
    ModUnique(a, n, b / n + k, b % n);
  }

  lemma {:induction false} CongMod(a: int, n: int)
    requires n > 0
    ensures Cong(a % n, a, n)
  {
    ModUnique(a % n, n, 0, a % n);
  }

  lemma {:induction false} CongSmall(a: int, b: int, n: int)
    requires n > 0 && 0 <= a < n && 0 <= b < n && Cong(a, b, n)
    ensures a == b
  {
    ModUnique(a, n, 0, a);
    ModUnique(b, n, 0, b);
  }

  lemma {:induction false} CongAdd(a: int, b: int, c: int, d: int, n: int)
    requires n > 0 && Cong(a, b, n) && Cong(c, d, n)
    ensures Cong(a + c, b + d, n)
  {
    var j, k := a / n - b / n, c / n - d / n;
    assert a - b == n * j by { assert n * (a / n) - n * (b / n) == n * j; }
    assert c - d == n * k by { assert n * (c / n) - n * (d / n) == n * k; }
    assert n * (j + k) == n * j + n * k;
    CongIntro(a + c, b + d, n, j + k);
  }

  lemma {:induction false} ProductOffset(a: int, b: int, c: int, d: int, n: int, j: int, k: int)
    requires a == b + n * j && c == d + n * k
    ensures a * c == b * d + n * (j * c + b * k)
  {
    assert a * c == b * c + (n * j) * c;
    assert b * c == b * d + b * (n * k);
    MulRearrange(n, j, c);
    assert b * (n * k) == n * (b * k);
    assert n * (j * c + b * k) == n * (j * c) + n * (b * k);
  }

  lemma {:induction false} CongOffset(a: int, b: int, n: int)
    requires n > 0 && Cong(a, b, n)
    ensures a == b + n * (a / n - b / n)
  {
    Distribute(n, a / n, b / n);
  }

  lemma {:induction false} Distribute(n: int, x: int, y: int)
    ensures n * (x - y) == n * x - n * y
  {
  }

  lemma {:induction false} CongMul(a: int, b: int, c: int, d: int, n: int)
    requires n > 0 && Cong(a, b, n) && Cong(c, d, n)
    ensures Cong(a * c, b * d, n)
  {
    var j, k := a / n - b / n, c / n - d / n;
    CongOffset(a, b, n);
    CongOffset(c, d, n);
    ProductOffset(a, b, c, d, n, j, k);
    CongIntro(a * c, b * d, n, j * c + b * k);
  }

  lemma {:induction false} CongPow(a: int, b: int, e: nat, n: int)
    requires n > 0 && Cong(a, b, n)
    ensures Cong(Pow(a, e), Pow(b, e), n)
  {
    if e == 0 {
    } else {
      CongPow(a, b, e - 1, n);
      CongMul(a, b, Pow(a, e - 1), Pow(b, e - 1), n);
    }
  }

  /** big.Int.Exp with a positive modulus: the remainder of b^e in [0, n). */
  function ModExp(b: int, e: nat, n: int): (r: nat)
    requires n > 0
    ensures r < n
  {
    Pow(b, e) % n
  }

  lemma {:induction false} ModExpCong(b: int, e: nat, n: int)
    requires n > 0
    ensures Cong(ModExp(b, e, n), Pow(b, e), n)
  {
    CongMod(Pow(b, e), n);
  }
}
