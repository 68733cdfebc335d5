/** The number theory that RSA rests on, from the extended Euclidean algorithm up to
    "raising to e and then to d is the identity modulo a product of two primes". */
module NumberTheory {
  import opened Wrappers
  import opened Arithmetic

  // ----- greatest common divisors

  /** Extended Euclid: a greatest common divisor g of a and b, and s, t with g == s*a + t*b. */
  function EGcd(a: nat, b: nat): (nat, int, int)
    decreases b
  {
    if b == 0 then (a, 1, 0)
    else
      var (g, s, t) := EGcd(b, a % b);
      (g, t, s - (a / b) * t)
  }

  lemma {:induction false} EGcdSpec(a: nat, b: nat)
    ensures var (g, s, t) := EGcd(a, b);
      g == s * a + t * b && (a > 0 || b > 0 ==> g > 0 && Divides(g, a) && Divides(g, b))
    decreases b
  {
    if b == 0 {
    } else {
      EGcdSpec(b, a % b);
      var (g, s, t) := EGcd(b, a % b);
      EGcdStep(a, b, g, s, t);
      EGcdFactor(a, b, g);
      DividesIntro(g, (b / g) * (a / b) + (a % b) / g, a);
    }
  }

  lemma {:induction false} EGcdStep(a: nat, b: nat, g: int, s: int, t: int)
    requires b > 0 && g == s * b + t * (a % b)
    ensures g == t * a + (s - (a / b) * t) * b
  {
    assert a == b * (a / b) + a % b;
    assert t * a == t * (b * (a / b)) + t * (a % b);
    assert (s - (a / b) * t) * b == s * b - (a / b) * t * b;
    assert t * (b * (a / b)) == (a / b) * t * b;
  }

  lemma {:induction false} EGcdFactor(a: nat, b: nat, g: nat)
    requires b > 0 && g > 0 && Divides(g, b) && Divides(g, a % b)
    ensures a == g * ((b / g) * (a / b) + (a % b) / g)
  {
    var x, y, q := b / g, (a % b) / g, a / b;
    assert a == b * q + a % b;
    assert b == g * x;
    assert a % b == g * y;
    assert (g * x) * q == g * (x * q);
    assert g * (x * q + y) == g * (x * q) + g * y;
  }

  function Gcd(a: nat, b: nat): nat {
    EGcd(a, b).0
  }

  /** Gcd is the common divisor that every common divisor divides. */
  lemma {:induction false} GcdIsGreatest(a: nat, b: nat, d: nat)
    requires d > 0 && Divides(d, a) && Divides(d, b) && (a > 0 || b > 0)
    ensures Divides(d, Gcd(a, b)) && d <= Gcd(a, b)
  {
    EGcdSpec(a, b);
    var (g, s, t) := EGcd(a, b);
    DividesCombination(d, a, b, s, t);
    DividesBound(d, g);
  }

  lemma {:induction false} DividesCombination(d: int, a: int, b: int, s: int, t: int)
    requires d > 0 && Divides(d, a) && Divides(d, b)
    ensures Divides(d, s * a + t * b)
  {
    Quotient(d, a);
    Quotient(d, b);
    var x, y := a / d, b / d;
    assert s * (d * x) == d * (s * x);
    assert t * (d * y) == d * (t * y);
    assert s * a + t * b == d * (s * x + t * y) by { assert d * (s * x + t * y) == d * (s * x) + d * (t * y); }
    DividesIntro(d, s * x + t * y, s * a + t * b);
  }

  predicate Coprime(a: nat, b: nat) {
    Gcd(a, b) == 1
  }

  /** Coprimality is the existence of a Bezout combination equal to one. */
  lemma {:induction false} CoprimeIntro(a: nat, b: nat, s: int, t: int)
    requires s * a + t * b == 1
    ensures Coprime(a, b)
  {
    assert a > 0 || b > 0;
    EGcdSpec(a, b);
    var g := Gcd(a, b);
    DividesCombination(g, a, b, s, t);
    Quotient(g, 1);
    if g > 1 { DivOfSmall(1, g); }
  }

  lemma {:induction false} DivOfSmall(x: nat, g: nat)
    requires x < g
    ensures x / g == 0 && x % g == x
  {
    ModUnique(x, g, 0, x);
  }

  lemma {:induction false} CoprimeSym(a: nat, b: nat)
    requires Coprime(a, b)
    ensures Coprime(b, a)
  {
    EGcdSpec(a, b);
    var (g, s, t) := EGcd(a, b);
    CoprimeIntro(b, a, t, s);
  }

  lemma {:induction false} CoprimeProduct(a: nat, b: nat, c: nat)
    requires Coprime(a, b) && Coprime(a, c)
    ensures Coprime(a, b * c)
  {
    EGcdSpec(a, b);
    EGcdSpec(a, c);
    var (g, s, t) := EGcd(a, b);
    var (h, u, v) := EGcd(a, c);
    assert s * a + t * b == 1;
    assert u * a + v * c == 1;
    assert (s + t * b * u) * a + (t * v) * (b * c) == 1 by {
      assert (t * b) * (u * a + v * c) == t * b;
      assert (t * b) * (u * a + v * c) == (t * b) * (u * a) + (t * b) * (v * c);
      MulRearrange(t * b, u, a);
      MulSwap(t, b, v, c);
      assert (s + t * b * u) * a == s * a + (t * b * u) * a;
    }
    CoprimeIntro(a, b * c, s + t * b * u, t * v);
  }

  /** A divisor of a product that is coprime to one factor divides the other. */
  lemma {:induction false} EuclidLemma(d: nat, a: nat, b: int)
    requires d > 0 && Coprime(d, a) && Divides(d, a * b)
    ensures Divides(d, b)
  {
    EGcdSpec(d, a);
    var (g, s, t) := EGcd(d, a);
    DividesIntro(d, 1, d);
    DividesCombination(d, d, a * b, s * b, t);
    assert (s * b) * d + t * (a * b) == b by {
      assert s * d + t * a == 1;
      MulRearrange(s, b, d);
      MulRearrange(t, a, b);
      assert (s * d + t * a) * b == (s * d) * b + (t * a) * b;
    }
  }

  // ----- modular inverses

  /** big.Int.ModInverse: the inverse of g in [0, n), or None when there is none. */
  function ModInverse(g: int, n: nat): Option<nat>
    requires n > 0
  {
    var (d, s, t) := EGcd(g % n, n);
    if d == 1 then Some(s % n) else None
  }

  /** An inverse is returned exactly for numbers coprime to the modulus, and it is one. */
  lemma {:induction false} ModInverseSpec(g: int, n: nat)
    requires n > 0
    ensures ModInverse(g, n).Some? <==> Coprime(g % n, n)
    ensures ModInverse(g, n).Some? ==> ModInverse(g, n).value < n && Cong(g * ModInverse(g, n).value, 1, n)
  {
    EGcdSpec(g % n, n);
    var (d, s, t) := EGcd(g % n, n);
    if d == 1 { InverseFromBezout(g, n, s, t); }
  }

  lemma {:induction false} InverseFromBezout(g: int, n: nat, s: int, t: int)
    requires n > 0 && s * (g % n) + t * n == 1
    ensures Cong(g * (s % n), 1, n)
  {
    CongMod(g, n);
    CongMod(s, n);
    CongMul(g % n, g, s % n, s, n);
    assert 1 == s * (g % n) + n * t;
    CongIntro(1, s * (g % n), n, t);
    CongMul(g, g % n, s, s, n);
    CongMul(g, g, s % n, s, n);
    assert s * (g % n) == (g % n) * s;
  }

  /** Any witness of invertibility makes ModInverse succeed. */
  lemma {:induction false} UnitCoprime(g: int, x: int, n: nat)
    requires n > 0 && Cong(g * x, 1, n)
    ensures Coprime(g % n, n)
  {
    CongMod(g, n);
    CongMul(g % n, g, x, x, n);
    CongDiff((g % n) * x, 1, n);
    var k := ((g % n) * x - 1) / n;
    assert (g % n) * x - 1 == n * k;
    assert x * (g % n) + (-k) * n == 1 by {
      assert x * (g % n) == (g % n) * x;
      assert (-k) * n == -(n * k);
    }
    CoprimeIntro(g % n, n, x, -k);
  }

  /** An invertible factor can be cancelled. */
  lemma {:induction false} CongCancel(g: int, x: int, a: int, b: int, n: nat)
    requires n > 0 && Cong(g * x, 1, n) && Cong(g * a, g * b, n)
    ensures Cong(a, b, n)
  {
    CongMul(g * a, g * b, x, x, n);
    CongMul(g * x, 1, a, a, n);
    CongMul(g * x, 1, b, b, n);
    assert (g * a) * x == (g * x) * a;
    assert (g * b) * x == (g * x) * b;
  }

  /** The inverse in [0, n) is unique. */
  lemma {:induction false} InverseUnique(g: int, x: nat, y: nat, n: nat)
    requires n > 0 && x < n && y < n && Cong(g * x, 1, n) && Cong(g * y, 1, n)
    ensures x == y
  {
    CongCancel(g, x, x, y, n);
    CongSmall(x, y, n);
  }

  // ----- primes and Fermat's little theorem

  ghost predicate IsPrime(p: nat) {
    p >= 2 && forall d :: 1 < d < p ==> !Divides(d, p)
  }

  lemma {:induction false} PrimeCoprime(p: nat, a: nat)
    requires IsPrime(p) && !Divides(p, a)
    ensures Coprime(p, a)
  {
    EGcdSpec(p, a);
    DividesBound(Gcd(p, a), p);
  }

  lemma {:induction false} PrimeDividesProduct(p: nat, a: nat, b: int)
    requires IsPrime(p) && Divides(p, a * b)
    ensures Divides(p, a) || Divides(p, b)
  {
    if !Divides(p, a) {
      PrimeCoprime(p, a);
      EuclidLemma(p, a, b);
    }
  }

  /** Binomial coefficients by Pascal's rule. */
  function Choose(n: nat, k: nat): nat {
    if k == 0 then 1 else if n == 0 then 0 else Choose(n - 1, k - 1) + Choose(n - 1, k)
  }

  lemma {:induction false} ChooseEdges(n: nat, k: nat)
    ensures k > n ==> Choose(n, k) == 0
    ensures Choose(n, n) == 1
  {
    if n == 0 {
    } else {
      ChooseEdges(n - 1, n);
      if k > 0 {
        ChooseEdges(n - 1, k);
        ChooseEdges(n - 1, k - 1);
      }
    }
  }

  lemma {:induction false} AbsorptionStep(n: int, k: int, a: int, b: int, c: int, d: int)
    requires (k - 1) * a == (n - 1) * c && k * b == (n - 1) * d && a == c + d
    ensures k * (a + b) == n * a
  {
    assert k * (a + b) == (k - 1) * a + a + k * b;
    assert (n - 1) * c + (n - 1) * d == (n - 1) * a;
  }

  lemma {:induction false} ChooseAbsorption(n: nat, k: nat)
    requires n >= 1 && k >= 1
    ensures k * Choose(n, k) == n * Choose(n - 1, k - 1)
  {
    if n == 1 {
      ChooseEdges(1, k);
      ChooseEdges(0, k - 1);
    } else if k == 1 {
      ChooseAbsorption(n - 1, 1);
    } else {
      ChooseAbsorption(n - 1, k);
      ChooseAbsorption(n - 1, k - 1);
      AbsorptionStep(n, k, Choose(n - 1, k - 1), Choose(n - 1, k), Choose(n - 2, k - 2), Choose(n - 2, k - 1));
    }
  }

  lemma {:induction false} PrimeDividesChoose(p: nat, k: nat)
    requires IsPrime(p) && 0 < k < p
    ensures Divides(p, Choose(p, k))
  {
    ChooseAbsorption(p, k);
    DividesIntro(p, Choose(p - 1, k - 1), k * Choose(p, k));
    PrimeDividesProduct(p, k, Choose(p, k));
    DivOfSmall(k, p);
  }

  /** The first k+1 terms of the binomial expansion of (1 + a)^n. */
  function BinomialSum(n: nat, k: nat, a: int): int {
    Choose(n, k) * Pow(a, k) + if k == 0 then 0 else BinomialSum(n, k - 1, a)
  }

  lemma {:induction false} BinomialArithmetic(a: int, s: int, c: int, d: int, q: int, next: int)
    requires next == (1 + a) * s - d * q
    ensures (d + c) * q + next == (1 + a) * (c * q + s) - c * (a * q)
  {
    assert (1 + a) * (c * q + s) == (1 + a) * (c * q) + (1 + a) * s;
    assert (1 + a) * (c * q) == c * q + a * (c * q);
    assert a * (c * q) == c * (a * q);
    assert (d + c) * q == d * q + c * q;
  }

  lemma {:induction false} BinomialStep(n: nat, k: nat, a: int)
    ensures BinomialSum(n + 1, k, a) == (1 + a) * BinomialSum(n, k, a) - Choose(n, k) * Pow(a, k + 1)
  {
    if k == 0 {
      assert BinomialSum(n + 1, 0, a) == 1 && BinomialSum(n, 0, a) == 1;
      assert Pow(a, 1) == a * Pow(a, 0) == a;
    } else {
      BinomialStep(n, k - 1, a);
      var s, c, d, q := BinomialSum(n, k - 1, a), Choose(n, k), Choose(n, k - 1), Pow(a, k);
      var next := BinomialSum(n + 1, k - 1, a);
      assert Choose(n + 1, k) == d + c;
      assert next == (1 + a) * s - d * q;
      BinomialArithmetic(a, s, c, d, q, next);
    }
  }

  lemma {:induction false} ZeroTerm(c: int, q: int)
    requires c == 0
    ensures c * q == 0
  {
  }

  lemma {:induction false} BinomialTheorem(n: nat, a: int)
    ensures BinomialSum(n, n, a) == Pow(1 + a, n)
  {
    if n == 0 {
    } else {
      BinomialTheorem(n - 1, a);
      BinomialStep(n - 1, n, a);
      ChooseEdges(n - 1, n);
      ZeroTerm(Choose(n - 1, n), Pow(a, n));
      ZeroTerm(Choose(n - 1, n), Pow(a, n + 1));
      assert BinomialSum(n - 1, n, a) == Pow(1 + a, n - 1);
    }
  }

  lemma {:induction false} MiddleTermsVanish(p: nat, k: nat, a: int)
    requires IsPrime(p) && k < p
    ensures Cong(BinomialSum(p, k, a), 1, p)
  {
    if k == 0 {
      assert Choose(p, 0) == 1 && Pow(a, 0) == 1;
      assert BinomialSum(p, 0, a) == 1;
    } else {
      MiddleTermsVanish(p, k - 1, a);
      PrimeDividesChoose(p, k);
      var c, q := Choose(p, k), Pow(a, k);
      Quotient(p, c);
      assert c * q == p * ((c / p) * q) by { assert (p * (c / p)) * q == p * ((c / p) * q); }
      CongIntro(BinomialSum(p, k, a), BinomialSum(p, k - 1, a), p, (c / p) * q);
    }
  }

  /** Fermat's little theorem: a^p and a leave the same remainder modulo a prime p. */
  lemma {:induction false} Fermat(p: nat, a: nat)
    requires IsPrime(p)
    ensures Cong(Pow(a, p), a, p)
  {
    if a == 0 {
      assert Pow(0, p) == 0 * Pow(0, p - 1) == 0;
    } else {
      var b := a - 1;
      Fermat(p, b);
      BinomialTheorem(p, b);
      ChooseEdges(p, p);
      MiddleTermsVanish(p, p - 1, b);
      assert Pow(a, p) == Pow(b, p) + BinomialSum(p, p - 1, b);
      CongAdd(Pow(b, p), b, BinomialSum(p, p - 1, b), 1, p);
    }
  }

  lemma {:induction false} FermatIterated(p: nat, a: nat, j: nat)
    requires IsPrime(p)
    ensures j * (p - 1) >= 0
    ensures Cong(Pow(a, 1 + j * (p - 1)), a, p)
    decreases j
  {
    if j == 0 {
      assert Pow(a, 1) == a * Pow(a, 0);
    } else {
      FermatIterated(p, a, j - 1);
      Fermat(p, a);
      var e := (j - 1) * (p - 1);
      assert j * (p - 1) == e + (p - 1);
      PowAdd(a, p, e);
      CongMul(Pow(a, p), a, Pow(a, e), Pow(a, e), p);
      assert 1 + j * (p - 1) == p + e;
    }
  }

  // ----- RSA

  /** Divisibility by two distinct primes is divisibility by their product. */
  lemma {:induction false} PrimeProductDivides(p: nat, q: nat, x: int)
    requires IsPrime(p) && IsPrime(q) && p != q && Divides(p, x) && Divides(q, x)
    ensures p * q > 0 && Divides(p * q, x)
  {
    Quotient(q, x);
    assert p * q > 0;
    if Divides(p, q) {
      DividesBound(p, q);
      assert false;
    }
    PrimeDividesProduct(p, q, x / q);
    Quotient(p, x / q);
    assert x == (p * q) * (x / q / p) by { assert q * (p * (x / q / p)) == (p * q) * (x / q / p); }
    DividesIntro(p * q, x / q / p, x);
  }

  lemma {:induction false} TripleProduct(a: nat, b: nat, k: nat)
    ensures (a * b) * k == (k * b) * a == (k * a) * b && k * b >= 0 && k * a >= 0
  {
    MulRearrange(a, b, k);
  }

  /** RSA: if e*d is one modulo (p-1)(q-1), then m^(e*d) is m modulo p*q, for every m. */
  lemma {:induction false} RsaIdentity(p: nat, q: nat, e: nat, d: nat, m: nat)
    requires IsPrime(p) && IsPrime(q) && p != q
    requires (p - 1) * (q - 1) > 0 && e > 0 && d > 0 && Cong(e * d, 1, (p - 1) * (q - 1))
    ensures p * q > 0 && e * d >= 0
    ensures Cong(Pow(m, e * d), m, p * q)
  {
    var phi := (p - 1) * (q - 1);
    CongDiff(e * d, 1, phi);
    var k := (e * d - 1) / phi;
    assert e * d == 1 + phi * k;
    assert e * d >= 1;
    assert k >= 0 by { if k < 0 { MulAtLeast(phi, -k); assert false; } }
    TripleProduct(p - 1, q - 1, k);
    FermatIterated(p, m, k * (q - 1));
    FermatIterated(q, m, k * (p - 1));
    var x := Pow(m, e * d);
    CongDiff(x, m, p);
    CongDiff(x, m, q);
    PrimeProductDivides(p, q, x - m);
    CongDiff(x, m, p * q);
  }

  lemma {:induction false} UnitPow(g: int, x: int, e: nat, n: nat)
    requires n > 0 && Cong(g * x, 1, n)
    ensures Cong(Pow(g, e) * Pow(x, e), 1, n)
  {
    PowOfProduct(g, x, e);
    CongPow(g * x, 1, e, n);
    PowOne(e);
  }
}
