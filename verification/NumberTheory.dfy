/** Divisibility by a prime: Euclid's lemma and Fermat's little theorem. */
module NumberTheory {
  import opened Bytes

  ghost predicate Divides(m: int, x: int)
    requires m > 0
  {
    x % m == 0
  }

  ghost predicate IsPrime(p: int) {
    p > 1 && forall d :: 1 < d < p ==> !Divides(d, p)
  }

  lemma DividesIntro(m: int, x: int, q: int)
    requires m > 0 && x == m * q
    ensures Divides(m, x)
  {
    RemainderZero(m, q);
  }

  lemma SmallMultiple(m: int, k: int)
    requires m > 0 && -m < m * k < m
    ensures k == 0
  {
  }

  lemma RemainderZero(m: int, q: int)
    requires m > 0
    ensures (m * q) % m == 0
  {
    var k := q - (m * q) / m;
    assert (m * q) % m == m * k;
    SmallMultiple(m, k);
  }

  ghost function Cofactor(m: int, x: int): (q: int)
    requires m > 0 && Divides(m, x)
    ensures x == m * q
  {
    x / m
  }

  lemma DividesSum(m: int, x: int, y: int)
    requires m > 0 && Divides(m, x) && Divides(m, y)
    ensures Divides(m, x + y) && Divides(m, x - y)
  {
    var q, r := Cofactor(m, x), Cofactor(m, y);
    assert m * (q + r) == m * q + m * r && m * (q - r) == m * q - m * r;
    DividesIntro(m, x + y, q + r);
    DividesIntro(m, x - y, q - r);
  }

  lemma DividesProduct(m: int, x: int, y: int)
    requires m > 0 && Divides(m, x)
    ensures Divides(m, x * y) && Divides(m, y * x)
  {
    var q := Cofactor(m, x);
    assert x * y == m * (q * y);
    DividesIntro(m, x * y, q * y);
  }

  lemma DivisorBound(g: int, r: int)
    requires g > 0 && r > 0 && Divides(g, r)
    ensures g <= r
  {
  }

  lemma BezoutStep(a: int, b: int, q: int, r: int, u: int, v: int)
    requires b == a * q + r
    ensures u * r + v * a == (v - u * q) * a + u * b
  {
    assert u * b == u * (a * q) + u * r;
    assert u * (a * q) == (u * q) * a;
  }

  /** A common divisor of a and b that is a combination of them. */
  lemma {:induction false} Bezout(a: nat, b: nat) returns (g: int, u: int, v: int)
    requires a > 0
    ensures g > 0 && g == u * a + v * b && Divides(g, a) && Divides(g, b)
    decreases a
  {
    hide Divides;
    var q, r := b / a, b % a;
    if r == 0 {
      g, u, v := a, 1, 0;
      DividesIntro(a, a, 1);
      DividesIntro(a, b, q);
    } else {
      var u', v';
      g, u', v' := Bezout(r, a);
      BezoutStep(a, b, q, r, u', v');
      u, v := v' - u' * q, u';
      DividesProduct(g, a, q);
      DividesSum(g, a * q, r);
    }
  }

  /** A prime that divides a product divides one of the factors. */
  lemma Euclid(p: int, a: int, b: int)
    requires IsPrime(p) && Divides(p, a * b)
    ensures Divides(p, a) || Divides(p, b)
  {
    if !Divides(p, a) {
      var q, r := a / p, a % p;
      var g, u, v := Bezout(r, p);
      DivisorBound(g, r);
      assert g == 1;
      hide Divides, IsPrime;
      ReduceFactor(p, a, b, q, r);
      DividesProduct(p, r * b, u);
      DividesIntro(p, p * (v * b), v * b);
      DividesSum(p, u * (r * b), p * (v * b));
      UnitCombination(p, b, r, u, v);
    }
  }

  /** Modulo a prime every nonzero element has an inverse. */
  lemma InverseExists(p: int, a: int) returns (u: int)
    requires IsPrime(p) && !Divides(p, a)
    ensures Divides(p, u * a - 1)
  {
    var q, r := a / p, a % p;
    var g, v;
    g, u, v := Bezout(r, p);
    DivisorBound(g, r);
    assert g == 1;
    hide Divides, IsPrime;
    InverseWitness(p, a, q, r, u, v);
    DividesIntro(p, u * a - 1, u * q - v);
  }

  lemma InverseWitness(p: int, a: int, q: int, r: int, u: int, v: int)
    requires a == p * q + r && u * r + v * p == 1
    ensures u * a - 1 == p * (u * q - v)
  {
    assert u * (p * q + r) == p * (u * q) + u * r;
    assert p * (u * q - v) == p * (u * q) - v * p;
  }

  lemma ReduceFactor(p: int, a: int, b: int, q: int, r: int)
    requires p > 0 && a == p * q + r && Divides(p, a * b)
    ensures Divides(p, r * b)
  {
    hide Divides;
    DividesIntro(p, p * (q * b), q * b);
    DividesSum(p, a * b, p * (q * b));
    assert r * b == a * b - p * (q * b);
  }

  lemma UnitCombination(p: int, b: int, r: int, u: int, v: int)
    requires u * r + v * p == 1
    ensures b == u * (r * b) + p * (v * b)
  {
    assert b == (u * r + v * p) * b;
  }

  // Fermat's little theorem through the binomial expansion of (a + 1)^p.

  ghost function Choose(n: nat, k: nat): nat {
    if k == 0 then 1 else if n == 0 then 0 else Choose(n - 1, k - 1) + Choose(n - 1, k)
  }

  lemma {:induction false} ChooseBeyond(n: nat, k: nat)
    requires k > n
    ensures Choose(n, k) == 0
  {
    if n > 0 {
      ChooseBeyond(n - 1, k - 1);
      ChooseBeyond(n - 1, k);
    }
  }

  lemma {:induction false} ChooseAll(n: nat)
    ensures Choose(n, n) == 1
  {
    if n > 0 {
      ChooseAll(n - 1);
      ChooseBeyond(n - 1, n);
    }
  }

  /** Absorption: k * C(n, k) = n * C(n - 1, k - 1). */
  lemma {:induction false} Absorption(n: nat, k: nat)
    requires n > 0 && k > 0
    ensures k * Choose(n, k) == n * Choose(n - 1, k - 1)
  {
    if n == 1 {
      if k > 1 {
        ChooseBeyond(1, k);
      }
    } else if k == 1 {
      Absorption(n - 1, 1);
    } else {
      Absorption(n - 1, k - 1);
      Absorption(n - 1, k);
      AbsorptionStep(n, k, Choose(n - 1, k - 1), Choose(n - 1, k), Choose(n - 2, k - 2), Choose(n - 2, k - 1));
    }
  }

  lemma AbsorptionStep(n: int, k: int, c: int, d: int, e: int, f: int)
    requires (k - 1) * c == (n - 1) * e && k * d == (n - 1) * f && c == e + f
    ensures k * (c + d) == n * c
  {
    assert k * (c + d) == (k - 1) * c + c + k * d;
    assert (n - 1) * e + (n - 1) * f == (n - 1) * (e + f);
  }

  /** The sum of C(n, i) * a^i for i below k. */
  ghost function Binomial(a: int, n: nat, k: nat): int {
    if k == 0 then 0 else Binomial(a, n, k - 1) + Choose(n, k - 1) * Pow(a, k - 1)
  }

  lemma BinomialAlgebra(a: int, c: int, d: int, x: int, prev: int, low: int, mid: int)
    requires prev == mid + a * low && mid == low + c * x
    ensures prev + (c + d) * (a * x) == (mid + d * (a * x)) + a * mid
  {
    assert (c + d) * (a * x) == c * (a * x) + d * (a * x);
    assert a * mid == a * low + a * (c * x);
  }

  lemma {:induction false} BinomialStep(a: int, n: nat, k: nat)
    requires k > 0
    ensures Binomial(a, n + 1, k) == Binomial(a, n, k) + a * Binomial(a, n, k - 1)
  {
    if k > 1 {
      BinomialStep(a, n, k - 1);
      var c, d, x := Choose(n, k - 2), Choose(n, k - 1), Pow(a, k - 2);
      assert Choose(n + 1, k - 1) == c + d && Pow(a, k - 1) == a * x;
      assert Binomial(a, n + 1, k) == Binomial(a, n + 1, k - 1) + (c + d) * (a * x);
      assert Binomial(a, n, k) == Binomial(a, n, k - 1) + d * (a * x);
      hide Binomial, Choose, Pow;
      BinomialAlgebra(a, c, d, x, Binomial(a, n + 1, k - 1), Binomial(a, n, k - 2), Binomial(a, n, k - 1));
    }
  }

  lemma BinomialUnfold(a: int, n: nat, k: nat)
    requires k > 0
    ensures Binomial(a, n, k) == Binomial(a, n, k - 1) + Choose(n, k - 1) * Pow(a, k - 1)
  {
  }

  lemma PowUnfold(a: int, n: nat)
    ensures Pow(a, 0) == 1 && (n > 0 ==> Pow(a, n) == a * Pow(a, n - 1))
    ensures Choose(n, 0) == 1 && Binomial(a, n, 0) == 0
  {
  }

  lemma {:induction false} BinomialTheorem(a: int, n: nat)
    ensures Binomial(a, n, n + 1) == Pow(a + 1, n)
  {
    hide *;
    PowUnfold(a, n);
    PowUnfold(a + 1, n);
    if n == 0 {
      BinomialUnfold(a, 0, 1);
    } else {
      ChooseBeyond(n - 1, n);
      BinomialUnfold(a, n - 1, n + 1);
      BinomialTheorem(a, n - 1);
      BinomialStep(a, n - 1, n + 1);
    }
  }

  /** All inner binomial coefficients of a prime are multiples of it. */
  lemma InnerChoose(p: int, k: int)
    requires IsPrime(p) && 0 < k < p
    ensures Divides(p, Choose(p, k))
  {
    Absorption(p, k);
    DividesIntro(p, k * Choose(p, k), Choose(p - 1, k - 1));
    Euclid(p, k, Choose(p, k));
    if Divides(p, k) {
      DivisorBound(p, k);
      assert false;
    }
  }

  lemma {:induction false} InnerSum(p: int, a: int, k: nat)
    requires IsPrime(p) && 1 <= k <= p
    ensures Divides(p, Binomial(a, p, k) - 1)
  {
    hide IsPrime, Divides;
    if k == 1 {
      assert Binomial(a, p, 1) == Binomial(a, p, 0) + Choose(p, 0) * Pow(a, 0);
      DividesIntro(p, 0, 0);
    } else {
      InnerSum(p, a, k - 1);
      InnerChoose(p, k - 1);
      DividesProduct(p, Choose(p, k - 1), Pow(a, k - 1));
      DividesSum(p, Binomial(a, p, k - 1) - 1, Choose(p, k - 1) * Pow(a, k - 1));
    }
  }

  lemma FreshmanDream(p: int, a: int)
    requires IsPrime(p)
    ensures Divides(p, Pow(a + 1, p) - Pow(a, p) - 1)
  {
    hide *;
    PrimePositive(p);
    BinomialTheorem(a, p);
    BinomialUnfold(a, p, p + 1);
    InnerSum(p, a, p);
    ChooseAll(p);
  }

  lemma PrimePositive(p: int)
    requires IsPrime(p)
    ensures p > 1
  {
  }

  /** Fermat's little theorem. */
  lemma {:induction false} FermatNat(p: int, a: nat)
    requires IsPrime(p)
    ensures Divides(p, Pow(a, p) - a)
  {
    hide *;
    PrimePositive(p);
    if a == 0 {
      PowUnfold(0, p);
      DividesIntro(p, 0, 0);
    } else {
      FermatNat(p, a - 1);
      FreshmanDream(p, a - 1);
      DividesSum(p, Pow(a - 1, p) - (a - 1), Pow(a, p) - Pow(a - 1, p) - 1);
    }
  }
}
