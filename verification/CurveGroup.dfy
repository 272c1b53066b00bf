/** Multiples of a curve point.

The affine law is turned into an operation on canonical points.  Identity and inverses are
proved; commutativity and associativity of the law are the hypothesis GroupLaw. */
module CurveGroup {
  import opened Bytes
  import opened FieldProduct
  import opened Congruence
  import opened NumberTheory
  import opened Jacobian
  import opened CurveLaw

  /** Coordinates reduced, and on the curve. */
  ghost predicate Canonical(a: Affine) {
    a.Point? ==> 0 <= a.x < P && 0 <= a.y < P && OnCurve(a.x, a.y)
  }

  ghost function Canon(a: Affine): Affine {
    if a.Infinity? then Infinity else Point(a.x % P, a.y % P)
  }

  lemma Reduce(x: int)
    ensures 0 <= x % P < P && Congruent(x % P, x) && Congruent(x, x % P)
  {
    CongruentFromQuotient(x % P, x, -(x / P));
    CongruentSymmetric(x % P, x);
  }

  lemma ReducedOnCurve(x: int, y: int)
    requires OnCurve(x, y)
    ensures OnCurve(x % P, y % P)
  {
    hide Congruent, P, Pow;
    Reduce(x);
    Reduce(y);
    CubeIs(x);
    CubeIs(x % P);
    var u, v := x % P, y % P;
    CongruentMul(v, y, v, y);
    CongruentMul(x, u, x, u);
    CongruentMul(x * x, u * u, x, u);
    Same(7, 7);
    CongruentAdd(x * x * x, u * u * u, 7, 7);
    CongruentTransitive(v * v, y * y, x * x * x + 7);
    CongruentTransitive(v * v, x * x * x + 7, u * u * u + 7);
  }

  /** A triple also stands for the canonical form of its point. */
  lemma DenotesCanon(p: Jac, a: Affine)
    requires Denotes(p, a)
    ensures Denotes(p, Canon(a))
  {
    if a.Point? {
      hide Congruent, P;
      ReducedOnCurve(a.x, a.y);
      Reduce(a.x);
      Reduce(a.y);
      var z := p.z;
      Jacobian.Times(a.x, a.x % P, z * z);
      Jacobian.Times(a.y, a.y % P, z * z * z);
      CongruentTransitive(p.x, a.x * (z * z), (a.x % P) * (z * z));
      CongruentTransitive(p.y, a.y * (z * z * z), (a.y % P) * (z * z * z));
    }
  }

  lemma HasSum(a: Affine, b: Affine)
    requires IsPrime(P)
    ensures exists c :: IsSum(a, b, c)
  {
    hide Congruent, P;
    var c := SumExists(a, b);
  }

  ghost predicate SumsTo(a: Affine, b: Affine, c: Affine, s: Affine) {
    IsSum(a, b, c) && s == Canon(c)
  }

  /** The group operation. */
  ghost function Sum(a: Affine, b: Affine): (s: Affine)
    requires IsPrime(P)
    ensures exists c :: SumsTo(a, b, c, s)
  {
    HasSum(a, b);
    var c :| IsSum(a, b, c);
    assert SumsTo(a, b, c, Canon(c));
    Canon(c)
  }

  /** The hypothesis this module rests on. */
  ghost predicate GroupLaw()
    requires IsPrime(P)
  {
    && (forall a, b :: Canonical(a) && Canonical(b) ==> Sum(a, b) == Sum(b, a))
    && (forall a, b, c :: Canonical(a) && Canonical(b) && Canonical(c) ==> Sum(Sum(a, b), c) == Sum(a, Sum(b, c)))
  }

  lemma SumWitness(a: Affine, b: Affine) returns (c: Affine)
    requires IsPrime(P)
    ensures IsSum(a, b, c) && Sum(a, b) == Canon(c)
  {
    hide *;
    c :| SumsTo(a, b, c, Sum(a, b));
    SumsToIs(a, b, c, Sum(a, b));
  }

  lemma SumsToIs(a: Affine, b: Affine, c: Affine, s: Affine)
    requires SumsTo(a, b, c, s)
    ensures IsSum(a, b, c) && s == Canon(c)
  {
    hide Congruent, P;
  }

  lemma SumCanonical(a: Affine, b: Affine)
    requires IsPrime(P) && Canonical(a) && Canonical(b)
    ensures Canonical(Sum(a, b))
  {
    hide IsPrime, Congruent, P, OnCurve;
    var c := SumWitness(a, b);
    SumOnCurve(a, b, c);
    if c.Point? {
      ReducedOnCurve(c.x, c.y);
      Reduce(c.x);
      Reduce(c.y);
    }
  }

  lemma SumOnCurve(a: Affine, b: Affine, c: Affine)
    requires IsPrime(P) && Canonical(a) && Canonical(b) && IsSum(a, b, c)
    ensures c.Point? ==> OnCurve(c.x, c.y)
  {
    hide IsPrime, Congruent, P, OnCurve;
    if a.Point? && b.Point? {
      if !Congruent(a.x, b.x) {
        var l :| Chord(a.x, a.y, b.x, b.y, l) && c == Point(LineX(a.x, b.x, l), LineY(a.x, a.y, b.x, l));
        ChordOnCurve(a.x, a.y, b.x, b.y, l);
      } else if Congruent(a.y, b.y) && !Congruent(a.y, 0) {
        var l :| Tangent(a.x, a.y, l) && c == Point(LineX(a.x, a.x, l), LineY(a.x, a.y, a.x, l));
        TangentOnCurve(a.x, a.y, l);
      }
    }
  }

  lemma Identity(a: Affine)
    requires IsPrime(P) && Canonical(a)
    ensures Sum(Infinity, a) == a && Sum(a, Infinity) == a
  {
    hide IsPrime, Congruent, P, OnCurve;
  }

  ghost function Neg(a: Affine): Affine {
    if a.Infinity? then Infinity else Canon(Point(a.x, -a.y))
  }

  lemma NegCanonical(a: Affine)
    requires Canonical(a)
    ensures Canonical(Neg(a))
  {
    if a.Point? {
      hide Congruent, P;
      SquareOfOpposite(a.y);
      ReducedOnCurve(a.x, -a.y);
      Reduce(a.x);
      Reduce(-a.y);
    }
  }

  lemma OppositeOrdinate(y: int)
    requires IsPrime(P) && Congruent(y, (-y) % P)
    ensures Congruent(y, 0)
  {
    hide IsPrime, Congruent, P;
    Reduce(-y);
    CongruentTransitive(y, (-y) % P, -y);
    DifferenceNonzero(y, -y);
    assert y - -y == 2 * y;
    TwoNonzero();
    ZeroProduct(2, y);
  }

  lemma Inverse(a: Affine)
    requires IsPrime(P) && Canonical(a)
    ensures Sum(a, Neg(a)) == Infinity
  {
    hide IsPrime, Congruent, P, OnCurve;
    if a.Point? {
      Reduce(a.x);
      if Congruent(a.y, (-a.y) % P) {
        OppositeOrdinate(a.y);
      }
    } else {
      Identity(a);
    }
  }

  // Multiples.

  ghost function Mult(k: nat, a: Affine): Affine
    requires IsPrime(P)
  {
    if k == 0 then Infinity else Sum(Mult(k - 1, a), a)
  }

  lemma {:induction false} MultCanonical(k: nat, a: Affine)
    requires IsPrime(P) && Canonical(a)
    ensures Canonical(Mult(k, a))
  {
    hide Congruent, P, IsPrime, Canonical, Sum;
    if k > 0 {
      MultCanonical(k - 1, a);
      SumCanonical(Mult(k - 1, a), a);
    } else {
      InfinityCanonical();
    }
  }

  lemma InfinityCanonical()
    ensures Canonical(Infinity)
  {
    hide Congruent, P;
  }

  lemma Associative(a: Affine, b: Affine, c: Affine)
    requires IsPrime(P) && GroupLaw() && Canonical(a) && Canonical(b) && Canonical(c)
    ensures Sum(Sum(a, b), c) == Sum(a, Sum(b, c))
  {
    hide Congruent, P;
  }

  lemma Commutative(a: Affine, b: Affine)
    requires IsPrime(P) && GroupLaw() && Canonical(a) && Canonical(b)
    ensures Sum(a, b) == Sum(b, a)
  {
    hide Congruent, P;
  }

  lemma {:induction false} MultAdd(m: nat, n: nat, a: Affine)
    requires IsPrime(P) && GroupLaw() && Canonical(a)
    ensures Mult(m + n, a) == Sum(Mult(m, a), Mult(n, a))
  {
    hide Congruent, P, IsPrime, GroupLaw, Canonical, Sum;
    MultCanonical(m, a);
    if n == 0 {
      Identity(Mult(m, a));
    } else {
      MultAdd(m, n - 1, a);
      MultCanonical(n - 1, a);
      Associative(Mult(m, a), Mult(n - 1, a), a);
      assert Mult(m + n, a) == Sum(Mult(m + n - 1, a), a);
    }
  }

  lemma {:induction false} MultMul(m: nat, n: nat, a: Affine)
    requires IsPrime(P) && GroupLaw() && Canonical(a)
    ensures m * n >= 0 && Mult(m * n, a) == Mult(m, Mult(n, a))
  {
    hide Congruent, P, IsPrime, GroupLaw, Canonical, Sum;
    if m > 0 {
      MultMul(m - 1, n, a);
      assert m * n == (m - 1) * n + n;
      MultAdd((m - 1) * n, n, a);
    }
  }

  /** Signed multiples. */
  ghost function Times(k: int, a: Affine): Affine
    requires IsPrime(P)
  {
    if k >= 0 then Mult(k, a) else Mult(-k, Neg(a))
  }

  lemma TimesCanonical(k: int, a: Affine)
    requires IsPrime(P) && Canonical(a)
    ensures Canonical(Times(k, a))
  {
    hide Congruent, P, IsPrime, Canonical, Neg, Mult;
    NegCanonical(a);
    MultCanonical(if k >= 0 then k else -k, if k >= 0 then a else Neg(a));
  }

  lemma CancelRight(s: Affine, a: Affine, b: Affine)
    requires IsPrime(P) && GroupLaw() && Canonical(s) && Canonical(a) && Canonical(b) && Sum(a, b) == Infinity
    ensures Sum(Sum(s, a), b) == s
  {
    hide Congruent, P, IsPrime, GroupLaw, Canonical, Sum;
    Associative(s, a, b);
    Identity(s);
  }

  lemma TimesSucc(k: int, a: Affine)
    requires IsPrime(P) && GroupLaw() && Canonical(a)
    ensures Times(k + 1, a) == Sum(Times(k, a), a)
  {
    hide Congruent, P, IsPrime, GroupLaw, Canonical, Sum, Neg;
    if k < 0 {
      NegCanonical(a);
      MultCanonical(-k - 1, Neg(a));
      Inverse(a);
      Commutative(a, Neg(a));
      CancelRight(Mult(-k - 1, Neg(a)), Neg(a), a);
      assert Mult(-k, Neg(a)) == Sum(Mult(-k - 1, Neg(a)), Neg(a));
      assert k + 1 == 0 ==> Mult(0, a) == Mult(0, Neg(a)) == Infinity;
    }
  }

  lemma TimesPred(k: int, a: Affine)
    requires IsPrime(P) && GroupLaw() && Canonical(a)
    ensures Times(k - 1, a) == Sum(Times(k, a), Neg(a))
  {
    hide Congruent, P, IsPrime, GroupLaw, Canonical, Sum, Neg, Mult;
    TimesSucc(k - 1, a);
    NegCanonical(a);
    TimesCanonical(k - 1, a);
    Inverse(a);
    CancelRight(Times(k - 1, a), a, Neg(a));
  }

  lemma {:induction false} TimesAdd(m: int, n: int, a: Affine)
    requires IsPrime(P) && GroupLaw() && Canonical(a)
    ensures Times(m + n, a) == Sum(Times(m, a), Times(n, a))
    decreases if n < 0 then -n else n
  {
    hide Congruent, P, IsPrime, GroupLaw, Canonical, Sum, Neg, Mult, Times;
    TimesCanonical(m, a);
    if n == 0 {
      TimesZero(a);
      Identity(Times(m, a));
    } else if n > 0 {
      TimesAdd(m, n - 1, a);
      TimesSucc(m + n - 1, a);
      TimesSucc(n - 1, a);
      TimesCanonical(n - 1, a);
      Associative(Times(m, a), Times(n - 1, a), a);
    } else {
      TimesAdd(m, n + 1, a);
      TimesPred(m + n + 1, a);
      TimesPred(n + 1, a);
      TimesCanonical(n + 1, a);
      NegCanonical(a);
      Associative(Times(m, a), Times(n + 1, a), Neg(a));
    }
  }

  lemma TimesZero(a: Affine)
    requires IsPrime(P)
    ensures Times(0, a) == Infinity
  {
    hide Congruent, P;
  }

  lemma TimesOne(a: Affine)
    requires IsPrime(P) && Canonical(a)
    ensures Times(1, a) == a
  {
    hide Congruent, P, IsPrime, Canonical, Sum;
    Identity(a);
    assert Mult(1, a) == Sum(Mult(0, a), a);
  }

  lemma {:induction false} TimesMul(m: int, n: int, a: Affine)
    requires IsPrime(P) && GroupLaw() && Canonical(a)
    ensures Times(m * n, a) == Times(m, Times(n, a))
    decreases if m < 0 then -m else m
  {
    hide Congruent, P, IsPrime, GroupLaw, Canonical, Sum, Neg, Mult, Times;
    var b := Times(n, a);
    TimesCanonical(n, a);
    if m == 0 {
      TimesZero(a);
      TimesZero(b);
    } else if m > 0 {
      TimesMul(m - 1, n, a);
      assert m * n == (m - 1) * n + n;
      TimesAdd((m - 1) * n, n, a);
      TimesSucc(m - 1, b);
    } else {
      TimesMul(m + 1, n, a);
      assert m * n + n == (m + 1) * n;
      TimesAdd(m * n, n, a);
      TimesSucc(m, b);
      TimesCanonical(m * n, a);
      TimesCanonical(m, b);
      CancelCommon(Times(m * n, a), Times(m, b), b);
    }
  }

  lemma CancelCommon(s: Affine, t: Affine, b: Affine)
    requires IsPrime(P) && GroupLaw() && Canonical(s) && Canonical(t) && Canonical(b) && Sum(s, b) == Sum(t, b)
    ensures s == t
  {
    hide Congruent, P, IsPrime, GroupLaw, Canonical, Sum, Neg;
    NegCanonical(b);
    Inverse(b);
    CancelRight(s, b, Neg(b));
    CancelRight(t, b, Neg(b));
  }

  /** A point killed by n only sees multipliers modulo n. */
  lemma TimesMod(k: int, l: int, n: int, q: int, a: Affine)
    requires IsPrime(P) && GroupLaw() && Canonical(a) && Times(n, a) == Infinity && k == l + q * n
    ensures Times(k, a) == Times(l, a)
  {
    hide Congruent, P, IsPrime, GroupLaw, Canonical, Sum, Neg, Mult, Times;
    TimesAdd(l, q * n, a);
    TimesMul(q, n, a);
    TimesInfinity(q);
    TimesCanonical(l, a);
    Identity(Times(l, a));
  }

  lemma {:induction false} MultInfinity(k: nat)
    requires IsPrime(P)
    ensures Mult(k, Infinity) == Infinity
  {
    hide Congruent, P, IsPrime, Canonical, Sum;
    if k > 0 {
      MultInfinity(k - 1);
      InfinityCanonical();
      Identity(Infinity);
    }
  }

  lemma TimesInfinity(k: int)
    requires IsPrime(P)
    ensures Times(k, Infinity) == Infinity
  {
    hide Congruent, P, IsPrime, Mult;
    MultInfinity(if k >= 0 then k else -k);
  }
}
