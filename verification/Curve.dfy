/** The Jacobian routines of btcec.go on field values that are changed in place.

Outputs may be the corresponding coordinates of the first operand.  Local temporaries are
values; coordinates are objects, and normalising an operand keeps the element it holds. */
module Curve {
  import opened NumberTheory
  import opened FieldProduct
  import opened FieldNormal
  import opened Congruence
  import Ops = FieldOps
  import opened Field
  import opened Jacobian
  import opened CurveLaw

  /** Held within the magnitude every routine accepts. */
  ghost predicate Small(f: FieldVal)
    reads f
  {
    f.Valid() && f.Mag() <= 7
  }

  /** Normalised. */
  ghost predicate Tidy(f: FieldVal)
    reads f
  {
    f.Valid() && f.Mag() <= 1 && Normal(f.n)
  }

  /** The word test for zero is exact, although the words need not be normalised. */
  ghost predicate ZeroExact(f: FieldVal)
    reads f
  {
    Congruent(f.e, 0) ==> f.n == [0, 0, 0, 0, 0, 0, 0, 0, 0, 0]
  }

  ghost function At(x: FieldVal, y: FieldVal, z: FieldVal): Jac
    reads x, y, z
  {
    Jac(x.e, y.e, z.e)
  }

  /** Outputs are distinct and may only share a coordinate with their own input. */
  ghost predicate Apart(x1: FieldVal, y1: FieldVal, z1: FieldVal, x3: FieldVal, y3: FieldVal, z3: FieldVal) {
    && x1 != y1 && x1 != z1 && y1 != z1 && x3 != y3 && x3 != z3 && y3 != z3
    && x3 != y1 && x3 != z1 && y3 != x1 && y3 != z1 && z3 != x1 && z3 != y1
  }

  lemma NormalZeroExact(f: FieldVal)
    requires f.Valid() && Normal(f.n)
    ensures ZeroExact(f)
  {
    hide Congruent, P;
    Ops.WordsZero(f.n, f.e);
  }

  /** The terms C = y^4, D = 4xy^2 and E = 3x^2 of both doubling routines. */
  method TwiceTerms(x1: Words, y1: Words, ghost X: int, ghost Y: int) returns (c: Words, d: Words, e: Words)
    requires Ops.Is(x1, X) && Ops.Is(y1, Y) && Ops.Mag(x1) <= 7 && Ops.Mag(y1) <= 8
    ensures var A, B := X * X, Y * Y; var C := B * B;
            && Ops.Is(c, C) && Ops.Mag(c) <= 1
            && Ops.Is(d, (-(A + C) + (B + X) * (B + X)) * 2) && Ops.Mag(d) <= 8
            && Ops.Is(e, A * 3) && Ops.Mag(e) <= 3
  {
    hide *;
    ghost var A, B := X * X, Y * Y;
    ghost var C := B * B;
    var a := Ops.Square(x1, X);
    var b := Ops.Square(y1, Y);
    c := Ops.Square(b, B);
    b := Ops.Add(b, x1, B, X);
    b := Ops.Square(b, B + X);
    d := Ops.Add(a, c, A, C);
    d := Ops.Negate(d, 2, A + C);
    d := Ops.Add(d, b, -(A + C), (B + X) * (B + X));
    d := Ops.MulInt(d, 2, -(A + C) + (B + X) * (B + X));
    e := Ops.MulInt(a, 3, A);
  }

  /** The coordinates x and y from those terms. */
  method TwiceFinish(c: Words, d: Words, e: Words, ghost C: int, ghost D: int, ghost E: int)
    returns (x3: Words, y3: Words)
    requires Ops.Is(c, C) && Ops.Mag(c) <= 1 && Ops.Is(d, D) && Ops.Mag(d) <= 8 && Ops.Is(e, E) && Ops.Mag(e) <= 3
    ensures var X := -(D * 2) + E * E;
            && Ops.Is(x3, X) && Normal(x3) && Ops.Mag(x3) <= 1
            && Ops.Is(y3, -(C * 8) + (-X + D) * E) && Normal(y3) && Ops.Mag(y3) <= 1
  {
    hide *;
    var f := Ops.Square(e, E);
    x3 := Ops.MulInt(d, 2, D);
    x3 := Ops.Negate(x3, 16, D * 2);
    x3 := Ops.Add(x3, f, -(D * 2), E * E);
    ghost var X := -(D * 2) + E * E;
    f := Ops.Negate(x3, 18, X);
    f := Ops.Add(f, d, -X, D);
    f := Ops.Normalize(f, -X + D);
    y3 := Ops.MulInt(c, 8, C);
    y3 := Ops.Negate(y3, 8, C * 8);
    f := Ops.Mul(f, e, -X + D, E);
    y3 := Ops.Add(y3, f, -(C * 8), (-X + D) * E);
    x3 := Ops.Normalize(x3, X);
    y3 := Ops.Normalize(y3, -(C * 8) + (-X + D) * E);
  }

  method DoubleZ1EqualsOne(x1: FieldVal, y1: FieldVal, ghost z1: FieldVal,
                           x3: FieldVal, y3: FieldVal, z3: FieldVal)
    requires Apart(x1, y1, z1, x3, y3, z3)
    requires Small(x1) && Small(y1)
    modifies x3, y3, z3
    ensures Tidy(x3) && Tidy(y3) && Tidy(z3)
    ensures At(x3, y3, z3) == Twice(old(At(x1, y1, z1)), true)
  {
    hide Congruent, P, Ops.Is, Ops.Mag, Normal;
    ghost var p := At(x1, y1, z1);
    var z := Ops.MulInt(y1.n, 2, y1.e);
    z3.Assign(z, y1.e * 2);
    var c, d, e := TwiceTerms(x1.n, y1.n, p.x, p.y);
    ghost var t := Twice(p, true);
    var x, y := TwiceFinish(c, d, e, (p.y * p.y) * (p.y * p.y),
      (-(p.x * p.x + (p.y * p.y) * (p.y * p.y)) + (p.y * p.y + p.x) * (p.y * p.y + p.x)) * 2, (p.x * p.x) * 3);
    x3.Assign(x, t.x);
    y3.Assign(y, t.y);
    z3.Normalize();
  }

  method DoubleGeneric(x1: FieldVal, y1: FieldVal, z1: FieldVal, x3: FieldVal, y3: FieldVal, z3: FieldVal)
    requires Apart(x1, y1, z1, x3, y3, z3)
    requires Small(x1) && Small(y1) && Small(z1)
    modifies x3, y3, z3
    ensures Tidy(x3) && Tidy(y3) && Tidy(z3)
    ensures At(x3, y3, z3) == Twice(old(At(x1, y1, z1)), false)
  {
    hide Congruent, P, Ops.Is, Ops.Mag, Normal;
    ghost var p := At(x1, y1, z1);
    var z := Ops.Mul(y1.n, z1.n, y1.e, z1.e);
    z := Ops.MulInt(z, 2, p.y * p.z);
    z3.Assign(z, (p.y * p.z) * 2);
    var c, d, e := TwiceTerms(x1.n, y1.n, p.x, p.y);
    ghost var t := Twice(p, false);
    var x, y := TwiceFinish(c, d, e, (p.y * p.y) * (p.y * p.y),
      (-(p.x * p.x + (p.y * p.y) * (p.y * p.y)) + (p.y * p.y + p.x) * (p.y * p.y + p.x)) * 2, (p.x * p.x) * 3);
    x3.Assign(x, t.x);
    y3.Assign(y, t.y);
    z3.Normalize();
  }

  method SetZero(x3: FieldVal, y3: FieldVal, z3: FieldVal)
    requires x3 != y3 && x3 != z3 && y3 != z3
    modifies x3, y3, z3
    ensures Tidy(x3) && Tidy(y3) && Tidy(z3)
    ensures At(x3, y3, z3) == Jac(0, 0, 0)
  {
    hide Congruent, P, Ops.Is, Ops.Mag, Normal;
    x3.SetInt(0);
    y3.SetInt(0);
    z3.SetInt(0);
  }

  method DoubleJacobian(x1: FieldVal, y1: FieldVal, z1: FieldVal, x3: FieldVal, y3: FieldVal, z3: FieldVal)
    requires Apart(x1, y1, z1, x3, y3, z3)
    requires Small(x1) && Small(y1) && Small(z1) && ZeroExact(y1) && ZeroExact(z1)
    modifies z1, x3, y3, z3
    ensures Tidy(x3) && Tidy(y3) && Tidy(z3)
    ensures At(x3, y3, z3) == DoubleJ(old(At(x1, y1, z1)))
    ensures z1 != z3 ==> z1.e == old(z1.e) && Small(z1) && ZeroExact(z1)
    ensures IsPrime(P) ==> forall a, c :: Denotes(old(At(x1, y1, z1)), a) && IsSum(a, a, c) ==> Denotes(At(x3, y3, z3), c)
  {
    hide *;
    ghost var p := At(x1, y1, z1);
    if IsPrime(P) {
      forall a, c | Denotes(p, a) && IsSum(a, a, c)
        ensures Denotes(DoubleJ(p), c)
      {
        DoubleStands(p, a, c);
      }
    }
    DoubleAny(x1, y1, z1, x3, y3, z3);
  }

  lemma DoubleStands(p: Jac, a: Affine, c: Affine)
    requires IsPrime(P) && Denotes(p, a) && IsSum(a, a, c)
    ensures Denotes(DoubleJ(p), c)
  {
    if a.Point? {
      DoubleDenotes(p, a.x, a.y, c);
    } else {
      CongruentFromQuotient(0, 0, 0);
      hide Congruent, P, IsPrime, Twice;
    }
  }

  /** The case distinction of doubleJacobian. */
  method DoubleAny(x1: FieldVal, y1: FieldVal, z1: FieldVal, x3: FieldVal, y3: FieldVal, z3: FieldVal)
    requires Apart(x1, y1, z1, x3, y3, z3)
    requires Small(x1) && Small(y1) && Small(z1) && ZeroExact(y1) && ZeroExact(z1)
    modifies z1, x3, y3, z3
    ensures Tidy(x3) && Tidy(y3) && Tidy(z3)
    ensures At(x3, y3, z3) == DoubleJ(old(At(x1, y1, z1)))
    ensures z1 != z3 ==> z1.e == old(z1.e) && Small(z1) && ZeroExact(z1)
  {
    hide Ops.Is, Ops.Mag, Normal, Congruent, P, Twice;
    var yZero := y1.IsZero();
    var zZero := z1.IsZero();
    if yZero || zZero {
      SetZero(x3, y3, z3);
      return;
    }
    z1.Normalize();
    NormalZeroExact(z1);
    var fieldOne := new FieldVal();
    fieldOne.SetInt(1);
    var isOne := z1.Equals(fieldOne);
    if isOne {
      DoubleZ1EqualsOne(x1, y1, z1, x3, y3, z3);
    } else {
      DoubleGeneric(x1, y1, z1, x3, y3, z3);
    }
  }

  /** x * zz and y * zz * z, normalised for comparison. */
  method CommonTerms(x: Words, y: Words, z: Words, zz: Words, ghost X: int, ghost Y: int, ghost Z: int)
    returns (u: Words, s: Words)
    requires Ops.Is(x, X) && Ops.Is(y, Y) && Ops.Is(z, Z) && Ops.Is(zz, Z * Z)
    requires Ops.Mag(x) <= 8 && Ops.Mag(y) <= 8 && Ops.Mag(z) <= 8 && Ops.Mag(zz) <= 1
    ensures Ops.Is(u, X * (Z * Z)) && Ops.Mag(u) <= 1 && Normal(u)
    ensures Ops.Is(s, Y * (Z * Z) * Z) && Ops.Mag(s) <= 1 && Normal(s)
  {
    hide *;
    u := Ops.Mul(x, zz, X, Z * Z);
    u := Ops.Normalize(u, X * (Z * Z));
    s := Ops.Mul(y, zz, Y, Z * Z);
    s := Ops.Mul(s, z, Y * (Z * Z), Z);
    s := Ops.Normalize(s, Y * (Z * Z) * Z);
  }

  /** The terms h, j, r and v of addGeneric. */
  method GenericTerms(u1: Words, s1: Words, u2: Words, s2: Words,
                      ghost U1: int, ghost S1: int, ghost U2: int, ghost S2: int)
    returns (h: Words, j: Words, r: Words, v: Words)
    requires Ops.Is(u1, U1) && Ops.Is(s1, S1) && Ops.Is(u2, U2) && Ops.Is(s2, S2)
    requires Ops.Mag(u1) <= 1 && Ops.Mag(s1) <= 1 && Ops.Mag(u2) <= 1 && Ops.Mag(s2) <= 1
    ensures var H := U2 + -U1; var I := (H * 2) * (H * 2);
            && Ops.Is(h, H) && Ops.Mag(h) <= 3
            && Ops.Is(j, H * I) && Ops.Mag(j) <= 1
            && Ops.Is(r, (S2 + -S1) * 2) && Ops.Mag(r) <= 6
            && Ops.Is(v, U1 * I) && Ops.Mag(v) <= 1
  {
    hide *;
    ghost var H := U2 + -U1;
    var negU1 := Ops.Negate(u1, 1, U1);
    h := Ops.Add(u2, negU1, U2, -U1);
    var i := Ops.MulInt(h, 2, H);
    i := Ops.Square(i, H * 2);
    j := Ops.Mul(h, i, H, (H * 2) * (H * 2));
    var negS1 := Ops.Negate(s1, 1, S1);
    r := Ops.Add(s2, negS1, S2, -S1);
    r := Ops.MulInt(r, 2, S2 + -S1);
    v := Ops.Mul(u1, i, U1, (H * 2) * (H * 2));
  }

  /** x3 = r^2 - j - 2v and y3 = r (v - x3) - 2 s1 j. */
  method ScaledFinish(s1: Words, j: Words, r: Words, v: Words, ghost S1: int, ghost J: int, ghost R: int, ghost V: int)
    returns (x3: Words, y3: Words)
    requires Ops.Is(s1, S1) && Ops.Is(j, J) && Ops.Is(r, R) && Ops.Is(v, V)
    requires Ops.Mag(s1) <= 1 && Ops.Mag(j) <= 1 && Ops.Mag(r) <= 6 && Ops.Mag(v) <= 1
    ensures var X := -(V * 2 + J) + R * R;
            && Ops.Is(x3, X) && Ops.Mag(x3) <= 1 && Normal(x3)
            && Ops.Is(y3, -((S1 * J) * 2) + (V + -X) * R) && Ops.Mag(y3) <= 1 && Normal(y3)
  {
    hide *;
    var rr := Ops.Square(r, R);
    x3 := Ops.MulInt(v, 2, V);
    x3 := Ops.Add(x3, j, V * 2, J);
    x3 := Ops.Negate(x3, 3, V * 2 + J);
    x3 := Ops.Add(x3, rr, -(V * 2 + J), R * R);
    ghost var X := -(V * 2 + J) + R * R;
    var negX3 := Ops.Negate(x3, 5, X);
    y3 := Ops.Mul(s1, j, S1, J);
    y3 := Ops.MulInt(y3, 2, S1 * J);
    y3 := Ops.Negate(y3, 2, (S1 * J) * 2);
    var v' := Ops.Add(v, negX3, V, -X);
    v' := Ops.Mul(v', r, V + -X, R);
    y3 := Ops.Add(y3, v', -((S1 * J) * 2), (V + -X) * R);
    x3 := Ops.Normalize(x3, X);
    y3 := Ops.Normalize(y3, -((S1 * J) * 2) + (V + -X) * R);
  }

  ghost predicate Disjoint(x2: FieldVal, y2: FieldVal, z2: FieldVal, x3: FieldVal, y3: FieldVal, z3: FieldVal) {
    && x3 != x2 && x3 != y2 && x3 != z2 && y3 != x2 && y3 != y2 && y3 != z2 && z3 != x2 && z3 != y2 && z3 != z2
  }

  /** The operands share no coordinate, except that both may have the same z. */
  ghost predicate Separate(x1: FieldVal, y1: FieldVal, z1: FieldVal, x2: FieldVal, y2: FieldVal, z2: FieldVal) {
    x2 != x1 && x2 != y1 && x2 != z1 && y2 != x1 && y2 != y1 && y2 != z1 && z2 != x1 && z2 != y1
  }

  method AddGeneric(x1: FieldVal, y1: FieldVal, z1: FieldVal, x2: FieldVal, y2: FieldVal, z2: FieldVal,
                    x3: FieldVal, y3: FieldVal, z3: FieldVal)
    requires Apart(x1, y1, z1, x3, y3, z3) && Disjoint(x2, y2, z2, x3, y3, z3) && z1 != z2 && z1 != x2 && z1 != y2
    requires Small(x1) && Small(y1) && Small(z1) && Small(x2) && Small(y2) && Small(z2)
    requires z1.Mag() <= 1 && z2.Mag() <= 1 && ZeroExact(y1) && ZeroExact(z1)
    modifies z1, x3, y3, z3
    ensures Tidy(x3) && Tidy(y3) && z3.Valid() && z3.Mag() <= 1
    ensures var p, q := old(At(x1, y1, z1)), old(At(x2, y2, z2));
            At(x3, y3, z3) == Outcome(p, p.x * (q.z * q.z), p.y * (q.z * q.z) * q.z,
                                      q.x * (p.z * p.z), q.y * (p.z * p.z) * p.z, GenericSum(p, q))
    ensures z1 != z3 ==> z1.e == old(z1.e) && Small(z1) && ZeroExact(z1)
    ensures Congruent(old(x1.e * (z2.e * z2.e)), old(x2.e * (z1.e * z1.e))) ==> Tidy(z3)
  {
    hide Ops.Is, Ops.Mag, Normal, Congruent, P, DoubleJ, GenericSum;
    ghost var p, q := At(x1, y1, z1), At(x2, y2, z2);
    ghost var U1, S1 := p.x * (q.z * q.z), p.y * (q.z * q.z) * q.z;
    ghost var U2, S2 := q.x * (p.z * p.z), q.y * (p.z * p.z) * p.z;
    var z1z1 := Ops.Square(z1.n, p.z);
    var z2z2 := Ops.Square(z2.n, q.z);
    var u1, s1 := CommonTerms(x1.n, y1.n, z2.n, z2z2, p.x, p.y, q.z);
    var u2, s2 := CommonTerms(x2.n, y2.n, z1.n, z1z1, q.x, q.y, p.z);
    NormalCompare(u1, u2, U1, U2);
    NormalCompare(s1, s2, S1, S2);
    if u1 == u2 {
      if s1 == s2 {
        DoubleJacobian(x1, y1, z1, x3, y3, z3);
        return;
      }
      SetZero(x3, y3, z3);
      return;
    }
    GenericBranch(z1, z2, x3, y3, z3, z1z1, z2z2, u1, s1, u2, s2, p, q);
  }

  /** The branch of addGeneric where the abscissas differ. */
  method GenericBranch(z1: FieldVal, z2: FieldVal, x3: FieldVal, y3: FieldVal, z3: FieldVal, z1z1: Words, z2z2: Words,
                       u1: Words, s1: Words, u2: Words, s2: Words, ghost p: Jac, ghost q: Jac)
    requires x3 != y3 && x3 != z3 && y3 != z3 && x3 != z1 && y3 != z1 && x3 != z2 && y3 != z2 && z3 != z2
    requires z1.Valid() && z2.Valid() && z1.Mag() <= 1 && z2.Mag() <= 1 && z1.e == p.z && z2.e == q.z
    requires Ops.Is(z1z1, p.z * p.z) && Ops.Mag(z1z1) <= 1 && Ops.Is(z2z2, q.z * q.z) && Ops.Mag(z2z2) <= 1
    requires Ops.Is(u1, p.x * (q.z * q.z)) && Ops.Is(s1, p.y * (q.z * q.z) * q.z)
    requires Ops.Is(u2, q.x * (p.z * p.z)) && Ops.Is(s2, q.y * (p.z * p.z) * p.z)
    requires Ops.Mag(u1) <= 1 && Ops.Mag(s1) <= 1 && Ops.Mag(u2) <= 1 && Ops.Mag(s2) <= 1
    modifies x3, y3, z3
    ensures Tidy(x3) && Tidy(y3) && z3.Valid() && z3.Mag() <= 1
    ensures At(x3, y3, z3) == GenericSum(p, q)
  {
    hide Congruent, P, Ops.Is, Ops.Mag, Normal;
    ghost var U1, S1 := p.x * (q.z * q.z), p.y * (q.z * q.z) * q.z;
    ghost var U2, S2 := q.x * (p.z * p.z), q.y * (p.z * p.z) * p.z;
    ghost var H := U2 + -U1;
    ghost var I := (H * 2) * (H * 2);
    ghost var sum := GenericSum(p, q);
    var h, j, r, v := GenericTerms(u1, s1, u2, s2, U1, S1, U2, S2);
    var x, y := ScaledFinish(s1, j, r, v, S1, H * I, (S2 + -S1) * 2, U1 * I);
    x3.Assign(x, sum.x);
    y3.Assign(y, sum.y);
    GenericZ(z1, z2, z3, z1z1, z2z2, h, H);
  }

  /** z3 = ((z1 + z2)^2 - z1^2 - z2^2) h, left without normalisation. */
  method GenericZ(z1: FieldVal, z2: FieldVal, z3: FieldVal, z1z1: Words, z2z2: Words, h: Words, ghost H: int)
    requires z3 != z2 && z1.Valid() && z2.Valid() && z1.Mag() <= 1 && z2.Mag() <= 1
    requires Ops.Is(z1z1, z1.e * z1.e) && Ops.Mag(z1z1) <= 1 && Ops.Is(z2z2, z2.e * z2.e) && Ops.Mag(z2z2) <= 1
    requires Ops.Is(h, H) && Ops.Mag(h) <= 3
    modifies z3
    ensures z3.Valid() && z3.Mag() <= 1
    ensures z3.e == ((old(z1.e) + z2.e) * (old(z1.e) + z2.e) + -(old(z1.e) * old(z1.e) + z2.e * z2.e)) * H
  {
    hide Congruent, P, Ops.Is, Ops.Mag;
    ghost var Z1, Z2 := z1.e, z2.e;
    var z := Ops.Add(z1.n, z2.n, Z1, Z2);
    z := Ops.Square(z, Z1 + Z2);
    var t := Ops.Add(z1z1, z2z2, Z1 * Z1, Z2 * Z2);
    t := Ops.Negate(t, 2, Z1 * Z1 + Z2 * Z2);
    z := Ops.Add(z, t, (Z1 + Z2) * (Z1 + Z2), -(Z1 * Z1 + Z2 * Z2));
    z := Ops.Mul(z, h, (Z1 + Z2) * (Z1 + Z2) + -(Z1 * Z1 + Z2 * Z2), H);
    z3.Assign(z, ((Z1 + Z2) * (Z1 + Z2) + -(Z1 * Z1 + Z2 * Z2)) * H);
  }

  lemma NormalCompare(a: Words, b: Words, x: int, y: int)
    requires Ops.Is(a, x) && Ops.Is(b, y) && Normal(a) && Normal(b)
    ensures a == b <==> Congruent(x, y)
  {
    hide Congruent, P;
    NormalUnique(a, b);
    Ops.CongruentIff(Value(a), x, Value(b), y);
  }

  /** The terms h, j, r and v of addZ2EqualsOne. */
  method MixedTerms(u1: Words, s1: Words, u2: Words, s2: Words,
                    ghost U1: int, ghost S1: int, ghost U2: int, ghost S2: int)
    returns (h: Words, hh: Words, j: Words, r: Words, v: Words)
    requires Ops.Is(u1, U1) && Ops.Is(s1, S1) && Ops.Is(u2, U2) && Ops.Is(s2, S2)
    requires Ops.Mag(u1) <= 1 && Ops.Mag(s1) <= 1 && Ops.Mag(u2) <= 1 && Ops.Mag(s2) <= 1
    ensures var H := U2 + -U1; var I := (H * H) * 4;
            && Ops.Is(h, H) && Ops.Mag(h) <= 3
            && Ops.Is(hh, H * H) && Ops.Mag(hh) <= 1
            && Ops.Is(j, H * I) && Ops.Mag(j) <= 1
            && Ops.Is(r, (S2 + -S1) * 2) && Ops.Mag(r) <= 6
            && Ops.Is(v, U1 * I) && Ops.Mag(v) <= 1
  {
    hide *;
    ghost var H := U2 + -U1;
    var negX1 := Ops.Negate(u1, 1, U1);
    h := Ops.Add(u2, negX1, U2, -U1);
    hh := Ops.Square(h, H);
    var i := Ops.MulInt(hh, 4, H * H);
    j := Ops.Mul(h, i, H, (H * H) * 4);
    var negY1 := Ops.Negate(s1, 1, S1);
    r := Ops.Add(s2, negY1, S2, -S1);
    r := Ops.MulInt(r, 2, S2 + -S1);
    v := Ops.Mul(u1, i, U1, (H * H) * 4);
  }

  /** z3 = (z1 + h)^2 - z1^2 - h^2. */
  method MixedZ(z1: FieldVal, z3: FieldVal, z1z1: Words, h: Words, hh: Words, ghost H: int)
    requires z1.Valid() && z1.Mag() <= 1
    requires Ops.Is(z1z1, z1.e * z1.e) && Ops.Mag(z1z1) <= 1 && Ops.Is(h, H) && Ops.Mag(h) <= 3
    requires Ops.Is(hh, H * H) && Ops.Mag(hh) <= 1
    modifies z3
    ensures Tidy(z3)
    ensures z3.e == (old(z1.e) + H) * (old(z1.e) + H) + -(old(z1.e) * old(z1.e) + H * H)
  {
    hide Congruent, P, Ops.Is, Ops.Mag, Normal;
    ghost var Z := z1.e;
    var z := Ops.Add(z1.n, h, Z, H);
    z := Ops.Square(z, Z + H);
    var t := Ops.Add(z1z1, hh, Z * Z, H * H);
    t := Ops.Negate(t, 2, Z * Z + H * H);
    z := Ops.Add(z, t, (Z + H) * (Z + H), -(Z * Z + H * H));
    z := Ops.Normalize(z, (Z + H) * (Z + H) + -(Z * Z + H * H));
    z3.Assign(z, (Z + H) * (Z + H) + -(Z * Z + H * H));
  }

  method AddZ2EqualsOne(x1: FieldVal, y1: FieldVal, z1: FieldVal, x2: FieldVal, y2: FieldVal, ghost z2: FieldVal,
                        x3: FieldVal, y3: FieldVal, z3: FieldVal)
    requires Apart(x1, y1, z1, x3, y3, z3) && Disjoint(x2, y2, z2, x3, y3, z3) && Separate(x1, y1, z1, x2, y2, z2)
    requires Small(x1) && Small(y1) && Small(z1) && Small(x2) && Small(y2)
    requires z1.Mag() <= 1 && ZeroExact(z1)
    modifies x1, y1, z1, x3, y3, z3
    ensures Tidy(x3) && Tidy(y3) && Tidy(z3)
    ensures var p, q := old(At(x1, y1, z1)), old(At(x2, y2, z2));
            At(x3, y3, z3) == Outcome(p, p.x, p.y, q.x * (p.z * p.z), q.y * (p.z * p.z) * p.z, MixedSum(p, q))
  {
    hide Ops.Is, Ops.Mag, Normal, Congruent, P, DoubleJ, MixedSum;
    ghost var p, q := At(x1, y1, z1), At(x2, y2, z2);
    x1.Normalize();
    y1.Normalize();
    var z1z1 := Ops.Square(z1.n, p.z);
    var u2, s2 := CommonTerms(x2.n, y2.n, z1.n, z1z1, q.x, q.y, p.z);
    NormalCompare(x1.n, u2, p.x, q.x * (p.z * p.z));
    NormalCompare(y1.n, s2, p.y, q.y * (p.z * p.z) * p.z);
    if x1.n == u2 {
      if y1.n == s2 {
        NormalZeroExact(y1);
        DoubleJacobian(x1, y1, z1, x3, y3, z3);
        return;
      }
      SetZero(x3, y3, z3);
      return;
    }
    MixedBranch(x1, y1, z1, x3, y3, z3, z1z1, u2, s2, p, q);
  }

  /** The branch of addZ2EqualsOne where the abscissas differ. */
  method MixedBranch(x1: FieldVal, y1: FieldVal, z1: FieldVal, x3: FieldVal, y3: FieldVal, z3: FieldVal,
                     z1z1: Words, u2: Words, s2: Words, ghost p: Jac, ghost q: Jac)
    requires Apart(x1, y1, z1, x3, y3, z3)
    requires Tidy(x1) && Tidy(y1) && z1.Valid() && z1.Mag() <= 1 && At(x1, y1, z1) == p
    requires Ops.Is(z1z1, p.z * p.z) && Ops.Mag(z1z1) <= 1
    requires Ops.Is(u2, q.x * (p.z * p.z)) && Ops.Mag(u2) <= 1
    requires Ops.Is(s2, q.y * (p.z * p.z) * p.z) && Ops.Mag(s2) <= 1
    modifies x3, y3, z3
    ensures Tidy(x3) && Tidy(y3) && Tidy(z3)
    ensures At(x3, y3, z3) == MixedSum(p, q)
  {
    hide Congruent, P, Ops.Is, Ops.Mag, Normal;
    ghost var U2, S2 := q.x * (p.z * p.z), q.y * (p.z * p.z) * p.z;
    ghost var H := U2 + -p.x;
    ghost var I := (H * H) * 4;
    ghost var sum := MixedSum(p, q);
    var h, hh, j, r, v := MixedTerms(x1.n, y1.n, u2, s2, p.x, p.y, U2, S2);
    var x, y := ScaledFinish(y1.n, j, r, v, p.y, H * I, (S2 + -p.y) * 2, p.x * I);
    x3.Assign(x, sum.x);
    y3.Assign(y, sum.y);
    MixedZ(z1, z3, z1z1, h, hh, H);
  }

  /** The coordinates of addZ1AndZ2EqualsOne. */
  method UnitCoordinates(x1: Words, y1: Words, x2: Words, y2: Words, ghost p: Jac, ghost q: Jac)
    returns (x3: Words, y3: Words, z3: Words)
    requires Ops.Is(x1, p.x) && Ops.Is(y1, p.y) && Ops.Is(x2, q.x) && Ops.Is(y2, q.y)
    requires Ops.Mag(x1) <= 1 && Ops.Mag(y1) <= 1 && Ops.Mag(x2) <= 1 && Ops.Mag(y2) <= 1
    ensures Ops.Is(x3, UnitSum(p, q).x) && Ops.Mag(x3) <= 1 && Normal(x3)
    ensures Ops.Is(y3, UnitSum(p, q).y) && Ops.Mag(y3) <= 1 && Normal(y3)
    ensures Ops.Is(z3, UnitSum(p, q).z) && Ops.Mag(z3) <= 1 && Normal(z3)
  {
    hide Congruent, P, Ops.Is, Ops.Mag, Normal;
    ghost var H := -p.x + q.x;
    ghost var I := (H * H) * 4;
    ghost var J, V, R := H * I, p.x * I, (-p.y + q.y) * 2;
    var h := Ops.Negate(x1, 1, p.x);
    h := Ops.Add(h, x2, -p.x, q.x);
    var i := Ops.Square(h, H);
    i := Ops.MulInt(i, 4, H * H);
    var j := Ops.Mul(h, i, H, I);
    var r := Ops.Negate(y1, 1, p.y);
    r := Ops.Add(r, y2, -p.y, q.y);
    r := Ops.MulInt(r, 2, -p.y + q.y);
    var v := Ops.Mul(x1, i, p.x, I);
    x3, y3 := UnitFinish(y1, j, r, v, p.y, J, R, V);
    z3 := Ops.MulInt(h, 2, H);
    z3 := Ops.Normalize(z3, H * 2);
  }

  /** x3 = r^2 - j - 2v and y3 = r (v - x3) - 2 y1 j, in the order of addZ1AndZ2EqualsOne. */
  method UnitFinish(y1: Words, j: Words, r: Words, v: Words, ghost Y: int, ghost J: int, ghost R: int, ghost V: int)
    returns (x3: Words, y3: Words)
    requires Ops.Is(y1, Y) && Ops.Is(j, J) && Ops.Is(r, R) && Ops.Is(v, V)
    requires Ops.Mag(y1) <= 1 && Ops.Mag(j) <= 1 && Ops.Mag(r) <= 6 && Ops.Mag(v) <= 1
    ensures var X := R * R + -J + -(V * 2);
            && Ops.Is(x3, X) && Ops.Mag(x3) <= 1 && Normal(x3)
            && Ops.Is(y3, (V + -X) * R + -((J * Y) * 2)) && Ops.Mag(y3) <= 1 && Normal(y3)
  {
    hide *;
    ghost var X := R * R + -J + -(V * 2);
    var negJ := Ops.Negate(j, 1, J);
    var neg2V := Ops.MulInt(v, 2, V);
    neg2V := Ops.Negate(neg2V, 2, V * 2);
    x3 := Ops.Square(r, R);
    x3 := Ops.Add(x3, negJ, R * R, -J);
    x3 := Ops.Add(x3, neg2V, R * R + -J, -(V * 2));
    var negX3 := Ops.Negate(x3, 6, X);
    var j' := Ops.Mul(j, y1, J, Y);
    j' := Ops.MulInt(j', 2, J * Y);
    j' := Ops.Negate(j', 2, (J * Y) * 2);
    y3 := Ops.Add(v, negX3, V, -X);
    y3 := Ops.Mul(y3, r, V + -X, R);
    y3 := Ops.Add(y3, j', (V + -X) * R, -((J * Y) * 2));
    x3 := Ops.Normalize(x3, X);
    y3 := Ops.Normalize(y3, (V + -X) * R + -((J * Y) * 2));
  }

  method AddZ1AndZ2EqualsOne(x1: FieldVal, y1: FieldVal, z1: FieldVal, x2: FieldVal, y2: FieldVal, ghost z2: FieldVal,
                             x3: FieldVal, y3: FieldVal, z3: FieldVal)
    requires Apart(x1, y1, z1, x3, y3, z3) && Disjoint(x2, y2, z2, x3, y3, z3) && Separate(x1, y1, z1, x2, y2, z2)
    requires x2 != y2 && z2 != x2 && z2 != y2
    requires Small(x1) && Small(y1) && Small(z1) && Small(x2) && Small(y2) && ZeroExact(z1)
    modifies x1, y1, z1, x2, y2, x3, y3, z3
    ensures Tidy(x3) && Tidy(y3) && Tidy(z3) && Tidy(x2) && Tidy(y2) && x2.e == old(x2.e) && y2.e == old(y2.e)
    ensures var p, q := old(At(x1, y1, z1)), old(At(x2, y2, z2));
            At(x3, y3, z3) == Outcome(p, p.x, p.y, q.x, q.y, UnitSum(p, q))
    ensures z1 != z3 ==> z1.e == old(z1.e) && Small(z1) && ZeroExact(z1)
  {
    hide Ops.Is, Ops.Mag, Normal, Congruent, P, DoubleJ, UnitSum;
    ghost var p, q := At(x1, y1, z1), At(x2, y2, z2);
    x1.Normalize();
    y1.Normalize();
    x2.Normalize();
    y2.Normalize();
    NormalCompare(x1.n, x2.n, p.x, q.x);
    NormalCompare(y1.n, y2.n, p.y, q.y);
    if x1.n == x2.n {
      if y1.n == y2.n {
        NormalZeroExact(y1);
        DoubleJacobian(x1, y1, z1, x3, y3, z3);
        return;
      }
      SetZero(x3, y3, z3);
      return;
    }
    ghost var sum := UnitSum(p, q);
    var x, y, z := UnitCoordinates(x1.n, y1.n, x2.n, y2.n, p, q);
    x3.Assign(x, sum.x);
    y3.Assign(y, sum.y);
    z3.Assign(z, sum.z);
  }

  /** The coordinates x and y of addZ1EqualsZ2, and A = x2 - x1. */
  method SameZCoordinates(x1: Words, y1: Words, x2: Words, y2: Words, ghost p: Jac, ghost q: Jac)
    returns (x3: Words, y3: Words, a: Words)
    requires Ops.Is(x1, p.x) && Ops.Is(y1, p.y) && Ops.Is(x2, q.x) && Ops.Is(y2, q.y)
    requires Ops.Mag(x1) <= 1 && Ops.Mag(y1) <= 1 && Ops.Mag(x2) <= 1 && Ops.Mag(y2) <= 1
    ensures Ops.Is(x3, SameZSum(p, q).x) && Ops.Mag(x3) <= 1 && Normal(x3)
    ensures Ops.Is(y3, SameZSum(p, q).y) && Ops.Mag(y3) <= 1 && Normal(y3)
    ensures Ops.Is(a, -p.x + q.x) && Ops.Mag(a) <= 3
  {
    hide Congruent, P, Ops.Is, Ops.Mag, Normal;
    ghost var A, C := -p.x + q.x, -p.y + q.y;
    ghost var B := A * A;
    ghost var E, F := p.x * B, q.x * B;
    a := Ops.Negate(x1, 1, p.x);
    a := Ops.Add(a, x2, -p.x, q.x);
    var c := Ops.Negate(y1, 1, p.y);
    c := Ops.Add(c, y2, -p.y, q.y);
    var b := Ops.Square(a, A);
    var e := Ops.Mul(x1, b, p.x, B);
    var f := Ops.Mul(x2, b, q.x, B);
    x3, y3 := SameZFinish(y1, c, e, f, p.y, C, E, F);
  }

  method SameZFinish(y1: Words, c: Words, e: Words, f: Words, ghost Y: int, ghost C: int, ghost E: int, ghost F: int)
    returns (x3: Words, y3: Words)
    requires Ops.Is(y1, Y) && Ops.Is(c, C) && Ops.Is(e, E) && Ops.Is(f, F)
    requires Ops.Mag(y1) <= 1 && Ops.Mag(c) <= 3 && Ops.Mag(e) <= 1 && Ops.Mag(f) <= 1
    ensures var X := -(E + F) + C * C;
            && Ops.Is(x3, X) && Ops.Mag(x3) <= 1 && Normal(x3)
            && Ops.Is(y3, -(Y * (F + -E)) + (E + -X) * C) && Ops.Mag(y3) <= 1 && Normal(y3)
  {
    hide *;
    ghost var X := -(E + F) + C * C;
    var d := Ops.Square(c, C);
    var negE := Ops.Negate(e, 1, E);
    x3 := Ops.Add(e, f, E, F);
    x3 := Ops.Negate(x3, 3, E + F);
    x3 := Ops.Add(x3, d, -(E + F), C * C);
    var negX3 := Ops.Negate(x3, 5, X);
    negX3 := Ops.Normalize(negX3, -X);
    var f' := Ops.Add(f, negE, F, -E);
    y3 := Ops.Mul(y1, f', Y, F + -E);
    y3 := Ops.Negate(y3, 3, Y * (F + -E));
    var e' := Ops.Add(e, negX3, E, -X);
    e' := Ops.Mul(e', c, E + -X, C);
    y3 := Ops.Add(y3, e', -(Y * (F + -E)), (E + -X) * C);
    x3 := Ops.Normalize(x3, X);
    y3 := Ops.Normalize(y3, -(Y * (F + -E)) + (E + -X) * C);
  }

  method AddZ1EqualsZ2(x1: FieldVal, y1: FieldVal, z1: FieldVal, x2: FieldVal, y2: FieldVal, ghost z2: FieldVal,
                       x3: FieldVal, y3: FieldVal, z3: FieldVal)
    requires Apart(x1, y1, z1, x3, y3, z3) && Disjoint(x2, y2, z2, x3, y3, z3) && Separate(x1, y1, z1, x2, y2, z2)
    requires x2 != y2 && z2 != x2 && z2 != y2
    requires Small(x1) && Small(y1) && Small(z1) && Small(x2) && Small(y2) && ZeroExact(z1)
    modifies x1, y1, z1, x2, y2, x3, y3, z3
    ensures Tidy(x3) && Tidy(y3) && z3.Valid() && z3.Mag() <= 1
    ensures Tidy(x2) && Tidy(y2) && x2.e == old(x2.e) && y2.e == old(y2.e)
    ensures var p, q := old(At(x1, y1, z1)), old(At(x2, y2, z2));
            At(x3, y3, z3) == Outcome(p, p.x, p.y, q.x, q.y, SameZSum(p, q))
    ensures Congruent(old(x1.e), old(x2.e)) ==> Tidy(z3)
    ensures z1 != z3 ==> z1.e == old(z1.e) && Small(z1) && ZeroExact(z1)
  {
    hide Ops.Is, Ops.Mag, Normal, Congruent, P, DoubleJ;
    ghost var p, q := At(x1, y1, z1), At(x2, y2, z2);
    x1.Normalize();
    y1.Normalize();
    x2.Normalize();
    y2.Normalize();
    NormalCompare(x1.n, x2.n, p.x, q.x);
    NormalCompare(y1.n, y2.n, p.y, q.y);
    if x1.n == x2.n {
      if y1.n == y2.n {
        NormalZeroExact(y1);
        DoubleJacobian(x1, y1, z1, x3, y3, z3);
        return;
      }
      SetZero(x3, y3, z3);
      return;
    }
    ghost var sum := SameZSum(p, q);
    var x, y, a := SameZCoordinates(x1.n, y1.n, x2.n, y2.n, p, q);
    x3.Assign(x, sum.x);
    y3.Assign(y, sum.y);
    var z := Ops.Mul(z1.n, a, p.z, -p.x + q.x);
    z3.Assign(z, p.z * (-p.x + q.x));
  }

  /** A point as the routines hand it around: the word tests tell whether it is at infinity. */
  ghost predicate Held(x: FieldVal, y: FieldVal, z: FieldVal)
    reads x, y, z
  {
    Small(x) && Small(y) && Small(z) && ZeroExact(y) && ZeroExact(z) && (Congruent(y.e, 0) ==> ZeroExact(x))
  }

  lemma TidyExact(f: FieldVal)
    requires Tidy(f)
    ensures Small(f) && ZeroExact(f)
  {
    hide Congruent, P;
    NormalZeroExact(f);
  }

  /** Whether the word tests take the triple for the point at infinity. */
  method IsInfinity(x: FieldVal, y: FieldVal, z: FieldVal) returns (inf: bool)
    requires Held(x, y, z)
    ensures inf <==> AtInfinity(At(x, y, z))
  {
    hide Ops.Is, Ops.Mag, Normal, Congruent, P;
    var xZero := x.IsZero();
    var yZero := y.IsZero();
    var zZero := z.IsZero();
    inf := (xZero && yZero) || zZero;
  }

  /** Addition computes AddJ, also when the outputs are the first operand. */
  method AddJacobian(x1: FieldVal, y1: FieldVal, z1: FieldVal, x2: FieldVal, y2: FieldVal, z2: FieldVal,
                     x3: FieldVal, y3: FieldVal, z3: FieldVal)
    requires IsPrime(P)
    requires Apart(x1, y1, z1, x3, y3, z3) && Disjoint(x2, y2, z2, x3, y3, z3) && Separate(x1, y1, z1, x2, y2, z2)
    requires x2 != y2 && z2 != x2 && z2 != y2
    requires Held(x1, y1, z1) && Held(x2, y2, z2)
    modifies x1, y1, z1, x2, y2, z2, x3, y3, z3
    ensures Held(x3, y3, z3) && Held(x2, y2, z2)
    ensures At(x2, y2, z2) == old(At(x2, y2, z2))
    ensures At(x3, y3, z3) == AddJ(old(At(x1, y1, z1)), old(At(x2, y2, z2)))
    ensures forall a, b, c :: Denotes(old(At(x1, y1, z1)), a) && Denotes(old(At(x2, y2, z2)), b) && IsSum(a, b, c) ==>
                                Denotes(At(x3, y3, z3), c)
  {
    hide *;
    ghost var p, q := At(x1, y1, z1), At(x2, y2, z2);
    forall a, b, c | Denotes(p, a) && Denotes(q, b) && IsSum(a, b, c)
      ensures Denotes(AddJ(p, q), c)
    {
      AddDenotes(p, q, a, b, c);
    }
    AddAny(x1, y1, z1, x2, y2, z2, x3, y3, z3);
  }

  /** The case distinction of addJacobian. */
  method AddAny(x1: FieldVal, y1: FieldVal, z1: FieldVal, x2: FieldVal, y2: FieldVal, z2: FieldVal,
                x3: FieldVal, y3: FieldVal, z3: FieldVal)
    requires IsPrime(P)
    requires Apart(x1, y1, z1, x3, y3, z3) && Disjoint(x2, y2, z2, x3, y3, z3) && Separate(x1, y1, z1, x2, y2, z2)
    requires x2 != y2 && z2 != x2 && z2 != y2
    requires Held(x1, y1, z1) && Held(x2, y2, z2)
    modifies x1, y1, z1, x2, y2, z2, x3, y3, z3
    ensures Held(x3, y3, z3) && Held(x2, y2, z2)
    ensures At(x2, y2, z2) == old(At(x2, y2, z2))
    ensures At(x3, y3, z3) == AddJ(old(At(x1, y1, z1)), old(At(x2, y2, z2)))
  {
    hide Ops.Is, Ops.Mag, Normal, Congruent, P, Outcome, IsPrime, GenericSum, MixedSum, UnitSum, SameZSum;
    var firstInf := IsInfinity(x1, y1, z1);
    if firstInf {
      x3.Set(x2);
      y3.Set(y2);
      z3.Set(z2);
      return;
    }
    var secondInf := IsInfinity(x2, y2, z2);
    if secondInf {
      x3.Set(x1);
      y3.Set(y1);
      z3.Set(z1);
      return;
    }
    AddFinite(x1, y1, z1, x2, y2, z2, x3, y3, z3);
  }

  /** The choice between the four routines. */
  method AddFinite(x1: FieldVal, y1: FieldVal, z1: FieldVal, x2: FieldVal, y2: FieldVal, z2: FieldVal,
                   x3: FieldVal, y3: FieldVal, z3: FieldVal)
    requires IsPrime(P)
    requires Apart(x1, y1, z1, x3, y3, z3) && Disjoint(x2, y2, z2, x3, y3, z3) && Separate(x1, y1, z1, x2, y2, z2)
    requires x2 != y2 && z2 != x2 && z2 != y2
    requires Held(x1, y1, z1) && Held(x2, y2, z2)
    requires !AtInfinity(At(x1, y1, z1)) && !AtInfinity(At(x2, y2, z2))
    modifies x1, y1, z1, x2, y2, z2, x3, y3, z3
    ensures Held(x3, y3, z3) && Held(x2, y2, z2)
    ensures At(x2, y2, z2) == old(At(x2, y2, z2))
    ensures At(x3, y3, z3) == AddJ(old(At(x1, y1, z1)), old(At(x2, y2, z2)))
  {
    hide Ops.Is, Ops.Mag, Normal, Congruent, P, DoubleJ, IsPrime, GenericSum, MixedSum, UnitSum, SameZSum;
    ghost var p, q := At(x1, y1, z1), At(x2, y2, z2);
    z1.Normalize();
    z2.Normalize();
    TidyExact(z1);
    TidyExact(z2);
    var fieldOne := new FieldVal();
    fieldOne.SetInt(1);
    var isZ1One := z1.Equals(fieldOne);
    var isZ2One := z2.Equals(fieldOne);
    var sameZ := z1.Equals(z2);
    if sameZ {
      AddSameZ(x1, y1, z1, x2, y2, z2, x3, y3, z3, isZ1One);
    } else {
      AddUnequalZ(x1, y1, z1, x2, y2, z2, x3, y3, z3, isZ2One);
    }
  }

  /** The choice between the two routines for equal z coordinates: both are one, or not. */
  method AddSameZ(x1: FieldVal, y1: FieldVal, z1: FieldVal, x2: FieldVal, y2: FieldVal, z2: FieldVal,
                  x3: FieldVal, y3: FieldVal, z3: FieldVal, isZ1One: bool)
    requires IsPrime(P)
    requires Apart(x1, y1, z1, x3, y3, z3) && Disjoint(x2, y2, z2, x3, y3, z3) && Separate(x1, y1, z1, x2, y2, z2)
    requires x2 != y2 && z2 != x2 && z2 != y2
    requires Held(x1, y1, z1) && Held(x2, y2, z2)
    requires !AtInfinity(At(x1, y1, z1)) && !AtInfinity(At(x2, y2, z2))
    requires Congruent(z1.e, z2.e) && (isZ1One <==> Congruent(z1.e, 1))
    modifies x1, y1, z1, x2, y2, z2, x3, y3, z3
    ensures Held(x3, y3, z3) && Held(x2, y2, z2)
    ensures At(x2, y2, z2) == old(At(x2, y2, z2))
    ensures At(x3, y3, z3) == AddJ(old(At(x1, y1, z1)), old(At(x2, y2, z2)))
  {
    hide Ops.Is, Ops.Mag, Normal, Congruent, P, DoubleJ, IsPrime, GenericSum, MixedSum, UnitSum, SameZSum;
    ghost var p, q := At(x1, y1, z1), At(x2, y2, z2);
    Follow(p.z, q.z, 1);
    if isZ1One {
      AddZ1AndZ2EqualsOne(x1, y1, z1, x2, y2, z2, x3, y3, z3);
      TidyExact(z3);
    } else {
      AddZ1EqualsZ2(x1, y1, z1, x2, y2, z2, x3, y3, z3);
      if Congruent(p.x, q.x) {
        TidyExact(z3);
      } else {
        SameZNonzero(p, q);
      }
    }
    TidyExact(x2);
    TidyExact(y2);
    TidyExact(x3);
    TidyExact(y3);
  }

  /** The choice between the two routines for different z coordinates. */
  method AddUnequalZ(x1: FieldVal, y1: FieldVal, z1: FieldVal, x2: FieldVal, y2: FieldVal, z2: FieldVal,
                     x3: FieldVal, y3: FieldVal, z3: FieldVal, isZ2One: bool)
    requires IsPrime(P)
    requires Apart(x1, y1, z1, x3, y3, z3) && Disjoint(x2, y2, z2, x3, y3, z3) && Separate(x1, y1, z1, x2, y2, z2)
    requires x2 != y2 && z2 != x2 && z2 != y2
    requires Held(x1, y1, z1) && Held(x2, y2, z2) && Tidy(z1) && Tidy(z2)
    requires !AtInfinity(At(x1, y1, z1)) && !AtInfinity(At(x2, y2, z2))
    requires !Congruent(z1.e, z2.e) && (isZ2One <==> Congruent(z2.e, 1))
    modifies x1, y1, z1, x2, y2, z2, x3, y3, z3
    ensures Held(x3, y3, z3) && Held(x2, y2, z2)
    ensures At(x2, y2, z2) == old(At(x2, y2, z2))
    ensures At(x3, y3, z3) == AddJ(old(At(x1, y1, z1)), old(At(x2, y2, z2)))
  {
    hide Ops.Is, Ops.Mag, Normal, Congruent, P, DoubleJ, IsPrime, GenericSum, MixedSum, UnitSum, SameZSum;
    ghost var p, q := At(x1, y1, z1), At(x2, y2, z2);
    Same(p.z, p.z);
    if Congruent(p.z, 1) && Congruent(q.z, 1) {
      OnesAgree(p.z, q.z);
    }
    if isZ2One {
      AddZ2EqualsOne(x1, y1, z1, x2, y2, z2, x3, y3, z3);
      TidyExact(z3);
    } else {
      AddGeneric(x1, y1, z1, x2, y2, z2, x3, y3, z3);
      if Congruent(p.x * (q.z * q.z), q.x * (p.z * p.z)) {
        TidyExact(z3);
      } else {
        GenericNonzero(p, q);
      }
    }
    TidyExact(x3);
    TidyExact(y3);
  }

  lemma OnesAgree(x: int, y: int)
    requires Congruent(x, 1) && Congruent(y, 1)
    ensures Congruent(x, y)
  {
    hide Congruent, P;
    CongruentSymmetric(y, 1);
    CongruentTransitive(x, 1, y);
  }
}
