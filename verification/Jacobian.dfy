/** The point formulas as integer polynomials, and what they denote on y^2 = x^3 + 7.

A Jacobian triple (x, y, z) stands for the affine point (x / z^2, y / z^3).  The polynomials
are those of the routines in btcec.go, step for step; every statement about them is a
congruence modulo P. */
module Jacobian {
  import opened FieldProduct
  import opened Congruence

  datatype Jac = Jac(x: int, y: int, z: int)

  // Formulas of the routines.

  /** addGeneric */
  ghost function GenericSum(p: Jac, q: Jac): Jac {
    var z1z1, z2z2 := p.z * p.z, q.z * q.z;
    var u1, u2 := p.x * z2z2, q.x * z1z1;
    var s1, s2 := p.y * z2z2 * q.z, q.y * z1z1 * p.z;
    var h := u2 + -u1;
    var i := (h * 2) * (h * 2);
    var j := h * i;
    var r := (s2 + -s1) * 2;
    var v := u1 * i;
    var x3 := -(v * 2 + j) + r * r;
    var y3 := -((s1 * j) * 2) + (v + -x3) * r;
    var z3 := ((p.z + q.z) * (p.z + q.z) + -(z1z1 + z2z2)) * h;
    Jac(x3, y3, z3)
  }

  /** addZ2EqualsOne: the second z is one. */
  ghost function MixedSum(p: Jac, q: Jac): Jac {
    var z1z1 := p.z * p.z;
    var u2 := q.x * z1z1;
    var s2 := q.y * z1z1 * p.z;
    var h := u2 + -p.x;
    var hh := h * h;
    var i := hh * 4;
    var j := h * i;
    var r := (s2 + -p.y) * 2;
    var v := p.x * i;
    var x3 := -(v * 2 + j) + r * r;
    var y3 := -((p.y * j) * 2) + (v + -x3) * r;
    var z3 := (p.z + h) * (p.z + h) + -(z1z1 + hh);
    Jac(x3, y3, z3)
  }

  /** addZ1AndZ2EqualsOne: both z are one. */
  ghost function UnitSum(p: Jac, q: Jac): Jac {
    var h := -p.x + q.x;
    var i := (h * h) * 4;
    var j := h * i;
    var r := (-p.y + q.y) * 2;
    var v := p.x * i;
    var x3 := r * r + -j + -(v * 2);
    var y3 := (v + -x3) * r + -((j * p.y) * 2);
    Jac(x3, y3, h * 2)
  }

  /** addZ1EqualsZ2: the two z agree. */
  ghost function SameZSum(p: Jac, q: Jac): Jac {
    var a := -p.x + q.x;
    var b := a * a;
    var c := -p.y + q.y;
    var d := c * c;
    var e, f := p.x * b, q.x * b;
    var x3 := -(e + f) + d;
    var y3 := -(p.y * (f + -e)) + (e + -x3) * c;
    Jac(x3, y3, p.z * a)
  }

  /** doubleGeneric; doubleZ1EqualsOne drops the factor z. */
  ghost function Twice(p: Jac, unit: bool): Jac {
    var a, b := p.x * p.x, p.y * p.y;
    var c := b * b;
    var d := (-(a + c) + (b + p.x) * (b + p.x)) * 2;
    var e := a * 3;
    var f := e * e;
    var x3 := -(d * 2) + f;
    var y3 := -(c * 8) + (-x3 + d) * e;
    Jac(x3, y3, if unit then p.y * 2 else (p.y * p.z) * 2)
  }

  // The affine side.

  /** The triple stands for the affine point (x, y). */
  ghost predicate Represents(p: Jac, x: int, y: int) {
    Congruent(p.x, x * (p.z * p.z)) && Congruent(p.y, y * (p.z * p.z * p.z))
  }

  /** Third intersection with the line of slope l through (x1, y1) and abscissa x2, mirrored. */
  ghost function LineX(x1: int, x2: int, l: int): int {
    l * l - x1 - x2
  }

  ghost function LineY(x1: int, y1: int, x2: int, l: int): int {
    l * (x1 - LineX(x1, x2, l)) - y1
  }

  // The chord, for like terms u = x * w^2 and s = y * w^3.

  ghost function CoreX(u1: int, s1: int, u2: int, s2: int): int {
    var h, c := u2 - u1, s2 - s1;
    c * c - u1 * (h * h) - u2 * (h * h)
  }

  ghost function CoreY(u1: int, s1: int, u2: int, s2: int): int {
    var h, c := u2 - u1, s2 - s1;
    c * (u1 * (h * h) - CoreX(u1, s1, u2, s2)) - s1 * (h * h * h)
  }

  lemma SameZIsCore(p: Jac, q: Jac)
    ensures SameZSum(p, q).x == CoreX(p.x, p.y, q.x, q.y)
    ensures SameZSum(p, q).y == CoreY(p.x, p.y, q.x, q.y)
    ensures SameZSum(p, q).z == p.z * (q.x - p.x)
  {
    hide Congruent, P;
    var h, c := q.x - p.x, q.y - p.y;
    var e, f := p.x * (h * h), q.x * (h * h);
    assert f - e == h * (h * h);
  }

  lemma UnitIsCore(p: Jac, q: Jac)
    ensures UnitSum(p, q).x == 4 * CoreX(p.x, p.y, q.x, q.y)
    ensures UnitSum(p, q).y == 8 * CoreY(p.x, p.y, q.x, q.y)
    ensures UnitSum(p, q).z == 2 * (q.x - p.x)
  {
    hide Congruent, P;
    ScaledCore(p.x, p.y, q.x, q.y);
  }

  lemma Scale(a: int, b: int)
    ensures a * (4 * b) == 4 * (a * b)
    ensures (2 * a) * (2 * b) == 4 * (a * b)
    ensures (2 * a) * (4 * b) == 8 * (a * b)
  {
  }

  lemma Distribute(a: int, b: int, c: int)
    ensures (a - b) * c == a * c - b * c
    ensures c * (a - b) == c * a - c * b
    ensures (a + b) * c == a * c + b * c
    ensures c * (a + b) == c * a + c * b
  {
  }

  /** The scaled form r = 2c, i = 4h^2, j = h * i, v = u1 * i used by three of the routines. */
  lemma ScaledCore(u1: int, s1: int, u2: int, s2: int)
    ensures var h, c := u2 - u1, s2 - s1;
            var i := 4 * (h * h); var j := h * i; var r := 2 * c; var v := u1 * i;
            var x3 := r * r - j - 2 * v;
            x3 == 4 * CoreX(u1, s1, u2, s2) && r * (v - x3) - 2 * (s1 * j) == 8 * CoreY(u1, s1, u2, s2)
  {
    var h, c := u2 - u1, s2 - s1;
    var hh := h * h;
    Scale(c, c);
    Scale(h, hh);
    Scale(u1, hh);
    Distribute(u2, u1, hh);
    Scale(c, u1 * hh - CoreX(u1, s1, u2, s2));
    Scale(s1, h * hh);
  }

  lemma CrossTerm(a: int, b: int)
    ensures (a + b) * (a + b) + -(a * a + b * b) == 2 * (a * b)
  {
  }

  lemma DoubledSquare(h: int)
    ensures (h * 2) * (h * 2) == 4 * (h * h)
  {
  }

  lemma GenericIsCore(p: Jac, q: Jac)
    ensures var u1, u2 := p.x * (q.z * q.z), q.x * (p.z * p.z);
            var s1, s2 := p.y * (q.z * q.z) * q.z, q.y * (p.z * p.z) * p.z;
            GenericSum(p, q) == Jac(4 * CoreX(u1, s1, u2, s2), 8 * CoreY(u1, s1, u2, s2),
                                    (2 * (p.z * q.z)) * (u2 - u1))
  {
    var u1, u2 := p.x * (q.z * q.z), q.x * (p.z * p.z);
    var s1, s2 := p.y * (q.z * q.z) * q.z, q.y * (p.z * p.z) * p.z;
    hide Congruent, P, CoreX, CoreY;
    ScaledCore(u1, s1, u2, s2);
    DoubledSquare(u2 - u1);
    CrossTerm(p.z, q.z);
  }

  lemma MixedIsCore(p: Jac, q: Jac)
    ensures var u2, s2 := q.x * (p.z * p.z), q.y * (p.z * p.z) * p.z;
            MixedSum(p, q) == Jac(4 * CoreX(p.x, p.y, u2, s2), 8 * CoreY(p.x, p.y, u2, s2),
                                  2 * (p.z * (u2 - p.x)))
  {
    var u2, s2 := q.x * (p.z * p.z), q.y * (p.z * p.z) * p.z;
    hide Congruent, P, CoreX, CoreY;
    ScaledCore(p.x, p.y, u2, s2);
    CrossTerm(p.z, u2 - p.x);
  }

  lemma Same(a: int, b: int)
    requires a == b
    ensures Congruent(a, b)
  {
    hide Congruent, P;
    CongruentFromQuotient(a, b, 0);
  }

  /** a * c is congruent to b * c. */
  lemma Times(a: int, b: int, c: int)
    requires Congruent(a, b)
    ensures Congruent(a * c, b * c) && Congruent(c * a, c * b)
  {
    hide Congruent, P;
    Same(c, c);
    CongruentMul(a, b, c, c);
  }

  /** If the terms are like, h is (x2 - x1) * w^2 and c is l * w * h. */
  lemma CoreDifferences(x1: int, y1: int, x2: int, y2: int, l: int, w: int, u1: int, s1: int, u2: int, s2: int)
    requires Congruent(u1, x1 * (w * w)) && Congruent(u2, x2 * (w * w))
    requires Congruent(s1, y1 * (w * w * w)) && Congruent(s2, y2 * (w * w * w))
    requires Congruent(l * (x2 - x1), y2 - y1)
    ensures Congruent(u2 - u1, (x2 - x1) * (w * w))
    ensures Congruent(s2 - s1, l * (w * (u2 - u1)))
  {
    hide Congruent, P;
    var ww := w * w;
    var h, c := u2 - u1, s2 - s1;
    CongruentAdd(u2, x2 * ww, u1, x1 * ww);
    Distribute(x2, x1, ww);
    // c = (y2 - y1) w^3 = l (x2 - x1) w^3 = l w h
    var www := ww * w;
    CongruentAdd(s2, y2 * www, s1, y1 * www);
    Distribute(y2, y1, www);
    CongruentSymmetric(l * (x2 - x1), y2 - y1);
    Times(y2 - y1, l * (x2 - x1), www);
    CongruentTransitive(c, (y2 - y1) * www, (l * (x2 - x1)) * www);
    CongruentSymmetric(h, (x2 - x1) * ww);
    Times((x2 - x1) * ww, h, l * w);
    LineShuffle(l, x2 - x1, w);
    CongruentTransitive(c, (l * w) * ((x2 - x1) * ww), (l * w) * h);
    assert (l * w) * h == l * (w * h);
  }

  lemma LineShuffle(l: int, d: int, w: int)
    ensures (l * d) * (w * w * w) == (l * w) * (d * (w * w))
  {
    assert (l * d) * (w * w * w) == l * (d * (w * (w * w)));
    assert (l * w) * (d * (w * w)) == l * (w * (d * (w * w)));
    assert w * (d * (w * w)) == d * (w * (w * w));
  }

  lemma Squares(a: int, b: int)
    ensures (a * b) * (a * b) == (a * a) * (b * b)
    ensures (a * b) * (a * b) * (a * b) == (a * a * a) * (b * b * b)
  {
    assert (a * b) * (a * b) == (a * a) * (b * b);
    assert (a * a) * (b * b) * (a * b) == (a * a * a) * (b * b * b);
  }

  lemma Associate(a: int, b: int, c: int)
    ensures (a * b) * c == a * (b * c)
  {
  }

  lemma CoreChordX(x1: int, x2: int, l: int, w: int, u1: int, u2: int, h: int, c: int)
    requires Congruent(u1, x1 * (w * w)) && Congruent(u2, x2 * (w * w)) && Congruent(c, l * (w * h))
    ensures var zz := w * h;
            && Congruent(u1 * (h * h), x1 * (zz * zz))
            && Congruent(c * c - u1 * (h * h) - u2 * (h * h), LineX(x1, x2, l) * (zz * zz))
  {
    hide Congruent, P;
    var zz := w * h;
    Squares(l, zz);
    CongruentMul(c, l * zz, c, l * zz);
    Squares(w, h);
    Times(u1, x1 * (w * w), h * h);
    Associate(x1, w * w, h * h);
    Times(u2, x2 * (w * w), h * h);
    Associate(x2, w * w, h * h);
    CongruentAdd(c * c, (l * l) * (zz * zz), u1 * (h * h), x1 * (zz * zz));
    CongruentAdd(c * c - u1 * (h * h), (l * l) * (zz * zz) - x1 * (zz * zz), u2 * (h * h), x2 * (zz * zz));
    Distribute(l * l, x1, zz * zz);
    Distribute(l * l - x1, x2, zz * zz);
  }

  lemma CoreChordY(x1: int, y1: int, x3: int, l: int, w: int, s1: int, h: int, c: int, e: int, x: int)
    requires Congruent(s1, y1 * (w * w * w)) && Congruent(c, l * (w * h))
    requires Congruent(e, x1 * ((w * h) * (w * h))) && Congruent(x, x3 * ((w * h) * (w * h)))
    ensures var zz := w * h;
            Congruent(c * (e - x) - s1 * (h * h * h), (l * (x1 - x3) - y1) * (zz * zz * zz))
  {
    hide Congruent, P;
    var zz := w * h;
    CongruentAdd(e, x1 * (zz * zz), x, x3 * (zz * zz));
    Distribute(x1, x3, zz * zz);
    CongruentMul(c, l * zz, e - x, (x1 - x3) * (zz * zz));
    CubeShuffle(l, x1 - x3, zz);
    Times(s1, y1 * (w * w * w), h * h * h);
    Squares(w, h);
    Associate(y1, w * w * w, h * h * h);
    CongruentAdd(c * (e - x), (l * (x1 - x3)) * (zz * zz * zz), s1 * (h * h * h), y1 * (zz * zz * zz));
    Distribute(l * (x1 - x3), y1, zz * zz * zz);
  }

  lemma CubeShuffle(l: int, d: int, z: int)
    ensures (l * z) * (d * (z * z)) == (l * d) * (z * z * z)
  {
    LineShuffle(l, d, z);
  }

  /** The chord: like terms of two points give the like terms of their sum, with z = w * h. */
  lemma CoreChord(x1: int, y1: int, x2: int, y2: int, l: int, w: int, u1: int, s1: int, u2: int, s2: int)
    requires Congruent(u1, x1 * (w * w)) && Congruent(u2, x2 * (w * w))
    requires Congruent(s1, y1 * (w * w * w)) && Congruent(s2, y2 * (w * w * w))
    requires Congruent(l * (x2 - x1), y2 - y1)
    ensures Represents(Jac(CoreX(u1, s1, u2, s2), CoreY(u1, s1, u2, s2), w * (u2 - u1)),
                       LineX(x1, x2, l), LineY(x1, y1, x2, l))
  {
    hide Congruent, P;
    var h, c := u2 - u1, s2 - s1;
    CoreDifferences(x1, y1, x2, y2, l, w, u1, s1, u2, s2);
    CoreChordX(x1, x2, l, w, u1, u2, h, c);
    CoreChordY(x1, y1, LineX(x1, x2, l), l, w, s1, h, c, u1 * (h * h), CoreX(u1, s1, u2, s2));
  }

  /** Scaling z by two scales x by four and y by eight. */
  lemma Rescale(p: Jac, x: int, y: int, q: Jac)
    requires Represents(p, x, y) && q == Jac(4 * p.x, 8 * p.y, 2 * p.z)
    ensures Represents(q, x, y)
  {
    hide Congruent, P;
    Times(p.x, x * (p.z * p.z), 4);
    Times(p.y, y * (p.z * p.z * p.z), 8);
    assert (2 * p.z) * (2 * p.z) == 4 * (p.z * p.z);
    assert (4 * (p.z * p.z)) * (2 * p.z) == 8 * (p.z * p.z * p.z);
    Scale(x, p.z * p.z);
    assert y * (8 * (p.z * p.z * p.z)) == 8 * (y * (p.z * p.z * p.z));
  }

  /** The terms of a point with respect to any w congruent to its z. */
  lemma TermsAt(q: Jac, x: int, y: int, w: int)
    requires Represents(q, x, y) && Congruent(q.z, w)
    ensures Congruent(q.x, x * (w * w)) && Congruent(q.y, y * (w * w * w))
  {
    hide Congruent, P;
    CongruentMul(q.z, w, q.z, w);
    CongruentMul(q.z * q.z, w * w, q.z, w);
    Times(q.z * q.z, w * w, x);
    Times(q.z * q.z * q.z, w * w * w, y);
    CongruentTransitive(q.x, x * (q.z * q.z), x * (w * w));
    CongruentTransitive(q.y, y * (q.z * q.z * q.z), y * (w * w * w));
  }

  /** The terms of p brought to the common denominator of p and q. */
  lemma LikeTerms(p: Jac, z: int, x: int, y: int)
    requires Represents(p, x, y)
    ensures var w := p.z * z;
            Congruent(p.x * (z * z), x * (w * w)) && Congruent(p.y * (z * z) * z, y * (w * w * w))
  {
    hide Congruent, P;
    Squares(p.z, z);
    Times(p.x, x * (p.z * p.z), z * z);
    Associate(x, p.z * p.z, z * z);
    Times(p.y, y * (p.z * p.z * p.z), z * z * z);
    Associate(y, p.z * p.z * p.z, z * z * z);
    Associate(p.y, z * z, z);
  }

  lemma GenericChord(p: Jac, q: Jac, x1: int, y1: int, x2: int, y2: int, l: int)
    requires Represents(p, x1, y1) && Represents(q, x2, y2) && Congruent(l * (x2 - x1), y2 - y1)
    ensures Represents(GenericSum(p, q), LineX(x1, x2, l), LineY(x1, y1, x2, l))
  {
    hide Congruent, P, Represents, CoreX, CoreY;
    var u1, u2 := p.x * (q.z * q.z), q.x * (p.z * p.z);
    var s1, s2 := p.y * (q.z * q.z) * q.z, q.y * (p.z * p.z) * p.z;
    var w := p.z * q.z;
    LikeTerms(p, q.z, x1, y1);
    LikeTerms(q, p.z, x2, y2);
    assert q.z * p.z == w;
    CoreChord(x1, y1, x2, y2, l, w, u1, s1, u2, s2);
    GenericIsCore(p, q);
    Associate(2, w, u2 - u1);
    Rescale(Jac(CoreX(u1, s1, u2, s2), CoreY(u1, s1, u2, s2), w * (u2 - u1)),
            LineX(x1, x2, l), LineY(x1, y1, x2, l), GenericSum(p, q));
  }

  lemma MixedChord(p: Jac, q: Jac, x1: int, y1: int, x2: int, y2: int, l: int)
    requires Represents(p, x1, y1) && Represents(q, x2, y2) && Congruent(l * (x2 - x1), y2 - y1)
    requires Congruent(q.z, 1)
    ensures Represents(MixedSum(p, q), LineX(x1, x2, l), LineY(x1, y1, x2, l))
  {
    hide Congruent, P, CoreX, CoreY;
    var w := p.z;
    var u2, s2 := q.x * (w * w), q.y * (w * w) * w;
    TermsAt(q, x2, y2, 1);
    Times(q.x, x2, w * w);
    Times(q.y, y2, w * w * w);
    Associate(q.y, w * w, w);
    CoreChord(x1, y1, x2, y2, l, w, p.x, p.y, u2, s2);
    MixedIsCore(p, q);
    Rescale(Jac(CoreX(p.x, p.y, u2, s2), CoreY(p.x, p.y, u2, s2), w * (u2 - p.x)),
            LineX(x1, x2, l), LineY(x1, y1, x2, l), MixedSum(p, q));
  }

  lemma UnitChord(p: Jac, q: Jac, x1: int, y1: int, x2: int, y2: int, l: int)
    requires Represents(p, x1, y1) && Represents(q, x2, y2) && Congruent(l * (x2 - x1), y2 - y1)
    requires Congruent(p.z, 1) && Congruent(q.z, 1)
    ensures Represents(UnitSum(p, q), LineX(x1, x2, l), LineY(x1, y1, x2, l))
  {
    hide Congruent, P, Represents, CoreX, CoreY;
    TermsAt(p, x1, y1, 1);
    TermsAt(q, x2, y2, 1);
    CoreChord(x1, y1, x2, y2, l, 1, p.x, p.y, q.x, q.y);
    UnitIsCore(p, q);
    Rescale(Jac(CoreX(p.x, p.y, q.x, q.y), CoreY(p.x, p.y, q.x, q.y), 1 * (q.x - p.x)),
            LineX(x1, x2, l), LineY(x1, y1, x2, l), UnitSum(p, q));
  }

  lemma SameZChord(p: Jac, q: Jac, x1: int, y1: int, x2: int, y2: int, l: int)
    requires Represents(p, x1, y1) && Represents(q, x2, y2) && Congruent(l * (x2 - x1), y2 - y1)
    requires Congruent(p.z, q.z)
    ensures Represents(SameZSum(p, q), LineX(x1, x2, l), LineY(x1, y1, x2, l))
  {
    hide Congruent, P, CoreX, CoreY;
    CongruentSymmetric(p.z, q.z);
    TermsAt(q, x2, y2, p.z);
    CoreChord(x1, y1, x2, y2, l, p.z, p.x, p.y, q.x, q.y);
    SameZIsCore(p, q);
  }

  // The tangent.

  lemma TwiceClosed(p: Jac, unit: bool)
    ensures var t := Twice(p, unit);
            var e, d := 3 * (p.x * p.x), 4 * (p.x * (p.y * p.y));
            && t.x == e * e - 2 * d
            && t.y == e * (d - t.x) - 8 * ((p.y * p.y) * (p.y * p.y))
            && t.z == if unit then 2 * p.y else 2 * (p.y * p.z)
  {
    CrossTerm(p.y * p.y, p.x);
    assert (p.y * p.y) * p.x == p.x * (p.y * p.y);
  }

  /** With z3 = 2yz, the slope times z3 is 3x^2 and x * z3^2 is 4xy^2, all in Jacobian terms. */
  lemma TangentTerms(p: Jac, x: int, y: int, l: int, w: int, zz: int)
    requires Congruent(p.x, x * (w * w)) && Congruent(p.y, y * (w * w * w)) && Congruent(l * (2 * y), 3 * (x * x))
    requires zz == 2 * (p.y * w)
    ensures Congruent(3 * (p.x * p.x), l * zz)
    ensures Congruent(4 * (p.x * (p.y * p.y)), x * (zz * zz))
    ensures Congruent(8 * ((p.y * p.y) * (p.y * p.y)), y * (zz * zz * zz))
  {
    hide Congruent, P;
    var ww, yy := w * w, p.y * p.y;
    // 3 X^2 = 3 x^2 w^4 = l * 2y * w^4 = l * 2 Y w
    CongruentMul(p.x, x * ww, p.x, x * ww);
    Squares(x, ww);
    Times(p.x * p.x, (x * x) * (ww * ww), 3);
    CongruentSymmetric(l * (2 * y), 3 * (x * x));
    Times(3 * (x * x), l * (2 * y), ww * ww);
    Associate(3, x * x, ww * ww);
    CongruentTransitive(3 * (p.x * p.x), (3 * (x * x)) * (ww * ww), (l * (2 * y)) * (ww * ww));
    CongruentSymmetric(p.y, y * (w * w * w));
    Times(y * (w * w * w), p.y, (2 * l) * w);
    TangentShuffle(l, y, w, p.y);
    CongruentTransitive(3 * (p.x * p.x), (l * (2 * y)) * (ww * ww), l * zz);
    // 4 X Y^2 = x (2 Y w)^2
    Times(p.x, x * ww, 4 * yy);
    TangentSquares(x, w, p.y, p.x);
    // 8 Y^4 = y (2 Y w)^3
    Times(p.y, y * (w * w * w), 8 * (p.y * p.y * p.y));
    TangentCubes(y, w, p.y);
  }

  lemma TangentShuffle(l: int, y: int, w: int, py: int)
    ensures ((2 * l) * w) * (y * (w * w * w)) == (l * (2 * y)) * ((w * w) * (w * w))
    ensures ((2 * l) * w) * py == l * (2 * (py * w))
  {
    hide Congruent, P;
    assert w * (w * w * w) == (w * w) * (w * w);
    assert ((2 * l) * w) * (y * (w * w * w)) == (2 * l * y) * (w * (w * w * w));
  }

  lemma TangentSquares(x: int, w: int, py: int, px: int)
    ensures (4 * (py * py)) * (x * (w * w)) == x * ((2 * (py * w)) * (2 * (py * w)))
    ensures (4 * (py * py)) * px == 4 * (px * (py * py))
  {
    hide Congruent, P;
    Squares(py, w);
    Scale(py * w, py * w);
    var a, b := py * py, w * w;
    assert (4 * a) * (x * b) == x * (4 * (a * b));
  }

  lemma TangentCubes(y: int, w: int, py: int)
    ensures (8 * (py * py * py)) * (y * (w * w * w))
         == y * ((2 * (py * w)) * (2 * (py * w)) * (2 * (py * w)))
    ensures (8 * (py * py * py)) * py == 8 * ((py * py) * (py * py))
  {
    hide Congruent, P;
    Squares(py, w);
    var t := py * w;
    assert (2 * t) * (2 * t) == 4 * (t * t);
    assert (4 * (t * t)) * (2 * t) == 8 * (t * t * t);
    var a, b := py * py * py, w * w * w;
    assert (8 * a) * (y * b) == y * (8 * (a * b));
  }

  lemma TwiceTangent(p: Jac, unit: bool, x: int, y: int, l: int)
    requires Represents(p, x, y) && Congruent(l * (2 * y), 3 * (x * x))
    requires unit ==> Congruent(p.z, 1)
    ensures Represents(Twice(p, unit), LineX(x, x, l), LineY(x, y, x, l))
  {
    hide Congruent, P;
    var w := if unit then 1 else p.z;
    Same(p.z, p.z);
    TermsAt(p, x, y, w);
    TwiceClosed(p, unit);
    var t := Twice(p, unit);
    var zz := t.z;
    TangentTerms(p, x, y, l, w, zz);
    var e, d, c := 3 * (p.x * p.x), 4 * (p.x * (p.y * p.y)), 8 * ((p.y * p.y) * (p.y * p.y));
    hide Twice;
    CoreChordX(x, x, l, zz, d, d, 1, e);
    CoreChordY(x, y, LineX(x, x, l), l, zz, c, 1, e, d, t.x);
  }
}

/** The affine group law of y^2 = x^3 + 7 and the Jacobian addition that computes it. */
module CurveLaw {
  import opened Bytes
  import opened FieldProduct
  import opened Congruence
  import opened NumberTheory
  import opened FieldFermat
  import opened Jacobian

  ghost predicate OnCurve(x: int, y: int) {
    Congruent(y * y, Pow(x, 3) + 7)
  }

  lemma CubeIs(x: int)
    ensures Pow(x, 3) == x * x * x
  {
    assert Pow(x, 1) == x * Pow(x, 0);
    assert Pow(x, 2) == x * Pow(x, 1);
  }

  datatype Affine = Infinity | Point(x: int, y: int)

  ghost predicate Chord(x1: int, y1: int, x2: int, y2: int, l: int) {
    Congruent(l * (x2 - x1), y2 - y1)
  }

  ghost predicate Tangent(x: int, y: int, l: int) {
    Congruent(l * (2 * y), 3 * (x * x))
  }

  /** c is the sum of a and b. */
  ghost predicate IsSum(a: Affine, b: Affine, c: Affine) {
    if a.Infinity? then c == b
    else if b.Infinity? then c == a
    else if !Congruent(a.x, b.x) then
      exists l :: Chord(a.x, a.y, b.x, b.y, l) && c == Point(LineX(a.x, b.x, l), LineY(a.x, a.y, b.x, l))
    else if Congruent(a.y, b.y) && !Congruent(a.y, 0) then
      exists l :: Tangent(a.x, a.y, l) && c == Point(LineX(a.x, a.x, l), LineY(a.x, a.y, a.x, l))
    else c == Infinity
  }

  ghost predicate AtInfinity(p: Jac) {
    (Congruent(p.x, 0) && Congruent(p.y, 0)) || Congruent(p.z, 0)
  }

  /** The triple stands for a point of the curve or the point at infinity. */
  ghost predicate Denotes(p: Jac, a: Affine) {
    match a
    case Infinity => AtInfinity(p)
    case Point(x, y) => OnCurve(x, y) && !Congruent(p.z, 0) && Represents(p, x, y)
  }

  // The sum stays on the curve.

  /** The condition that the line through (x1, y1) with slope l also meets the curve at x2. */
  ghost function Residue(x1: int, y1: int, d: int, l: int): int {
    2 * (l * y1) + (l * l) * d - 3 * (x1 * x1) - 3 * (x1 * d) - d * d
  }

  lemma CurveAlong(x1: int, y1: int, t: int, l: int)
    ensures var x, y := x1 + t, y1 + l * t;
            (y * y - (x * x * x + 7)) - (y1 * y1 - (x1 * x1 * x1 + 7)) == t * Residue(x1, y1, t, l)
  {
    hide Congruent, P;
    CubeOfSum(x1, t);
    SquareOfSum(y1, l, t);
    ResidueTimes(x1, y1, t, l);
  }

  lemma CubeOfSum(a: int, t: int)
    ensures (a + t) * (a + t) * (a + t) == a * a * a + 3 * ((a * a) * t) + 3 * (a * (t * t)) + t * t * t
  {
    hide Congruent, P;
    assert (a + t) * (a + t) == a * a + 2 * (a * t) + t * t;
    var s := a * a + 2 * (a * t) + t * t;
    assert s * (a + t) == s * a + s * t;
    assert s * a == a * a * a + 2 * ((a * a) * t) + a * (t * t);
    assert s * t == (a * a) * t + 2 * (a * (t * t)) + t * t * t;
  }

  lemma SquareOfSum(b: int, l: int, t: int)
    ensures (b + l * t) * (b + l * t) == b * b + 2 * ((l * b) * t) + (l * l) * (t * t)
  {
    hide Congruent, P;
    Squares(l, t);
    assert b * (l * t) == (l * b) * t;
  }

  lemma ResidueTimes(x1: int, y1: int, t: int, l: int)
    ensures t * Residue(x1, y1, t, l)
         == 2 * ((l * y1) * t) + (l * l) * (t * t) - 3 * ((x1 * x1) * t) - 3 * (x1 * (t * t)) - t * t * t
  {
    hide Congruent, P;
    DistributeResidue(t, l * y1, (l * l) * t, x1 * x1, x1 * t, t * t);
    Rotate(t, l * l, t);
    Rotate(t, x1, t);
    Rotate(t, t, t);
  }

  lemma DistributeResidue(t: int, a: int, b: int, c: int, d: int, e: int)
    ensures t * (2 * a + b - 3 * c - 3 * d - e) == 2 * (a * t) + t * b - 3 * (c * t) - 3 * (t * d) - t * e
  {
  }

  lemma Rotate(a: int, b: int, c: int)
    ensures a * (b * c) == b * (a * c)
  {
  }

  /** The two remaining intersections give the same residue. */
  lemma ResidueAgrees(x1: int, y1: int, x2: int, l: int)
    ensures Residue(x1, y1, LineX(x1, x2, l) - x1, l) == Residue(x1, y1, x2 - x1, l)
  {
    var ll := l * l;
    var d := x2 - x1;
    var t := ll - 3 * x1 - d;
    assert LineX(x1, x2, l) - x1 == t;
    assert ll * t - 3 * (x1 * t) - t * t == t * (ll - 3 * x1 - t);
    assert ll * d - 3 * (x1 * d) - d * d == d * (ll - 3 * x1 - d);
    assert t * d == d * t;
  }

  lemma LineOnCurve(x1: int, y1: int, x2: int, l: int)
    requires OnCurve(x1, y1) && Congruent(Residue(x1, y1, x2 - x1, l), 0)
    ensures OnCurve(LineX(x1, x2, l), LineY(x1, y1, x2, l))
  {
    hide Congruent, P, Residue, Pow;
    var x3 := LineX(x1, x2, l);
    CubeIs(x1);
    CubeIs(x3);
    var t := x3 - x1;
    ResidueAgrees(x1, y1, x2, l);
    CurveAlong(x1, y1, t, l);
    var y := y1 + l * t;
    Times(Residue(x1, y1, t, l), 0, t);
    CongruentShift(y * y, x3 * x3 * x3 + 7, y1 * y1, x1 * x1 * x1 + 7, t * Residue(x1, y1, t, l));
    var y3 := LineY(x1, y1, x2, l);
    Opposite(l, x1, x3);
    SquareOfOpposite(y);
  }

  lemma Opposite(l: int, a: int, b: int)
    ensures l * (a - b) == -(l * (b - a))
  {
  }

  lemma SquareOfOpposite(y: int)
    ensures (-y) * (-y) == y * y
  {
  }

  lemma CongruentShift(a: int, b: int, c: int, d: int, m: int)
    requires (a - b) - (c - d) == m && Congruent(m, 0) && Congruent(c, d)
    ensures Congruent(a, b)
  {
    hide Congruent, P;
    CongruentFromQuotient(a, b, Quotient(m, 0) + Quotient(c, d));
  }

  lemma ZeroProduct(a: int, b: int)
    requires IsPrime(P) && Congruent(a * b, 0)
    ensures Congruent(a, 0) || Congruent(b, 0)
  {
    hide Congruent, P, IsPrime;
    CongruentIsDivides(a * b, 0);
    CongruentIsDivides(a, 0);
    CongruentIsDivides(b, 0);
    Euclid(P, a, b);
  }

  /** A common nonzero factor cancels. */
  lemma Cancel(a: int, b: int, w: int)
    requires IsPrime(P) && !Congruent(w, 0)
    ensures Congruent(a * w, b * w) <==> Congruent(a, b)
  {
    hide Congruent, P, IsPrime;
    if Congruent(a * w, b * w) {
      DifferenceNonzero(a * w, b * w);
      Jacobian.Distribute(a, b, w);
      ZeroProduct(a - b, w);
      DifferenceNonzero(a, b);
    }
    if Congruent(a, b) {
      Times(a, b, w);
    }
  }

  lemma NonzeroProduct(a: int, b: int)
    requires IsPrime(P) && !Congruent(a, 0) && !Congruent(b, 0)
    ensures !Congruent(a * b, 0)
  {
    hide IsPrime, Congruent, P;
    if Congruent(a * b, 0) {
      ZeroProduct(a, b);
      assert false;
    }
  }

  lemma ChordOnCurve(x1: int, y1: int, x2: int, y2: int, l: int)
    requires IsPrime(P) && OnCurve(x1, y1) && OnCurve(x2, y2) && Chord(x1, y1, x2, y2, l)
    requires !Congruent(x1, x2)
    ensures OnCurve(LineX(x1, x2, l), LineY(x1, y1, x2, l))
  {
    hide IsPrime, Congruent, P, Residue, Pow;
    CubeIs(x1);
    CubeIs(x2);
    var d := x2 - x1;
    var y := y1 + l * d;
    Same(y1, y1);
    CongruentAdd(l * d, y2 - y1, y1, y1);
    CongruentMul(y, y2, y, y2);
    CongruentTransitive(y * y, y2 * y2, x2 * x2 * x2 + 7);
    CurveAlong(x1, y1, d, l);
    CongruentDifference(y * y, x2 * x2 * x2 + 7, y1 * y1, x1 * x1 * x1 + 7);
    DifferenceNonzero(x1, x2);
    ZeroProduct(d, Residue(x1, y1, d, l));
    LineOnCurve(x1, y1, x2, l);
  }

  lemma CongruentDifference(a: int, b: int, c: int, d: int)
    requires Congruent(a, b) && Congruent(c, d)
    ensures Congruent((a - b) - (c - d), 0)
  {
    hide Congruent, P;
    CongruentFromQuotient((a - b) - (c - d), 0, Quotient(a, b) - Quotient(c, d));
  }

  lemma DifferenceNonzero(a: int, b: int)
    ensures Congruent(a, b) <==> Congruent(b - a, 0)
    ensures Congruent(a, b) <==> Congruent(a - b, 0)
  {
    CongruentMod(a, b);
    CongruentMod(a - b, 0);
    CongruentMod(b - a, 0);
    if Congruent(a, b) {
      CongruentFromQuotient(b - a, 0, -Quotient(a, b));
    }
    if Congruent(b - a, 0) {
      CongruentFromQuotient(a, b, -Quotient(b - a, 0));
    }
  }

  lemma TangentOnCurve(x: int, y: int, l: int)
    requires OnCurve(x, y) && Tangent(x, y, l)
    ensures OnCurve(LineX(x, x, l), LineY(x, y, x, l))
  {
    hide Congruent, P, Pow;
    DifferenceNonzero(l * (2 * y), 3 * (x * x));
    assert Residue(x, y, 0, l) == l * (2 * y) - 3 * (x * x);
    LineOnCurve(x, y, x, l);
  }

  /** Jacobian doubling, by the tests of doubleJacobian. */
  ghost function DoubleJ(p: Jac): Jac {
    if Congruent(p.y, 0) || Congruent(p.z, 0) then Jac(0, 0, 0) else Twice(p, Congruent(p.z, 1))
  }

  /** The outcome of a routine once the abscissas of the like terms have been compared. */
  ghost function Outcome(p: Jac, u1: int, s1: int, u2: int, s2: int, sum: Jac): Jac {
    if !Congruent(u1, u2) then sum
    else if Congruent(s1, s2) then DoubleJ(p)
    else Jac(0, 0, 0)
  }

  /** Jacobian addition, by the case distinction of addJacobian. */
  ghost function AddJ(p: Jac, q: Jac): Jac {
    if AtInfinity(p) then q
    else if AtInfinity(q) then p
    else if Congruent(p.z, 1) && Congruent(q.z, 1) then Outcome(p, p.x, p.y, q.x, q.y, UnitSum(p, q))
    else if Congruent(p.z, q.z) then Outcome(p, p.x, p.y, q.x, q.y, SameZSum(p, q))
    else if Congruent(q.z, 1) then
      Outcome(p, p.x, p.y, q.x * (p.z * p.z), q.y * (p.z * p.z) * p.z, MixedSum(p, q))
    else
      Outcome(p, p.x * (q.z * q.z), p.y * (q.z * q.z) * q.z, q.x * (p.z * p.z), q.y * (p.z * p.z) * p.z,
              GenericSum(p, q))
  }

  lemma DoubleDenotes(p: Jac, x: int, y: int, c: Affine)
    requires IsPrime(P) && Denotes(p, Point(x, y)) && IsSum(Point(x, y), Point(x, y), c)
    ensures Denotes(DoubleJ(p), c)
  {
    hide IsPrime, Congruent, P, Represents, Twice;
    OrdinateZero(p, x, y);
    Same(x, x);
    Same(y, y);
    Same(0, 0);
    if !Congruent(y, 0) {
      var l :| Tangent(x, y, l) && c == Point(LineX(x, x, l), LineY(x, y, x, l));
      TangentOnCurve(x, y, l);
      var unit := Congruent(p.z, 1);
      TwiceTangent(p, unit, x, y, l);
      TwiceNonzero(p, unit);
    }
  }

  /** The Jacobian ordinate is zero exactly when the affine one is. */
  lemma OrdinateZero(p: Jac, x: int, y: int)
    requires IsPrime(P) && Represents(p, x, y) && !Congruent(p.z, 0)
    ensures Congruent(p.y, 0) <==> Congruent(y, 0)
    ensures Congruent(p.x, 0) <==> Congruent(x, 0)
  {
    hide IsPrime, Congruent, P;
    var z := p.z;
    NonzeroProduct(z, z);
    NonzeroProduct(z * z, z);
    Cancel(y, 0, z * z * z);
    Cancel(x, 0, z * z);
    Same(0, 0);
    Follow(p.y, y * (z * z * z), 0);
    Follow(p.x, x * (z * z), 0);
  }

  lemma Follow(a: int, b: int, c: int)
    requires Congruent(a, b)
    ensures Congruent(a, c) <==> Congruent(b, c)
  {
    hide Congruent, P;
    CongruentSymmetric(a, b);
    if Congruent(a, c) {
      CongruentTransitive(b, a, c);
    }
    if Congruent(b, c) {
      CongruentTransitive(a, b, c);
    }
  }

  lemma TwoNonzero()
    ensures !Congruent(2, 0)
  {
  }

  lemma TwiceNonzero(p: Jac, unit: bool)
    requires IsPrime(P) && !Congruent(p.y, 0) && !Congruent(p.z, 0)
    ensures !Congruent(Twice(p, unit).z, 0)
  {
    hide IsPrime, Congruent, P;
    TwoNonzero();
    TwiceClosed(p, unit);
    NonzeroProduct(p.y, p.z);
    NonzeroProduct(2, p.y);
    NonzeroProduct(2, p.y * p.z);
  }

  lemma PointNotAtInfinity(p: Jac, a: Affine)
    requires IsPrime(P) && Denotes(p, a)
    ensures a.Infinity? <==> AtInfinity(p)
  {
    hide IsPrime, Congruent, P;
    if a.Point? && Congruent(p.x, 0) && Congruent(p.y, 0) {
      OrdinateZero(p, a.x, a.y);
      OriginOffCurve(a.x, a.y);
      assert false;
    }
  }

  lemma OriginOffCurve(x: int, y: int)
    requires Congruent(x, 0) && Congruent(y, 0)
    ensures !OnCurve(x, y)
  {
    hide Congruent, P, Pow;
    CubeIs(x);
    CongruentMul(y, 0, y, 0);
    CongruentMul(x, 0, x, 0);
    CongruentMul(x * x, 0, x, 0);
    Same(7, 7);
    CongruentAdd(x * x * x, 0, 7, 7);
    if OnCurve(x, y) {
      CongruentSymmetric(y * y, 0);
      CongruentTransitive(0, y * y, x * x * x + 7);
      CongruentTransitive(0, x * x * x + 7, 7);
      SevenNonzero();
      assert false;
    }
  }

  lemma SevenNonzero()
    ensures !Congruent(0, 7)
  {
  }

  /** What one routine must supply: like terms of both points over a nonzero w, and the chord. */
  ghost predicate Routine(x1: int, y1: int, x2: int, y2: int, w: int,
                          u1: int, s1: int, u2: int, s2: int, sum: Jac)
  {
    && !Congruent(w, 0)
    && Congruent(u1, x1 * (w * w)) && Congruent(u2, x2 * (w * w))
    && Congruent(s1, y1 * (w * w * w)) && Congruent(s2, y2 * (w * w * w))
    && (forall l :: Chord(x1, y1, x2, y2, l) ==> Represents(sum, LineX(x1, x2, l), LineY(x1, y1, x2, l)))
    && (!Congruent(u1, u2) ==> !Congruent(sum.z, 0))
  }

  lemma TermsCompare(x1: int, x2: int, w: int, u1: int, u2: int)
    requires IsPrime(P) && !Congruent(w, 0) && Congruent(u1, x1 * w) && Congruent(u2, x2 * w)
    ensures Congruent(u1, u2) <==> Congruent(x1, x2)
  {
    hide IsPrime, Congruent, P;
    Cancel(x1, x2, w);
    Follow(u1, x1 * w, u2);
    CongruentSymmetric(u2, x2 * w);
    if Congruent(x1 * w, u2) {
      CongruentTransitive(x1 * w, u2, x2 * w);
    }
    if Congruent(x1 * w, x2 * w) {
      CongruentTransitive(x1 * w, x2 * w, u2);
    }
  }

  lemma OutcomeDenotes(p: Jac, x1: int, y1: int, x2: int, y2: int, c: Affine, w: int,
                       u1: int, s1: int, u2: int, s2: int, sum: Jac)
    requires IsPrime(P) && Denotes(p, Point(x1, y1)) && OnCurve(x2, y2)
    requires IsSum(Point(x1, y1), Point(x2, y2), c)
    requires Routine(x1, y1, x2, y2, w, u1, s1, u2, s2, sum)
    ensures Denotes(Outcome(p, u1, s1, u2, s2, sum), c)
  {
    hide IsPrime, Congruent, P, Represents, DoubleJ;
    NonzeroProduct(w, w);
    NonzeroProduct(w * w, w);
    TermsCompare(x1, x2, w * w, u1, u2);
    TermsCompare(y1, y2, w * w * w, s1, s2);
    Same(x1, x1);
    Same(y1, y1);
    Same(0, 0);
    if !Congruent(x1, x2) {
      var l :| Chord(x1, y1, x2, y2, l) && c == Point(LineX(x1, x2, l), LineY(x1, y1, x2, l));
      ChordOnCurve(x1, y1, x2, y2, l);
    } else if Congruent(y1, y2) {
      DoubleDenotes(p, x1, y1, c);
    }
  }

  lemma GenericRoutine(p: Jac, q: Jac, x1: int, y1: int, x2: int, y2: int)
    requires IsPrime(P) && Denotes(p, Point(x1, y1)) && Denotes(q, Point(x2, y2))
    ensures Routine(x1, y1, x2, y2, p.z * q.z, p.x * (q.z * q.z), p.y * (q.z * q.z) * q.z,
                    q.x * (p.z * p.z), q.y * (p.z * p.z) * p.z, GenericSum(p, q))
  {
    hide IsPrime, Congruent, P, Represents, GenericSum;
    var u1, u2 := p.x * (q.z * q.z), q.x * (p.z * p.z);
    LikeTerms(p, q.z, x1, y1);
    LikeTerms(q, p.z, x2, y2);
    assert q.z * p.z == p.z * q.z;
    NonzeroProduct(p.z, q.z);
    forall l | Chord(x1, y1, x2, y2, l)
      ensures Represents(GenericSum(p, q), LineX(x1, x2, l), LineY(x1, y1, x2, l))
    {
      GenericChord(p, q, x1, y1, x2, y2, l);
    }
    if !Congruent(u1, u2) {
      GenericNonzero(p, q);
    }
  }

  /** Although addGeneric leaves z3 unnormalised, it is never a multiple of P. */
  lemma GenericNonzero(p: Jac, q: Jac)
    requires IsPrime(P) && !Congruent(p.z, 0) && !Congruent(q.z, 0)
    requires !Congruent(p.x * (q.z * q.z), q.x * (p.z * p.z))
    ensures !Congruent(GenericSum(p, q).z, 0)
  {
    hide IsPrime, Congruent, P;
    var u1, u2 := p.x * (q.z * q.z), q.x * (p.z * p.z);
    TwoNonzero();
    NonzeroProduct(p.z, q.z);
    DifferenceNonzero(u1, u2);
    GenericIsCore(p, q);
    NonzeroProduct(2, p.z * q.z);
    NonzeroProduct(2 * (p.z * q.z), u2 - u1);
  }

  lemma SameZNonzero(p: Jac, q: Jac)
    requires IsPrime(P) && !Congruent(p.z, 0) && !Congruent(p.x, q.x)
    ensures !Congruent(SameZSum(p, q).z, 0)
  {
    hide IsPrime, Congruent, P;
    DifferenceNonzero(p.x, q.x);
    SameZIsCore(p, q);
    NonzeroProduct(p.z, q.x - p.x);
  }

  lemma MixedRoutine(p: Jac, q: Jac, x1: int, y1: int, x2: int, y2: int)
    requires IsPrime(P) && Denotes(p, Point(x1, y1)) && Denotes(q, Point(x2, y2)) && Congruent(q.z, 1)
    ensures Routine(x1, y1, x2, y2, p.z, p.x, p.y, q.x * (p.z * p.z), q.y * (p.z * p.z) * p.z, MixedSum(p, q))
  {
    hide IsPrime, Congruent, P, MixedSum;
    var w := p.z;
    var u2 := q.x * (w * w);
    TermsAt(q, x2, y2, 1);
    Times(q.x, x2, w * w);
    Times(q.y, y2, w * w * w);
    Associate(q.y, w * w, w);
    forall l | Chord(x1, y1, x2, y2, l)
      ensures Represents(MixedSum(p, q), LineX(x1, x2, l), LineY(x1, y1, x2, l))
    {
      MixedChord(p, q, x1, y1, x2, y2, l);
    }
    if !Congruent(p.x, u2) {
      TwoNonzero();
      DifferenceNonzero(p.x, u2);
      MixedIsCore(p, q);
      NonzeroProduct(w, u2 - p.x);
      NonzeroProduct(2, w * (u2 - p.x));
    }
  }

  lemma UnitRoutine(p: Jac, q: Jac, x1: int, y1: int, x2: int, y2: int)
    requires IsPrime(P) && Represents(p, x1, y1) && Represents(q, x2, y2)
    requires Congruent(p.z, 1) && Congruent(q.z, 1)
    ensures Routine(x1, y1, x2, y2, 1, p.x, p.y, q.x, q.y, UnitSum(p, q))
  {
    hide IsPrime, Congruent, P, Represents, UnitSum;
    TermsAt(p, x1, y1, 1);
    TermsAt(q, x2, y2, 1);
    OneNonzero();
    forall l | Chord(x1, y1, x2, y2, l)
      ensures Represents(UnitSum(p, q), LineX(x1, x2, l), LineY(x1, y1, x2, l))
    {
      UnitChord(p, q, x1, y1, x2, y2, l);
    }
    if !Congruent(p.x, q.x) {
      TwoNonzero();
      DifferenceNonzero(p.x, q.x);
      UnitIsCore(p, q);
      NonzeroProduct(2, q.x - p.x);
    }
  }

  lemma OneNonzero()
    ensures !Congruent(1, 0)
  {
  }

  lemma SameZRoutine(p: Jac, q: Jac, x1: int, y1: int, x2: int, y2: int)
    requires IsPrime(P) && Denotes(p, Point(x1, y1)) && Denotes(q, Point(x2, y2)) && Congruent(p.z, q.z)
    ensures Routine(x1, y1, x2, y2, p.z, p.x, p.y, q.x, q.y, SameZSum(p, q))
  {
    hide IsPrime, Congruent, P, SameZSum;
    CongruentSymmetric(p.z, q.z);
    TermsAt(q, x2, y2, p.z);
    forall l | Chord(x1, y1, x2, y2, l)
      ensures Represents(SameZSum(p, q), LineX(x1, x2, l), LineY(x1, y1, x2, l))
    {
      SameZChord(p, q, x1, y1, x2, y2, l);
    }
    if !Congruent(p.x, q.x) {
      SameZNonzero(p, q);
    }
  }

  /** Jacobian addition computes the group law, whichever routine it selects. */
  lemma AddDenotes(p: Jac, q: Jac, a: Affine, b: Affine, c: Affine)
    requires IsPrime(P) && Denotes(p, a) && Denotes(q, b) && IsSum(a, b, c)
    ensures Denotes(AddJ(p, q), c)
  {
    hide IsPrime, Congruent, P, Represents, Routine, Outcome, GenericSum, MixedSum, UnitSum, SameZSum, OnCurve;
    PointNotAtInfinity(p, a);
    PointNotAtInfinity(q, b);
    if a.Point? && b.Point? {
      var sum := AddJ(p, q);
      if Congruent(p.z, 1) && Congruent(q.z, 1) {
        UnitRoutine(p, q, a.x, a.y, b.x, b.y);
        OutcomeDenotes(p, a.x, a.y, b.x, b.y, c, 1, p.x, p.y, q.x, q.y, UnitSum(p, q));
      } else if Congruent(p.z, q.z) {
        SameZRoutine(p, q, a.x, a.y, b.x, b.y);
        OutcomeDenotes(p, a.x, a.y, b.x, b.y, c, p.z, p.x, p.y, q.x, q.y, SameZSum(p, q));
      } else if Congruent(q.z, 1) {
        MixedRoutine(p, q, a.x, a.y, b.x, b.y);
        OutcomeDenotes(p, a.x, a.y, b.x, b.y, c, p.z, p.x, p.y,
                       q.x * (p.z * p.z), q.y * (p.z * p.z) * p.z, MixedSum(p, q));
      } else {
        GenericRoutine(p, q, a.x, a.y, b.x, b.y);
        OutcomeDenotes(p, a.x, a.y, b.x, b.y, c, p.z * q.z, p.x * (q.z * q.z), p.y * (q.z * q.z) * q.z,
                       q.x * (p.z * p.z), q.y * (p.z * p.z) * p.z, GenericSum(p, q));
      }
    }
  }

  /** Every two points have a sum: the slopes exist because P is prime. */
  lemma SumExists(a: Affine, b: Affine) returns (c: Affine)
    requires IsPrime(P)
    ensures IsSum(a, b, c)
  {
    hide IsPrime, Congruent, P;
    if a.Infinity? {
      return b;
    }
    if b.Infinity? {
      return a;
    }
    if !Congruent(a.x, b.x) {
      DifferenceNonzero(a.x, b.x);
      var l := Slope(b.y - a.y, b.x - a.x);
      assert Chord(a.x, a.y, b.x, b.y, l);
      c := Point(LineX(a.x, b.x, l), LineY(a.x, a.y, b.x, l));
    } else if Congruent(a.y, b.y) && !Congruent(a.y, 0) {
      TwoNonzero();
      NonzeroProduct(2, a.y);
      var l := Slope(3 * (a.x * a.x), 2 * a.y);
      assert Tangent(a.x, a.y, l);
      c := Point(LineX(a.x, a.x, l), LineY(a.x, a.y, a.x, l));
    } else {
      c := Infinity;
    }
  }

  lemma Slope(rise: int, run: int) returns (l: int)
    requires IsPrime(P) && !Congruent(run, 0)
    ensures Congruent(l * run, rise)
  {
    hide Congruent, P, IsPrime, Divides;
    CongruentIsDivides(run, 0);
    var u := InverseExists(P, run);
    CongruentIsDivides(u * run, 1);
    l := rise * u;
    Times(u * run, 1, rise);
    Associate(rise, u, run);
  }
}
