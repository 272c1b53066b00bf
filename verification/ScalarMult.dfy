/** Scalar multiplication: algorithm 3.77 of the Guide to Elliptic Curve Cryptography over the split
multiplier. */
module ScalarMult {
  import opened Bytes
  import opened NumberTheory
  import opened FieldProduct
  import opened FieldNormal
  import opened Congruence
  import opened Field
  import opened FieldPower
  import opened FieldFermat
  import opened Jacobian
  import opened CurveLaw
  import opened Curve
  import opened CurveGroup
  import opened Endomorphism
  import opened Naf
  import PubKey
  import Ops = FieldOps

  lemma AddStands(p: Jac, q: Jac, a: Affine, b: Affine)
    requires IsPrime(P) && Denotes(p, a) && Denotes(q, b)
    ensures Denotes(AddJ(p, q), Sum(a, b))
  {
    hide *;
    var c := SumWitness(a, b);
    AddDenotes(p, q, a, b, c);
    DenotesCanon(AddJ(p, q), c);
  }

  lemma DoubleStands(p: Jac, a: Affine)
    requires IsPrime(P) && Denotes(p, a)
    ensures Denotes(DoubleJ(p), Sum(a, a))
  {
    hide IsPrime, Congruent, P, Represents, Twice, Canon, Sum, OnCurve, IsSum;
    if a.Infinity? {
      InfinityCanonical();
      Identity(Infinity);
      Same(0, 0);
    } else {
      var c := SumWitness(a, a);
      DoubleDenotes(p, a.x, a.y, c);
      DenotesCanon(DoubleJ(p), c);
    }
  }

  lemma SumOfMultiples(h: int, w: int, b: Affine)
    requires IsPrime(P) && GroupLaw() && Canonical(b)
    ensures Sum(CurveGroup.Times(h, b), CurveGroup.Times(w, b)) == CurveGroup.Times(h + w, b)
    ensures Sum(CurveGroup.Times(h, b), Neg(CurveGroup.Times(w, b))) == CurveGroup.Times(h - w, b)
  {
    hide *;
    TimesAdd(h, w, b);
    TimesAdd(h - w, w, b);
    TimesCanonical(h - w, b);
    TimesCanonical(w, b);
    CurveGroup.Inverse(CurveGroup.Times(w, b));
    NegCanonical(CurveGroup.Times(w, b));
    CancelRight(CurveGroup.Times(h - w, b), CurveGroup.Times(w, b), Neg(CurveGroup.Times(w, b)));
    assert h - w + w == h;
  }

  /** The multiple of b that both halves make up. */
  ghost function Total(w1: int, w2: int, x: int, y: int): int {
    w1 * x + w2 * y
  }

  /** A base point with both signs of its ordinate. */
  datatype Operand = Operand(x: FieldVal, y: FieldVal, yNeg: FieldVal, z: FieldVal)

  /** The accumulator shares no field value with the operand. */
  ghost predicate Outside(qx: FieldVal, qy: FieldVal, qz: FieldVal, p: Operand) {
    && qx != qy && qx != qz && qy != qz
    && qx != p.x && qx != p.y && qx != p.yNeg && qx != p.z
    && qy != p.x && qy != p.y && qy != p.yNeg && qy != p.z
    && qz != p.x && qz != p.y && qz != p.yNeg && qz != p.z
  }

  ghost predicate Unrelated(p1: Operand, p2: Operand) {
    && p1.x != p2.x && p1.x != p2.y && p1.x != p2.yNeg && p1.x != p2.z
    && p1.y != p2.x && p1.y != p2.y && p1.y != p2.yNeg && p1.y != p2.z
    && p1.yNeg != p2.x && p1.yNeg != p2.y && p1.yNeg != p2.yNeg && p1.yNeg != p2.z
    && p1.z != p2.x && p1.z != p2.y && p1.z != p2.yNeg && p1.z != p2.z
  }

  ghost predicate Ready(p: Operand, s: Affine)
    reads p.x, p.y, p.yNeg, p.z
  {
    && p.x != p.y && p.x != p.yNeg && p.x != p.z && p.y != p.yNeg && p.y != p.z && p.yNeg != p.z
    && Held(p.x, p.y, p.z) && Held(p.x, p.yNeg, p.z)
    && !Congruent(p.y.e, 0) && !Congruent(p.yNeg.e, 0)
    && Denotes(At(p.x, p.y, p.z), s) && Denotes(At(p.x, p.yNeg, p.z), Neg(s))
  }

  /** Adds the point or its negative, as the digit says; the plus bit is looked at first. */
  method AddDigit(qx: FieldVal, qy: FieldVal, qz: FieldVal, p: Operand, plus: bool, minus: bool,
                  ghost digit: int, ghost b: Affine, ghost w: int, ghost h: int)
    requires IsPrime(P) && GroupLaw() && Canonical(b)
    requires Ready(p, CurveGroup.Times(w, b)) && Outside(qx, qy, qz, p)
    requires Held(qx, qy, qz) && Denotes(At(qx, qy, qz), CurveGroup.Times(h, b))
    requires -1 <= digit <= 1 && plus == (digit == 1) && minus == (digit == -1)
    modifies qx, qy, qz, p.x, p.y, p.yNeg, p.z
    ensures Ready(p, CurveGroup.Times(w, b))
    ensures Held(qx, qy, qz) && Denotes(At(qx, qy, qz), CurveGroup.Times(h + w * digit, b))
  {
    hide IsPrime, GroupLaw, Canonical, Denotes, Congruent, P, CurveGroup.Times, Neg, AddJ, Ops.Is, Ops.Mag, Sum;
    SumOfMultiples(h, w, b);
    ghost var q, s := At(qx, qy, qz), CurveGroup.Times(w, b);
    if plus {
      AddStands(q, At(p.x, p.y, p.z), CurveGroup.Times(h, b), s);
      AddJacobian(qx, qy, qz, p.x, p.y, p.z, qx, qy, qz);
    } else if minus {
      AddStands(q, At(p.x, p.yNeg, p.z), CurveGroup.Times(h, b), Neg(s));
      AddJacobian(qx, qy, qz, p.x, p.yNeg, p.z, qx, qy, qz);
    }
  }

  /** One turn of the inner loop: double, then one digit of either half. */
  method Accumulate(qx: FieldVal, qy: FieldVal, qz: FieldVal, p1: Operand, p2: Operand,
                    plus1: bool, minus1: bool, plus2: bool, minus2: bool,
                    ghost e1: int, ghost e2: int, ghost b: Affine, ghost w1: int, ghost w2: int, ghost h: int)
    requires IsPrime(P) && GroupLaw() && Canonical(b)
    requires Ready(p1, CurveGroup.Times(w1, b)) && Ready(p2, CurveGroup.Times(w2, b))
    requires Outside(qx, qy, qz, p1) && Outside(qx, qy, qz, p2) && Unrelated(p1, p2)
    requires Held(qx, qy, qz) && Denotes(At(qx, qy, qz), CurveGroup.Times(h, b))
    requires -1 <= e1 <= 1 && plus1 == (e1 == 1) && minus1 == (e1 == -1)
    requires -1 <= e2 <= 1 && plus2 == (e2 == 1) && minus2 == (e2 == -1)
    modifies qx, qy, qz, p1.x, p1.y, p1.yNeg, p1.z, p2.x, p2.y, p2.yNeg, p2.z
    ensures Ready(p1, CurveGroup.Times(w1, b)) && Ready(p2, CurveGroup.Times(w2, b))
    ensures Held(qx, qy, qz) && Denotes(At(qx, qy, qz), CurveGroup.Times(2 * h + Total(w1, w2, e1, e2), b))
  {
    hide IsPrime, GroupLaw, Canonical, Denotes, Congruent, P, CurveGroup.Times, Neg, Ops.Is, Ops.Mag, DoubleJ, Sum;
    DoubleStands(At(qx, qy, qz), CurveGroup.Times(h, b));
    SumOfMultiples(h, h, b);
    DoubleInPlace(qx, qy, qz);
    AddDigit(qx, qy, qz, p1, plus1, minus1, e1, b, w1, 2 * h);
    AddDigit(qx, qy, qz, p2, plus2, minus2, e2, b, w2, 2 * h + w1 * e1);
  }

  method DoubleInPlace(qx: FieldVal, qy: FieldVal, qz: FieldVal)
    requires Held(qx, qy, qz) && qx != qy && qx != qz && qy != qz
    modifies qx, qy, qz
    ensures Held(qx, qy, qz) && At(qx, qy, qz) == DoubleJ(old(At(qx, qy, qz)))
  {
    hide Congruent, P, DoubleJ, Ops.Is, Ops.Mag;
    DoubleJacobian(qx, qy, qz, qx, qy, qz);
    TidyExact(qx);
    TidyExact(qy);
    TidyExact(qz);
  }

  // The digits of a byte, from the top.

  /** The byte shifted left until digit j - 1 is its top bit. */
  ghost predicate Aligned(s: int, d: seq<int>, which: int, j: nat)
    requires j <= |d| <= 8
  {
    s == Pack(d[..j], which) * Two(8 - j)
  }

  /** s << 1 on bytes. */
  function ShiftLeft(s: int): byte {
    s * 2 % 256
  }

  lemma TopBit(s: byte, d: seq<int>, which: int, j: nat)
    requires 0 < j <= |d| <= 8 && Aligned(s, d, which, j)
    ensures s >= 128 <==> d[j - 1] == which
    ensures Aligned(ShiftLeft(s), d, which, j - 1)
  {
    var e := d[..j];
    assert e[..j - 1] == d[..j - 1] && e[j - 1] == d[j - 1];
    PackBound(d[..j - 1], which);
    var low, u, v := Pack(d[..j - 1], which), Two(j - 1), Two(8 - j);
    assert u * v == 128 by { TwoSum(j - 1, 8 - j); }
    assert Two(9 - j) == 2 * v;
    var bit := if d[j - 1] == which then 1 else 0;
    assert Pack(e, which) == low + bit * u;
    hide Congruent, P, Pack, Two;
    ShiftOut(low, u, v, bit);
  }

  lemma TwoSum(i: nat, j: nat)
    requires i + j == 7
    ensures Two(i) * Two(j) == 128
  {
    hide Congruent, P;
    TwoAdd(i, j);
    assert Two(7) == 2 * Two(6) == 4 * Two(5) == 8 * Two(4) == 16 * Two(3) == 32 * Two(2) == 64 * Two(1);
  }

  lemma {:induction false} TwoAdd(i: nat, j: nat)
    ensures Two(i + j) == Two(i) * Two(j)
  {
    if i > 0 {
      TwoAdd(i - 1, j);
      assert Two(i) * Two(j) == 2 * (Two(i - 1) * Two(j));
    }
  }

  lemma ShiftOut(low: int, u: int, v: int, bit: int)
    requires 0 <= low < u && v > 0 && u * v == 128 && 0 <= bit <= 1
    ensures var s := (low + bit * u) * v; (s >= 128 <==> bit == 1) && s * 2 % 256 == low * (2 * v)
  {
    ScaledBelow(low, u, v);
    ScaledBit(low, u, v, bit);
    assert low * (2 * v) == 2 * (low * v);
    DropTop(low * v, bit);
  }

  lemma ScaledBelow(low: int, u: int, v: int)
    requires 0 <= low < u && v > 0
    ensures 0 <= low * v < u * v
  {
  }

  lemma ScaledBit(low: int, u: int, v: int, bit: int)
    ensures (low + bit * u) * v == low * v + bit * (u * v)
  {
  }

  lemma DropTop(x: int, bit: int)
    requires 0 <= x < 128 && 0 <= bit <= 1
    ensures x + bit * 128 >= 128 <==> bit == 1
    ensures (x + bit * 128) * 2 % 256 == 2 * x
  {
  }

  /** The value of the digits from j on. */
  ghost function High(d: seq<int>, j: nat): int
    requires j <= |d|
    decreases |d| - j
  {
    if j == |d| then 0 else d[j] + 2 * High(d, j + 1)
  }

  lemma {:induction false} HighIsPack(d: seq<int>, j: nat)
    requires Digits(d) && j <= |d|
    ensures Pack(d, 1) - Pack(d, -1) == Pack(d[..j], 1) - Pack(d[..j], -1) + Two(j) * High(d, j)
    decreases |d| - j
  {
    if j == |d| {
      assert d[..j] == d;
    } else {
      HighIsPack(d, j + 1);
      assert d[..j + 1] == d[..j] + [d[j]];
      PackDigit(d[..j], d[j]);
      DistributeTwo(Two(j), d[j], High(d, j + 1));
    }
  }

  lemma WholeByte(p: byte, n: byte, d: seq<int>)
    requires IsNafByte(p, n, d)
    ensures High(d, 0) == p - n
    ensures Aligned(p, d, 1, 8) && Aligned(n, d, -1, 8)
  {
    HighIsPack(d, 0);
    assert d[..8] == d && d[..0] == [];
  }

  /** What has been accumulated when the digits from j on are done. */
  ghost function Reached(h: int, w1: int, w2: int, d1: seq<int>, d2: seq<int>, j: nat): int
    requires j <= |d1| == |d2| == 8
  {
    Two(8 - j) * h + Total(w1, w2, High(d1, j), High(d2, j))
  }

  lemma ReachedStep(h: int, w1: int, w2: int, d1: seq<int>, d2: seq<int>, j: nat)
    requires 0 < j <= |d1| == |d2| == 8
    ensures Reached(h, w1, w2, d1, d2, j - 1)
            == 2 * Reached(h, w1, w2, d1, d2, j) + Total(w1, w2, d1[j - 1], d2[j - 1])
  {
    assert Two(9 - j) == 2 * Two(8 - j);
    HornerDigit(w1, d1[j - 1], High(d1, j));
    HornerDigit(w2, d2[j - 1], High(d2, j));
    var t := Two(8 - j);
    assert (2 * t) * h == 2 * (t * h);
  }

  lemma HornerDigit(w: int, d: int, x: int)
    ensures w * (d + 2 * x) == w * d + 2 * (w * x)
  {
  }

  lemma ReachedEnds(h: int, w1: int, w2: int, d1: seq<int>, d2: seq<int>)
    requires |d1| == |d2| == 8
    ensures Reached(h, w1, w2, d1, d2, 8) == h
    ensures Reached(h, w1, w2, d1, d2, 0) == 256 * h + Total(w1, w2, High(d1, 0), High(d2, 0))
  {
    EightBits();
  }

  /** One turn of the outer loop: eight digits of both halves. */
  method AccumulateByte(qx: FieldVal, qy: FieldVal, qz: FieldVal, p1: Operand, p2: Operand,
                        k1Pos: byte, k1Neg: byte, k2Pos: byte, k2Neg: byte, ghost d1: seq<int>, ghost d2: seq<int>,
                        ghost b: Affine, ghost w1: int, ghost w2: int, ghost h: int)
    requires IsPrime(P) && GroupLaw() && Canonical(b)
    requires Ready(p1, CurveGroup.Times(w1, b)) && Ready(p2, CurveGroup.Times(w2, b))
    requires Outside(qx, qy, qz, p1) && Outside(qx, qy, qz, p2) && Unrelated(p1, p2)
    requires Held(qx, qy, qz) && Denotes(At(qx, qy, qz), CurveGroup.Times(h, b))
    requires IsNafByte(k1Pos, k1Neg, d1) && IsNafByte(k2Pos, k2Neg, d2)
    modifies qx, qy, qz, p1.x, p1.y, p1.yNeg, p1.z, p2.x, p2.y, p2.yNeg, p2.z
    ensures Ready(p1, CurveGroup.Times(w1, b)) && Ready(p2, CurveGroup.Times(w2, b))
    ensures Held(qx, qy, qz)
    ensures Denotes(At(qx, qy, qz),
                    CurveGroup.Times(256 * h + Total(w1, w2, k1Pos - k1Neg, k2Pos - k2Neg), b))
  {
    hide Congruent, P, IsPrime, GroupLaw, Canonical, Denotes, CurveGroup.Times, Ready, Held, At, Aligned, High, Reached, Pack, Two,
         ShiftLeft, Total;
    var s1, t1, s2, t2 := k1Pos, k1Neg, k2Pos, k2Neg;
    WholeByte(s1, t1, d1);
    WholeByte(s2, t2, d2);
    ReachedEnds(h, w1, w2, d1, d2);
    for j := 8 downto 0
      invariant Ready(p1, CurveGroup.Times(w1, b)) && Ready(p2, CurveGroup.Times(w2, b)) && Held(qx, qy, qz)
      invariant Aligned(s1, d1, 1, j) && Aligned(t1, d1, -1, j) && Aligned(s2, d2, 1, j) && Aligned(t2, d2, -1, j)
      invariant Denotes(At(qx, qy, qz), CurveGroup.Times(Reached(h, w1, w2, d1, d2, j), b))
    {
      TopBit(s1, d1, 1, j + 1);
      TopBit(t1, d1, -1, j + 1);
      TopBit(s2, d2, 1, j + 1);
      TopBit(t2, d2, -1, j + 1);
      ReachedStep(h, w1, w2, d1, d2, j + 1);
      Accumulate(qx, qy, qz, p1, p2, s1 >= 128, t1 >= 128, s2 >= 128, t2 >= 128, d1[j], d2[j], b, w1, w2,
                 Reached(h, w1, w2, d1, d2, j + 1));
      s1, t1, s2, t2 := ShiftLeft(s1), ShiftLeft(t1), ShiftLeft(s2), ShiftLeft(t2);
    }
  }

  // The halves padded to a common length.

  /** The byte at i of a half padded on the left to m bytes. */
  function PaddedAt(s: seq<byte>, m: nat, i: nat): (b: byte)
    requires |s| <= m && i < m
    ensures b == Padded(s, m)[i]
  {
    if i < m - |s| then 0 else s[i - (m - |s|)]
  }

  ghost const NO_DIGITS: seq<int> := Zeros(8)

  ghost function PaddedDigits(d: seq<seq<int>>, m: nat): (r: seq<seq<int>>)
    requires |d| <= m
    ensures |r| == m
  {
    seq(m - |d|, _ => NO_DIGITS) + d
  }

  lemma {:induction false} ZerosPack(j: nat, which: int)
    requires which != 0
    ensures Pack(Zeros(j), which) == 0
  {
    if j > 0 {
      ZerosPack(j - 1, which);
      PackLast(Zeros(j - 1), 0, which);
      assert Zeros(j) == Zeros(j - 1) + [0];
    }
  }

  lemma PaddedNafByte(pos: seq<byte>, neg: seq<byte>, d: seq<seq<int>>, m: nat, i: nat)
    requires IsNaf(pos, neg, d) && |d| <= m && i < m
    ensures IsNafByte(Padded(pos, m)[i], Padded(neg, m)[i], PaddedDigits(d, m)[i])
  {
    if i < m - |d| {
      ZerosPack(8, 1);
      ZerosPack(8, -1);
    } else {
      hide IsNafByte;
      assert IsNafByte(pos[i - (m - |d|)], neg[i - (m - |d|)], d[i - (m - |d|)]);
    }
  }

  /** The difference of the first i bytes of a padded half. */
  ghost function Front(pos: seq<byte>, neg: seq<byte>, m: nat, i: nat): int
    requires |pos| == |neg| <= m && i <= m
  {
    BigEndian(Padded(pos, m)[..i]) - BigEndian(Padded(neg, m)[..i])
  }

  lemma FrontStep(pos: seq<byte>, neg: seq<byte>, m: nat, i: nat)
    requires |pos| == |neg| <= m && i < m
    ensures Front(pos, neg, m, i + 1) == 256 * Front(pos, neg, m, i) + Padded(pos, m)[i] - Padded(neg, m)[i]
  {
    BigEndianStep(Padded(pos, m), i);
    BigEndianStep(Padded(neg, m), i);
  }

  lemma BigEndianStep(s: seq<byte>, i: nat)
    requires i < |s|
    ensures BigEndian(s[..i + 1]) == BigEndian(s[..i]) * 256 + s[i]
  {
    assert s[..i + 1][..i] == s[..i];
  }

  lemma FrontEnds(pos: seq<byte>, neg: seq<byte>, m: nat)
    requires |pos| == |neg| <= m
    ensures Front(pos, neg, m, 0) == 0 && Front(pos, neg, m, m) == BigEndian(pos) - BigEndian(neg)
  {
    PaddedValue(pos, m);
    PaddedValue(neg, m);
    assert Padded(pos, m)[..m] == Padded(pos, m) && Padded(neg, m)[..m] == Padded(neg, m);
  }

  lemma TotalStep(w1: int, w2: int, x: int, y: int, a: int, b: int)
    ensures Total(w1, w2, 256 * x + a, 256 * y + b) == 256 * Total(w1, w2, x, y) + Total(w1, w2, a, b)
  {
    ScaledStep(w1, x, a);
    ScaledStep(w2, y, b);
  }

  lemma ScaledStep(w: int, x: int, a: int)
    ensures w * (256 * x + a) == 256 * (w * x) + w * a
  {
  }

  /** The multiple of b reached before byte i. */
  ghost function Progress(w1: int, w2: int, k1Pos: seq<byte>, k1Neg: seq<byte>, k2Pos: seq<byte>, k2Neg: seq<byte>,
                          m: nat, i: nat): int
    requires |k1Pos| == |k1Neg| <= m && |k2Pos| == |k2Neg| <= m && i <= m
  {
    Total(w1, w2, Front(k1Pos, k1Neg, m, i), Front(k2Pos, k2Neg, m, i))
  }

  lemma ProgressStep(w1: int, w2: int, k1Pos: seq<byte>, k1Neg: seq<byte>, k2Pos: seq<byte>, k2Neg: seq<byte>,
                     m: nat, i: nat)
    requires |k1Pos| == |k1Neg| <= m && |k2Pos| == |k2Neg| <= m && i < m
    ensures var x: int, y: int := PaddedAt(k1Pos, m, i), PaddedAt(k2Pos, m, i);
            Progress(w1, w2, k1Pos, k1Neg, k2Pos, k2Neg, m, i + 1)
            == 256 * Progress(w1, w2, k1Pos, k1Neg, k2Pos, k2Neg, m, i)
               + Total(w1, w2, x - PaddedAt(k1Neg, m, i), y - PaddedAt(k2Neg, m, i))
  {
    hide Total, Front, Padded;
    FrontStep(k1Pos, k1Neg, m, i);
    FrontStep(k2Pos, k2Neg, m, i);
    var x: int, y: int := PaddedAt(k1Pos, m, i), PaddedAt(k2Pos, m, i);
    TotalStep(w1, w2, Front(k1Pos, k1Neg, m, i), Front(k2Pos, k2Neg, m, i),
              x - PaddedAt(k1Neg, m, i), y - PaddedAt(k2Neg, m, i));
  }

  lemma ProgressEnds(w1: int, w2: int, k1Pos: seq<byte>, k1Neg: seq<byte>, k2Pos: seq<byte>, k2Neg: seq<byte>, m: nat)
    requires |k1Pos| == |k1Neg| <= m && |k2Pos| == |k2Neg| <= m
    ensures Progress(w1, w2, k1Pos, k1Neg, k2Pos, k2Neg, m, 0) == 0
    ensures Progress(w1, w2, k1Pos, k1Neg, k2Pos, k2Neg, m, m)
            == Total(w1, w2, BigEndian(k1Pos) - BigEndian(k1Neg), BigEndian(k2Pos) - BigEndian(k2Neg))
  {
    hide Front, BigEndian, Padded;
    FrontEnds(k1Pos, k1Neg, m);
    FrontEnds(k2Pos, k2Neg, m);
  }

  /** Byte i of both halves. */
  method AccumulateAt(qx: FieldVal, qy: FieldVal, qz: FieldVal, p1: Operand, p2: Operand,
                      k1Pos: seq<byte>, k1Neg: seq<byte>, k2Pos: seq<byte>, k2Neg: seq<byte>, m: nat, i: nat,
                      ghost d1: seq<seq<int>>, ghost d2: seq<seq<int>>, ghost b: Affine, ghost w1: int, ghost w2: int)
    requires IsPrime(P) && GroupLaw() && Canonical(b)
    requires Ready(p1, CurveGroup.Times(w1, b)) && Ready(p2, CurveGroup.Times(w2, b))
    requires Outside(qx, qy, qz, p1) && Outside(qx, qy, qz, p2) && Unrelated(p1, p2)
    requires IsNaf(k1Pos, k1Neg, d1) && IsNaf(k2Pos, k2Neg, d2) && |k1Pos| <= m && |k2Pos| <= m && i < m
    requires Held(qx, qy, qz)
    requires Denotes(At(qx, qy, qz), CurveGroup.Times(Progress(w1, w2, k1Pos, k1Neg, k2Pos, k2Neg, m, i), b))
    modifies qx, qy, qz, p1.x, p1.y, p1.yNeg, p1.z, p2.x, p2.y, p2.yNeg, p2.z
    ensures Ready(p1, CurveGroup.Times(w1, b)) && Ready(p2, CurveGroup.Times(w2, b)) && Held(qx, qy, qz)
    ensures Denotes(At(qx, qy, qz), CurveGroup.Times(Progress(w1, w2, k1Pos, k1Neg, k2Pos, k2Neg, m, i + 1), b))
  {
    hide *;
    NafLengths(k1Pos, k1Neg, d1);
    NafLengths(k2Pos, k2Neg, d2);
    PaddedNafByte(k1Pos, k1Neg, d1, m, i);
    PaddedNafByte(k2Pos, k2Neg, d2, m, i);
    ProgressStep(w1, w2, k1Pos, k1Neg, k2Pos, k2Neg, m, i);
    AccumulateByte(qx, qy, qz, p1, p2, PaddedAt(k1Pos, m, i), PaddedAt(k1Neg, m, i), PaddedAt(k2Pos, m, i),
                   PaddedAt(k2Neg, m, i), PaddedDigits(d1, m)[i], PaddedDigits(d2, m)[i], b, w1, w2,
                   Progress(w1, w2, k1Pos, k1Neg, k2Pos, k2Neg, m, i));
  }

  /** The interleaved double-and-add loop over both halves. */
  method AccumulateAll(qx: FieldVal, qy: FieldVal, qz: FieldVal, p1: Operand, p2: Operand,
                       k1Pos: seq<byte>, k1Neg: seq<byte>, k2Pos: seq<byte>, k2Neg: seq<byte>,
                       ghost d1: seq<seq<int>>, ghost d2: seq<seq<int>>, ghost b: Affine, ghost w1: int, ghost w2: int)
    requires IsPrime(P) && GroupLaw() && Canonical(b)
    requires Ready(p1, CurveGroup.Times(w1, b)) && Ready(p2, CurveGroup.Times(w2, b))
    requires Outside(qx, qy, qz, p1) && Outside(qx, qy, qz, p2) && Unrelated(p1, p2)
    requires Held(qx, qy, qz) && Denotes(At(qx, qy, qz), CurveGroup.Times(0, b))
    requires IsNaf(k1Pos, k1Neg, d1) && IsNaf(k2Pos, k2Neg, d2)
    modifies qx, qy, qz, p1.x, p1.y, p1.yNeg, p1.z, p2.x, p2.y, p2.yNeg, p2.z
    ensures Held(qx, qy, qz)
    ensures Denotes(At(qx, qy, qz),
                    CurveGroup.Times(Total(w1, w2, BigEndian(k1Pos) - BigEndian(k1Neg),
                                           BigEndian(k2Pos) - BigEndian(k2Neg)), b))
  {
    hide *;
    NafLengths(k1Pos, k1Neg, d1);
    NafLengths(k2Pos, k2Neg, d2);
    var m := if |k1Pos| < |k2Pos| then |k2Pos| else |k1Pos|;
    ProgressEnds(w1, w2, k1Pos, k1Neg, k2Pos, k2Neg, m);
    for i := 0 to m
      invariant Ready(p1, CurveGroup.Times(w1, b)) && Ready(p2, CurveGroup.Times(w2, b)) && Held(qx, qy, qz)
      invariant Denotes(At(qx, qy, qz), CurveGroup.Times(Progress(w1, w2, k1Pos, k1Neg, k2Pos, k2Neg, m, i), b))
    {
      AccumulateAt(qx, qy, qz, p1, p2, k1Pos, k1Neg, k2Pos, k2Neg, m, i, d1, d2, b, w1, w2);
    }
  }

  lemma NafLengths(pos: seq<byte>, neg: seq<byte>, d: seq<seq<int>>)
    requires IsNaf(pos, neg, d)
    ensures |pos| == |neg| == |d|
  {
  }

  // The operands.

  /** A point killed by the odd number N is not its own negative. */
  lemma OddOrder(b: Affine)
    requires IsPrime(P) && GroupLaw() && Canonical(b) && b.Point? && CurveGroup.Times(N, b) == Infinity
    ensures !Congruent(b.y, 0)
  {
    hide *;
    if Congruent(b.y, 0) {
      SelfOpposite(b);
      TimesAdd(1, 1, b);
      TimesOne(b);
      var h := (N - 1) / 2;
      assert N == 1 + h * 2 by { HalfOrder(); }
      TimesMod(N, 1, 2, h, b);
    }
  }

  lemma HalfOrder()
    ensures N == 1 + (N - 1) / 2 * 2
  {
  }

  lemma SelfOpposite(b: Affine)
    requires IsPrime(P) && b.Point? && Congruent(b.y, 0)
    ensures Sum(b, b) == Infinity
  {
    hide IsPrime, Congruent, P, Sum;
    Same(b.x, b.x);
    var c := SumWitness(b, b);
  }

  lemma NegNeg(a: Affine)
    requires Canonical(a)
    ensures Neg(Neg(a)) == a
  {
    hide OnCurve;
    if a.Point? {
      OppositeTwice(a.y);
    }
  }

  lemma OppositeTwice(y: int)
    requires 0 <= y < P
    ensures (-(-y % P)) % P == y
  {
    if y > 0 {
      assert -y % P == P - y;
    }
  }

  lemma TimesMinusOne(a: Affine)
    requires IsPrime(P) && Canonical(a)
    ensures CurveGroup.Times(-1, a) == Neg(a)
  {
    hide Congruent, P, IsPrime, Canonical, Sum, Neg;
    NegCanonical(a);
    Identity(Neg(a));
    assert Mult(1, Neg(a)) == Sum(Mult(0, Neg(a)), Neg(a));
  }

  /** A point with z coordinate one. */
  lemma UnitDenotes(x: int, y: int, s: Affine)
    requires s.Point? && OnCurve(s.x, s.y) && Congruent(x, s.x) && Congruent(y, s.y)
    ensures Denotes(Jac(x, y, 1), s)
  {
    hide Congruent, P;
    assert !Congruent(1, 0) by { OneNonzero(); }
  }

  lemma OneNonzero()
    ensures !Congruent(1, 0)
  {
  }

  lemma OppositeDenotes(x: int, y: int, s: Affine)
    requires s.Point? && Canonical(s) && Congruent(x, s.x) && Congruent(y, s.y) && !Congruent(y, 0)
    ensures Denotes(Jac(x, y, 1), s) && Denotes(Jac(x, -y, 1), Neg(s)) && !Congruent(-y, 0)
  {
    hide Congruent, P, OnCurve;
    UnitDenotes(x, y, s);
    SquareOfOpposite(s.y);
    OppositeOnCurve(s.x, s.y);
    Same(0, 0);
    CongruentAdd(0, 0, y, s.y);
    UnitDenotes(x, -y, Point(s.x, -s.y));
    DenotesCanon(Jac(x, -y, 1), Point(s.x, -s.y));
    if Congruent(-y, 0) {
      CongruentAdd(0, 0, -y, 0);
    }
  }

  lemma OppositeOnCurve(x: int, y: int)
    requires OnCurve(x, y)
    ensures OnCurve(x, -y)
  {
    hide Congruent, P, Pow;
    SquareOfOpposite(y);
  }

  /** The negated ordinate and the swap for a negative half. */
  method Prepare(fx: FieldVal, fy: FieldVal, sign: int, ghost s: Affine) returns (p: Operand)
    requires IsPrime(P) && s.Point? && Canonical(s) && fx != fy && -1 <= sign <= 1
    requires fx.Valid() && fx.Mag() <= 1 && fy.Valid() && fy.Mag() <= 1
    requires Congruent(fx.e, s.x) && Congruent(fy.e, s.y) && !Congruent(fy.e, 0)
    ensures Ready(p, CurveGroup.Times(SignOf(sign), s))
    ensures p.x == fx && fresh(p.z) && ((p.y == fy && fresh(p.yNeg)) || (fresh(p.y) && p.yNeg == fy))
  {
    hide IsPrime, Congruent, P, Denotes, Canonical, Ops.Is, Ops.Mag, CurveGroup.Times, Neg;
    TimesOne(s);
    TimesMinusOne(s);
    NegNeg(s);
    OneNonzero();
    OppositeDenotes(fx.e, fy.e, s);
    var yNeg := new FieldVal();
    yNeg.NegateVal(fy, 1);
    var z := new FieldVal();
    z.SetInt(1);
    if sign == -1 {
      return Operand(fx, yNeg, fy, z);
    }
    return Operand(fx, fy, yNeg, z);
  }

  // Back to affine coordinates.

  /** Dividing by powers of z recovers the affine coordinates; infinity becomes (0, 0). */
  lemma AffineOf(p: Jac, a: Affine, i: int)
    requires IsPrime(P) && Denotes(p, a) && Canonical(a) && i == Pow(p.z, P - 2)
    ensures var x, y := p.x * (i * i), p.y * (i * i * i);
            if a.Point? then x % P == a.x && y % P == a.y else x % P == 0 && y % P == 0
  {
    hide Pow, IsPrime, Congruent, P, OnCurve;
    ModulusFacts();
    if a.Point? {
      InversePower(p.z);
      Divide(p.x, a.x, p.z, i);
      DivideCube(p.y, a.y, p.z, i);
      Residue(p.x * (i * i), a.x);
      Residue(p.y * (i * i * i), a.y);
    } else {
      var j, k := i * i, i * i * i;
      if Congruent(p.z, 0) {
        ZeroPower(p.z);
        ZeroFactor(i, i);
        ZeroFactor(i, i * i);
        Associate(i, i, i);
        ZeroFactor(j, p.x);
        ZeroFactor(k, p.y);
      } else {
        ZeroFactor(p.x, j);
        ZeroFactor(p.y, k);
      }
      Residue(p.x * j, 0);
      Residue(p.y * k, 0);
    }
  }

  lemma ZeroFactor(a: int, b: int)
    requires Congruent(a, 0)
    ensures Congruent(a * b, 0) && Congruent(b * a, 0)
  {
    hide Congruent, P;
    Jacobian.Times(a, 0, b);
  }

  lemma Residue(x: int, r: int)
    requires Congruent(x, r) && 0 <= r < P
    ensures x % P == r
  {
  }

  lemma UnitPower(z: int, i: int)
    requires Congruent(i * z, 1)
    ensures Congruent((z * z) * (i * i), 1) && Congruent((z * z * z) * (i * i * i), 1)
  {
    hide Congruent, P;
    CongruentMul(i * z, 1, i * z, 1);
    MulShuffle(i, z, i, z);
    CongruentMul((z * z) * (i * i), 1, i * z, 1);
    MulShuffle(z * z, i * i, z, i);
  }

  lemma Divide(x: int, a: int, z: int, i: int)
    requires Congruent(x, a * (z * z)) && Congruent(i * z, 1)
    ensures Congruent(x * (i * i), a)
  {
    hide Congruent, P;
    UnitPower(z, i);
    Jacobian.Times(x, a * (z * z), i * i);
    Associate(a, z * z, i * i);
    Jacobian.Times((z * z) * (i * i), 1, a);
    CongruentTransitive(x * (i * i), a * ((z * z) * (i * i)), a * 1);
  }

  lemma DivideCube(y: int, a: int, z: int, i: int)
    requires Congruent(y, a * (z * z * z)) && Congruent(i * z, 1)
    ensures Congruent(y * (i * i * i), a)
  {
    hide Congruent, P;
    UnitPower(z, i);
    var u, v := z * z * z, i * i * i;
    Jacobian.Times(y, a * u, v);
    Associate(a, u, v);
    Jacobian.Times(u * v, 1, a);
    CongruentTransitive(y * v, a * (u * v), a * 1);
  }

  /** (x, y) are the coordinates of a, with (0, 0) for the point at infinity. */
  ghost predicate IsAffine(x: int, y: int, a: Affine) {
    if a.Point? then x == a.x && y == a.y else x == 0 && y == 0
  }

  method FieldJacobianToBigAffine(x: FieldVal, y: FieldVal, z: FieldVal, ghost a: Affine)
    returns (bigX: nat, bigY: nat)
    requires IsPrime(P) && Canonical(a) && x != y && x != z && y != z
    requires Small(x) && Small(y) && Small(z) && Denotes(At(x, y, z), a)
    modifies x, y, z
    ensures IsAffine(bigX, bigY, a)
    ensures x.Valid() && y.Valid() && z.Valid() && z.e == 1
  {
    hide Ops.Is, Ops.Mag, IsPrime, Canonical, Denotes, Congruent, P, Pow, BigEndian;
    ModulusFacts();
    ghost var p, i := At(x, y, z), Pow(z.e, P - 2);
    AffineOf(p, a, i);
    var zInv := new FieldVal();
    zInv.Set(z);
    FieldPower.Inverse(zInv);
    var tempZ := new FieldVal();
    tempZ.SquareVal(zInv);
    x.Mul(tempZ);
    tempZ.Mul(zInv);
    y.Mul(tempZ);
    z.SetInt(1);
    x.Normalize();
    y.Normalize();
    var xBytes := x.PutBytes();
    var yBytes := y.PutBytes();
    return BigEndian(xBytes), BigEndian(yBytes);
  }

  /** The split multiplier acts on b like the multiplier itself. */
  lemma Collect(b: Affine, k: nat, r: nat, s1: int, s2: int, k1: seq<byte>, k2: seq<byte>, q0: int, q1: int)
    requires IsPrime(P) && GroupLaw() && Canonical(b) && CurveGroup.Times(N, b) == Infinity
    requires k == r + q0 * N && s1 * BigEndian(k1) + s2 * BigEndian(k2) * LAMBDA == r + q1 * N
    requires -1 <= s1 <= 1 && -1 <= s2 <= 1 && (s1 == 0 ==> k1 == []) && (s2 == 0 ==> k2 == [])
    ensures CurveGroup.Times(Total(SignOf(s1), SignOf(s2) * LAMBDA, BigEndian(k1), BigEndian(k2)), b)
            == CurveGroup.Times(k, b)
  {
    SignedValue(s1, BigEndian(k1));
    SignedValue(s2, BigEndian(k2));
    SignedLambda(SignOf(s2), BigEndian(k2));
    var total := Total(SignOf(s1), SignOf(s2) * LAMBDA, BigEndian(k1), BigEndian(k2));
    assert total == k + (q1 - q0) * N;
    hide *;
    TimesMod(total, k, N, q1 - q0, b);
  }

  lemma SignedValue(s: int, v: int)
    requires -1 <= s <= 1 && (s == 0 ==> v == 0)
    ensures SignOf(s) * v == s * v
  {
  }

  lemma SignedLambda(s: int, v: int)
    ensures s * v * LAMBDA == s * LAMBDA * v
  {
  }

  /** What the operands need to know of the base point and its image. */
  lemma OperandFacts(b: Affine, sign: int)
    requires IsPrime(P) && GroupLaw() && Canonical(b) && b.Point? && CurveGroup.Times(N, b) == Infinity
    requires CurveGroup.Times(LAMBDA, b) == Point(BETA * b.x % P, b.y)
    ensures 0 <= b.x < P && 0 <= b.y < P && !Congruent(b.y, 0)
    ensures Canonical(CurveGroup.Times(LAMBDA, b))
    ensures CurveGroup.Times(sign, CurveGroup.Times(LAMBDA, b)) == CurveGroup.Times(sign * LAMBDA, b)
    ensures Congruent(b.x * BETA, BETA * b.x % P) && Congruent(b.x, b.x) && Congruent(b.y, b.y)
  {
    assert b.x * BETA == BETA * b.x;
    hide *;
    OddOrder(b);
    TimesMul(sign, LAMBDA, b);
    TimesCanonical(LAMBDA, b);
    CanonicalRange(b);
    CurveGroup.Reduce(BETA * b.x);
    Same(b.x, b.x);
    Same(b.y, b.y);
  }

  method BigToField(x: nat) returns (f: FieldVal)
    requires x < Pow(256, 32)
    ensures fresh(f) && f.Valid() && f.e == x && f.Mag() <= 1 && (x < P ==> Normal(f.n))
  {
    hide *;
    f := new FieldVal();
    MinimalBytesLength(x, 32);
    MinimalBytesValue(x);
    PubKey.SetByteSlice(f, MinimalBytes(x));
  }

  lemma BetaRange()
    ensures 0 <= BETA < Pow(256, 32)
  {
    ThirtyTwoBytes();
  }

  /** phi of the base point: the abscissa times beta. */
  method ImagePoint(p1x: FieldVal, p1y: FieldVal) returns (p2x: FieldVal, p2y: FieldVal)
    requires p1x.Valid() && p1x.Mag() <= 1 && p1y.Valid() && p1y.Mag() <= 1
    ensures fresh(p2x) && fresh(p2y) && p2x != p2y
    ensures p2x.Valid() && p2x.Mag() <= 1 && p2x.e == p1x.e * BETA
    ensures p2y.Valid() && p2y.Mag() <= 1 && p2y.e == p1y.e
  {
    hide *;
    BetaRange();
    var beta := BigToField(BETA);
    p2x := new FieldVal();
    p2x.Mul2(p1x, beta);
    p2y := new FieldVal();
    p2y.Set(p1y);
  }

  /** P1 and P2 = phi(P1) with their negatives. */
  method BothOperands(baseX: int, baseY: int, signK1: int, signK2: int) returns (p1: Operand, p2: Operand)
    requires IsPrime(P) && GroupLaw() && Canonical(Point(baseX, baseY))
    requires CurveGroup.Times(N, Point(baseX, baseY)) == Infinity
    requires CurveGroup.Times(LAMBDA, Point(baseX, baseY)) == Point(BETA * baseX % P, baseY)
    requires -1 <= signK1 <= 1 && -1 <= signK2 <= 1
    ensures Ready(p1, CurveGroup.Times(SignOf(signK1), Point(baseX, baseY)))
    ensures Ready(p2, CurveGroup.Times(SignOf(signK2) * LAMBDA, Point(baseX, baseY)))
    ensures Unrelated(p1, p2)
    ensures fresh(p1.x) && fresh(p1.y) && fresh(p1.yNeg) && fresh(p1.z)
    ensures fresh(p2.x) && fresh(p2.y) && fresh(p2.yNeg) && fresh(p2.z)
  {
    hide IsPrime, GroupLaw, Canonical, CurveGroup.Times, Congruent, P, Denotes, Held, FieldVal.Valid, FieldVal.Mag;
    ghost var b := Point(baseX, baseY);
    OperandFacts(b, SignOf(signK2));
    var p1x, p1y := BigAffineToField(baseX, baseY);
    var p2x, p2y := ImagePoint(p1x, p1y);
    p1 := Prepare(p1x, p1y, signK1, b);
    p2 := Prepare(p2x, p2y, signK2, CurveGroup.Times(LAMBDA, b));
  }

  lemma CanonicalRange(b: Affine)
    requires Canonical(b) && b.Point?
    ensures 0 <= b.x < P && 0 <= b.y < P
  {
    hide Congruent, P;
  }

  method BigAffineToField(x: nat, y: nat) returns (x3: FieldVal, y3: FieldVal)
    requires x < P && y < P
    ensures fresh(x3) && fresh(y3) && x3 != y3
    ensures x3.Valid() && x3.e == x && x3.Mag() <= 1 && y3.Valid() && y3.e == y && y3.Mag() <= 1
    ensures Normal(x3.n) && Normal(y3.n)
  {
    ThirtyTwoBytes();
    assert x < Pow(256, 32) && y < Pow(256, 32);
    hide *;
    x3 := BigToField(x);
    y3 := BigToField(y);
  }

  /** ScalarMult returns k times the point, for every byte string k. */
  method ScalarMult(baseX: int, baseY: int, k: seq<byte>) returns (rx: nat, ry: nat)
    requires IsPrime(P) && GroupLaw() && Canonical(Point(baseX, baseY))
    requires CurveGroup.Times(N, Point(baseX, baseY)) == Infinity
    requires CurveGroup.Times(LAMBDA, Point(baseX, baseY)) == Point(BETA * baseX % P, baseY)
    ensures IsAffine(rx, ry, CurveGroup.Times(BigEndian(k), Point(baseX, baseY)))
  {
    hide *;
    ghost var b := Point(baseX, baseY);
    var reduced, q0 := ModuloReduce(k);
    var k1, k2, signK1, signK2, q1 := SplitK(reduced);
    var p1, p2 := BothOperands(baseX, baseY, signK1, signK2);
    ghost var w1, w2 := SignOf(signK1), SignOf(signK2) * LAMBDA;
    var k1PosNaf, k1NegNaf, d1 := NAF(k1);
    var k2PosNaf, k2NegNaf, d2 := NAF(k2);
    Collect(b, BigEndian(k), BigEndian(reduced), signK1, signK2, k1, k2, q0, q1);
    var qx, qy, qz := Origin(b, p1, p2);
    AccumulateAll(qx, qy, qz, p1, p2, k1PosNaf, k1NegNaf, k2PosNaf, k2NegNaf, d1, d2, b, w1, w2);
    TimesCanonical(BigEndian(k), b);
    HeldSmall(qx, qy, qz, p1);
    rx, ry := FieldJacobianToBigAffine(qx, qy, qz, CurveGroup.Times(BigEndian(k), b));
  }

  ghost function SignOf(sign: int): int {
    if sign == -1 then -1 else 1
  }

  lemma HeldSmall(x: FieldVal, y: FieldVal, z: FieldVal, p: Operand)
    requires Held(x, y, z) && Outside(x, y, z, p)
    ensures Small(x) && Small(y) && Small(z) && x != y && x != z && y != z
  {
    hide Congruent, P;
  }

  /** The point at infinity the accumulation starts from. */
  method NewAccumulator(ghost b: Affine) returns (qx: FieldVal, qy: FieldVal, qz: FieldVal)
    requires IsPrime(P)
    ensures fresh(qx) && fresh(qy) && fresh(qz) && qx != qy && qx != qz && qy != qz
    ensures Held(qx, qy, qz) && Denotes(At(qx, qy, qz), CurveGroup.Times(0, b))
  {
    hide IsPrime, CurveGroup.Times, Congruent, P, Ops.Is, Ops.Mag;
    qx := new FieldVal();
    qy := new FieldVal();
    qz := new FieldVal();
    TidyExact(qx);
    TidyExact(qy);
    TidyExact(qz);
    TimesZero(b);
    Same(0, 0);
  }

  method Origin(ghost b: Affine, ghost p1: Operand, ghost p2: Operand) returns (qx: FieldVal, qy: FieldVal, qz: FieldVal)
    requires IsPrime(P)
    ensures fresh(qx) && fresh(qy) && fresh(qz) && Outside(qx, qy, qz, p1) && Outside(qx, qy, qz, p2)
    ensures Held(qx, qy, qz) && Denotes(At(qx, qy, qz), CurveGroup.Times(0, b))
  {
    hide IsPrime, CurveGroup.Times, Congruent, P, Held, Denotes;
    qx, qy, qz := NewAccumulator(b);
  }

  // Addition and doubling of affine points.

  /** A pair of big integers as a point; (0, 0) is the point at infinity. */
  function Named(x: int, y: int): Affine {
    if x == 0 && y == 0 then Infinity else Point(x, y)
  }

  lemma NamedIs(x: int, y: int)
    requires Canonical(Named(x, y))
    ensures IsAffine(x, y, Named(x, y))
    ensures if x == 0 && y == 0 then Named(x, y) == Infinity else Named(x, y) == Point(x, y) && 0 <= x < P && 0 <= y < P
  {
    hide OnCurve, P;
  }

  /** A finite point with z coordinate one, ready for the routines. */
  method Unit(x: nat, y: nat) returns (fx: FieldVal, fy: FieldVal)
    requires Canonical(Point(x, y)) && x < P && y < P
    ensures fresh(fx) && fresh(fy) && fx != fy && Tidy(fx) && Tidy(fy) && fx.e == x && fy.e == y
    ensures Denotes(Jac(fx.e, fy.e, 1), Point(x, y))
  {
    hide Congruent, P, OnCurve, Normal, Ops.Is, Ops.Mag, Denotes;
    fx, fy := BigAffineToField(x, y);
    Same(x, x);
    Same(y, y);
    UnitDenotes(x, y, Point(x, y));
  }

  lemma HeldTidy(x: FieldVal, y: FieldVal, z: FieldVal)
    requires Tidy(x) && Tidy(y) && Tidy(z)
    ensures Held(x, y, z)
  {
    TidyExact(x);
    TidyExact(y);
    TidyExact(z);
    hide Congruent, P, Normal, Ops.Is, Ops.Mag;
  }

  lemma HeldParts(x: FieldVal, y: FieldVal, z: FieldVal)
    requires Held(x, y, z)
    ensures Small(x) && Small(y) && Small(z)
  {
  }

  /** The Jacobian sum of two finite points; both operands are given the same object for z. */
  method AddFields(fx1: FieldVal, fy1: FieldVal, fx2: FieldVal, fy2: FieldVal, ghost a: Affine, ghost b: Affine)
    returns (fx3: FieldVal, fy3: FieldVal, fz3: FieldVal)
    requires IsPrime(P) && Tidy(fx1) && Tidy(fy1) && Tidy(fx2) && Tidy(fy2)
    requires fx1 != fy1 && fx2 != fy2 && fx1 != fx2 && fx1 != fy2 && fy1 != fx2 && fy1 != fy2
    requires Denotes(Jac(fx1.e, fy1.e, 1), a) && Denotes(Jac(fx2.e, fy2.e, 1), b)
    modifies fx1, fy1, fx2, fy2
    ensures fresh(fx3) && fresh(fy3) && fresh(fz3) && fx3 != fy3 && fx3 != fz3 && fy3 != fz3
    ensures Small(fx3) && Small(fy3) && Small(fz3) && Denotes(At(fx3, fy3, fz3), Sum(a, b))
  {
    hide Sum, IsPrime, P, Congruent, Normal, Held, Tidy, Small, Denotes, AddJ, IsSum, Ops.Is, Ops.Mag;
    fx3 := new FieldVal();
    fy3 := new FieldVal();
    fz3 := new FieldVal();
    var fOne := new FieldVal();
    fOne.SetInt(1);
    OneTidy(fOne);
    HeldTidy(fx1, fy1, fOne);
    HeldTidy(fx2, fy2, fOne);
    AddStands(At(fx1, fy1, fOne), At(fx2, fy2, fOne), a, b);
    AddJacobian(fx1, fy1, fOne, fx2, fy2, fOne, fx3, fy3, fz3);
    HeldParts(fx3, fy3, fz3);
  }

  method DoubleFields(fx1: FieldVal, fy1: FieldVal, ghost a: Affine) returns (fx3: FieldVal, fy3: FieldVal, fz3: FieldVal)
    requires IsPrime(P) && Tidy(fx1) && Tidy(fy1) && fx1 != fy1 && Denotes(Jac(fx1.e, fy1.e, 1), a)
    ensures fresh(fx3) && fresh(fy3) && fresh(fz3) && fx3 != fy3 && fx3 != fz3 && fy3 != fz3
    ensures Small(fx3) && Small(fy3) && Small(fz3) && Denotes(At(fx3, fy3, fz3), Sum(a, a))
  {
    hide Sum, IsPrime, P, Congruent, Normal, Held, Tidy, Small, ZeroExact, Denotes, DoubleJ, Ops.Is, Ops.Mag;
    fx3 := new FieldVal();
    fy3 := new FieldVal();
    fz3 := new FieldVal();
    var fOne := new FieldVal();
    fOne.SetInt(1);
    OneTidy(fOne);
    HeldTidy(fx1, fy1, fOne);
    HeldForDouble(fx1, fy1, fOne);
    DoubleStands(At(fx1, fy1, fOne), a);
    DoubleJacobian(fx1, fy1, fOne, fx3, fy3, fz3);
    HeldTidy(fx3, fy3, fz3);
    HeldParts(fx3, fy3, fz3);
  }

  lemma OneTidy(f: FieldVal)
    requires f.Valid() && Normal(f.n) && f.Mag() <= 1
    ensures Tidy(f)
  {
  }

  lemma HeldForDouble(x: FieldVal, y: FieldVal, z: FieldVal)
    requires Held(x, y, z)
    ensures Small(x) && Small(y) && Small(z) && ZeroExact(y) && ZeroExact(z)
  {
  }

  /** Add: the group operation on affine coordinates. */
  method Add(x1: nat, y1: nat, x2: nat, y2: nat) returns (x3: nat, y3: nat)
    requires IsPrime(P) && Canonical(Named(x1, y1)) && Canonical(Named(x2, y2))
    ensures IsAffine(x3, y3, Sum(Named(x1, y1), Named(x2, y2)))
  {
    hide *;
    NamedIs(x1, y1);
    NamedIs(x2, y2);
    ghost var a, b := Named(x1, y1), Named(x2, y2);
    if x1 == 0 && y1 == 0 {
      Identity(b);
      return x2, y2;
    }
    if x2 == 0 && y2 == 0 {
      Identity(a);
      return x1, y1;
    }
    var fx1, fy1 := Unit(x1, y1);
    var fx2, fy2 := Unit(x2, y2);
    var fx3, fy3, fz3 := AddFields(fx1, fy1, fx2, fy2, a, b);
    SumCanonical(a, b);
    x3, y3 := FieldJacobianToBigAffine(fx3, fy3, fz3, Sum(a, b));
  }

  /** Double: a point added to itself.  A zero ordinate, also that of (0, 0), gives (0, 0). */
  method Double(x1: nat, y1: nat) returns (x3: nat, y3: nat)
    requires IsPrime(P) && Canonical(Named(x1, y1))
    ensures IsAffine(x3, y3, Sum(Named(x1, y1), Named(x1, y1)))
  {
    hide *;
    NamedIs(x1, y1);
    ghost var a := Named(x1, y1);
    if y1 == 0 {
      DoubleAtZero(x1);
      return 0, 0;
    }
    var fx1, fy1 := Unit(x1, y1);
    var fx3, fy3, fz3 := DoubleFields(fx1, fy1, a);
    SumCanonical(a, a);
    x3, y3 := FieldJacobianToBigAffine(fx3, fy3, fz3, Sum(a, a));
  }

  /** A point of order two, or the point at infinity, doubled. */
  lemma DoubleAtZero(x: int)
    requires IsPrime(P) && Canonical(Named(x, 0))
    ensures Sum(Named(x, 0), Named(x, 0)) == Infinity && IsAffine(0, 0, Infinity)
  {
    hide IsPrime, Sum, Congruent, P, Canonical;
    if x == 0 {
      Identity(Infinity);
    } else {
      Same(0, 0);
      SelfOpposite(Point(x, 0));
    }
  }
}
