/** Fermat's little theorem for the field prime. */
module FieldFermat {
  import opened Bytes
  import opened NumberTheory
  import opened FieldProduct
  import opened Congruence

  lemma CongruentIsDivides(a: int, b: int)
    ensures Congruent(a, b) <==> Divides(P, a - b)
  {
    CongruentMod(a, b);
  }

  lemma {:induction false} CongruentPow(a: int, b: int, n: nat)
    requires Congruent(a, b)
    ensures Congruent(Pow(a, n), Pow(b, n))
  {
    hide Congruent, P;
    if n == 0 {
      CongruentFromQuotient(1, 1, 0);
    } else {
      CongruentPow(a, b, n - 1);
      CongruentMul(a, b, Pow(a, n - 1), Pow(b, n - 1));
    }
  }

  lemma FermatCongruent(r: nat)
    requires IsPrime(P)
    ensures Congruent(Pow(r, P), r)
  {
    hide Congruent, P, Pow, IsPrime, Divides;
    ModulusFacts();
    FermatNat(P, r);
    CongruentIsDivides(Pow(r, P), r);
  }

  /** The power P - 2 is the inverse, P being prime. */
  lemma InversePower(z: int)
    requires IsPrime(P) && !Congruent(z, 0)
    ensures Congruent(z * Pow(z, P - 2), 1) && Congruent(Pow(z, P - 2) * z, 1)
  {
    hide Congruent, P, Pow, IsPrime, Divides;
    ModulusFacts();
    var r := z % P;
    CongruentFromQuotient(z, r, z / P);
    CongruentIsDivides(r, 0);
    if Divides(P, r) {
      CongruentTransitive(z, r, 0);
      assert false;
    }
    FermatNat(P, r);
    PowUnfold(r, P);
    PowUnfold(z, P - 1);
    var u := Pow(r, P - 1);
    assert r * u - r == r * (u - 1);
    Euclid(P, r, u - 1);
    CongruentIsDivides(u, 1);
    CongruentPow(z, r, P - 1);
    CongruentTransitive(Pow(z, P - 1), u, 1);
  }

  lemma ZeroPower(z: int)
    requires Congruent(z, 0)
    ensures Congruent(Pow(z, P - 2), 0)
  {
    hide Congruent, P;
    ModulusFacts();
    CongruentFromQuotient(Pow(z, P - 3), Pow(z, P - 3), 0);
    assert Pow(z, P - 2) == z * Pow(z, P - 3);
    CongruentMul(z, 0, Pow(z, P - 3), Pow(z, P - 3));
  }
}

/** Inversion and square roots by fixed exponentiation. */
module FieldPower {
  import opened Bytes
  import opened NumberTheory
  import opened FieldProduct
  import opened Field
  import opened FieldFermat

  /** r := a * b where both are powers of x. */
  method MulPowers(r: FieldVal, a: FieldVal, b: FieldVal, ghost x: int, ghost i: nat, ghost j: nat)
    requires a.Valid() && b.Valid() && a.Mag() <= 8 && b.Mag() <= 8
    requires a.e == Pow(x, i) && b.e == Pow(x, j)
    modifies r
    ensures r.Valid() && r.Mag() <= 1 && r.e == Pow(x, i + j)
  {
    hide *;
    PowAdd(x, i, j);
    r.Mul2(a, b);
  }

  /** r := a^2 where a is a power of x. */
  method SquarePower(r: FieldVal, a: FieldVal, ghost x: int, ghost i: nat)
    requires a.Valid() && a.Mag() <= 8 && a.e == Pow(x, i)
    modifies r
    ensures r.Valid() && r.Mag() <= 1 && r.e == Pow(x, 2 * i)
  {
    hide *;
    PowAdd(x, i, i);
    r.SquareVal(a);
  }

  /** Five squarings in a row. */
  method SquareFive(r: FieldVal, ghost x: int, ghost i: nat)
    requires r.Valid() && r.Mag() <= 8 && r.e == Pow(x, i)
    modifies r
    ensures r.Valid() && r.Mag() <= 1 && r.e == Pow(x, 32 * i)
  {
    hide *;
    SquarePower(r, r, x, i);
    SquarePower(r, r, x, 2 * i);
    SquarePower(r, r, x, 4 * i);
    SquarePower(r, r, x, 8 * i);
    SquarePower(r, r, x, 16 * i);
  }

  /** One line group of the inversion ladder: ten squarings and a multiplication. */
  method Window(r: FieldVal, a: FieldVal, ghost x: int, ghost i: nat, ghost j: nat)
    requires r != a && r.Valid() && a.Valid() && r.Mag() <= 8 && a.Mag() <= 8
    requires r.e == Pow(x, i) && a.e == Pow(x, j)
    modifies r
    ensures r.Valid() && r.Mag() <= 1 && r.e == Pow(x, 1024 * i + j)
  {
    hide *;
    SquareFive(r, x, i);
    SquareFive(r, x, 32 * i);
    MulPowers(r, r, a, x, 1024 * i, j);
  }

  /** The powers 3, 4, 11 and 21. */
  method TinyPowers(f: FieldVal, ghost x: int)
    returns (a3: FieldVal, a4: FieldVal, a11: FieldVal, a21: FieldVal)
    requires f.Valid() && f.Mag() <= 8 && f.e == x
    ensures fresh(a3) && a3.Valid() && a3.Mag() <= 1 && a3.e == Pow(x, 3)
    ensures fresh(a4) && a4.Valid() && a4.Mag() <= 1 && a4.e == Pow(x, 4)
    ensures fresh(a11) && a11.Valid() && a11.Mag() <= 1 && a11.e == Pow(x, 11)
    ensures fresh(a21) && a21.Valid() && a21.Mag() <= 1 && a21.e == Pow(x, 21)
  {
    hide *;
    var a2;
    a2, a3, a4 := FirstPowers(f, x);
    PowOne(x);
    var a10 := new FieldVal();
    SquarePower(a10, a4, x, 4);
    MulPowers(a10, a10, a2, x, 8, 2);
    a11 := new FieldVal();
    MulPowers(a11, a10, f, x, 10, 1);
    a21 := new FieldVal();
    MulPowers(a21, a10, a11, x, 10, 11);
  }

  /** The powers 2, 3 and 4. */
  method FirstPowers(f: FieldVal, ghost x: int) returns (a2: FieldVal, a3: FieldVal, a4: FieldVal)
    requires f.Valid() && f.Mag() <= 8 && f.e == x
    ensures fresh(a2) && a2.Valid() && a2.Mag() <= 1 && a2.e == Pow(x, 2)
    ensures fresh(a3) && a3.Valid() && a3.Mag() <= 1 && a3.e == Pow(x, 3)
    ensures fresh(a4) && a4.Valid() && a4.Mag() <= 1 && a4.e == Pow(x, 4)
  {
    hide *;
    PowOne(x);
    a2 := new FieldVal();
    SquarePower(a2, f, x, 1);
    a3 := new FieldVal();
    MulPowers(a3, a2, f, x, 2, 1);
    a4 := new FieldVal();
    SquarePower(a4, a2, x, 2);
  }

  method Power1019(a63: FieldVal, a11: FieldVal, ghost x: int) returns (r: FieldVal)
    requires a63.Valid() && a63.Mag() <= 1 && a63.e == Pow(x, 63)
    requires a11.Valid() && a11.Mag() <= 1 && a11.e == Pow(x, 11)
    ensures fresh(r) && r.Valid() && r.Mag() <= 1 && r.e == Pow(x, 1019)
  {
    hide *;
    r := new FieldVal();
    SquarePower(r, a63, x, 63);
    SquarePower(r, r, x, 126);
    SquarePower(r, r, x, 252);
    SquarePower(r, r, x, 504);
    MulPowers(r, r, a11, x, 1008, 11);
  }

  /** The small powers the ladder reuses. */
  method SmallPowers(f: FieldVal, ghost x: int)
    returns (a45: FieldVal, a63: FieldVal, a1019: FieldVal, a1023: FieldVal)
    requires f.Valid() && f.Mag() <= 8 && f.e == x
    ensures fresh(a45) && a45.Valid() && a45.Mag() <= 1 && a45.e == Pow(x, 45)
    ensures fresh(a63) && a63.Valid() && a63.Mag() <= 1 && a63.e == Pow(x, 63)
    ensures fresh(a1019) && a1019.Valid() && a1019.Mag() <= 1 && a1019.e == Pow(x, 1019)
    ensures fresh(a1023) && a1023.Valid() && a1023.Mag() <= 1 && a1023.e == Pow(x, 1023)
  {
    hide *;
    var a3, a4, a11, a21 := TinyPowers(f, x);
    var a42 := new FieldVal();
    SquarePower(a42, a21, x, 21);
    a45 := new FieldVal();
    MulPowers(a45, a42, a3, x, 42, 3);
    a63 := new FieldVal();
    MulPowers(a63, a42, a21, x, 42, 21);
    a1019 := Power1019(a63, a11, x);
    a1023 := new FieldVal();
    MulPowers(a1023, a1019, a4, x, 1019, 4);
  }

  /** Seven windows of ten one-bits each. */
  method SeventyOnes(r: FieldVal, a1023: FieldVal, ghost x: int, ghost i: nat)
    requires r != a1023 && r.Valid() && a1023.Valid() && r.Mag() <= 8 && a1023.Mag() <= 8
    requires r.e == Pow(x, i) && a1023.e == Pow(x, 1023)
    modifies r
    ensures r.Valid() && r.Mag() <= 1 && r.e == Pow(x, 0x400000000000000000 * i + 0x3FFFFFFFFFFFFFFFFF)
  {
    hide *;
    Window(r, a1023, x, i, 1023);
    Window(r, a1023, x, 0x400 * i + 0x3FF, 1023);
    Window(r, a1023, x, 0x100000 * i + 0xFFFFF, 1023);
    Window(r, a1023, x, 0x40000000 * i + 0x3FFFFFFF, 1023);
    Window(r, a1023, x, 0x10000000000 * i + 0xFFFFFFFFFF, 1023);
    Window(r, a1023, x, 0x4000000000000 * i + 0x3FFFFFFFFFFFF, 1023);
    Window(r, a1023, x, 0x1000000000000000 * i + 0xFFFFFFFFFFFFFFF, 1023);
  }

  /** The addition chain raises its operand to P - 2, which gives the inverse, and zero for zero. */
  method Inverse(f: FieldVal)
    requires f.Valid() && f.Mag() <= 8
    modifies f
    ensures f.Valid() && f.Mag() <= 1
    ensures f.e == Pow(old(f.e), P - 2)
    ensures IsPrime(P) && !Congruent(old(f.e), 0) ==> Congruent(old(f.e) * f.e, 1)
    ensures Congruent(old(f.e), 0) ==> Congruent(f.e, 0)
  {
    hide Pow, FieldVal.Valid, FieldVal.Mag, Congruent, IsPrime;
    ghost var x := f.e;
    if Congruent(x, 0) {
      ZeroPower(x);
    } else if IsPrime(P) {
      InversePower(x);
    }
    var a45, a63, a1019, a1023 := SmallPowers(f, x);
    f.Set(a63);
    SeventyOnes(f, a1023, x, 0x3F);
    SeventyOnes(f, a1023, x, 0xFFFFFFFFFFFFFFFFFFF);
    SeventyOnes(f, a1023, x, 0x3FFFFFFFFFFFFFFFFFFFFFFFFFFFFFFFFFFFF);
    Window(f, a1019, x, 0xFFFFFFFFFFFFFFFFFFFFFFFFFFFFFFFFFFFFFFFFFFFFFFFFFFFFFF, 1019);
    Window(f, a1023, x, 0x3FFFFFFFFFFFFFFFFFFFFFFFFFFFFFFFFFFFFFFFFFFFFFFFFFFFFFFFB, 1023);
    Window(f, a1023, x, 0xFFFFFFFFFFFFFFFFFFFFFFFFFFFFFFFFFFFFFFFFFFFFFFFFFFFFFFFEFFF, 1023);
    Window(f, a45, x, 0x3FFFFFFFFFFFFFFFFFFFFFFFFFFFFFFFFFFFFFFFFFFFFFFFFFFFFFFFBFFFFF, 45);
  }

  /** (P + 1) / 4, most significant byte first. */
  const Q_BYTES: seq<byte> := [
    0x3f, 0xff, 0xff, 0xff, 0xff, 0xff, 0xff, 0xff, 0xff, 0xff, 0xff, 0xff, 0xff, 0xff, 0xff, 0xff,
    0xff, 0xff, 0xff, 0xff, 0xff, 0xff, 0xff, 0xff, 0xff, 0xff, 0xff, 0xff, 0xbf, 0xff, 0xff, 0x0c]

  /** One exponent bit: square, and multiply when the bit is set. */
  method SquareMul(f: FieldVal, x: FieldVal, ghost q: nat)
    requires f != x && f.Valid() && x.Valid() && f.Mag() <= 1 && x.Mag() <= 8 && f.e == Pow(x.e, q)
    modifies f
    ensures f.Valid() && f.Mag() <= 1 && f.e == Pow(x.e, 2 * q + 1)
  {
    hide *;
    PowOne(x.e);
    SquarePower(f, f, x.e, q);
    MulPowers(f, f, x, x.e, 2 * q, 1);
  }

  method SquareMulTwo(f: FieldVal, x: FieldVal, ghost q: nat)
    requires f != x && f.Valid() && x.Valid() && f.Mag() <= 1 && x.Mag() <= 8 && f.e == Pow(x.e, q)
    modifies f
    ensures f.Valid() && f.Mag() <= 1 && f.e == Pow(x.e, 4 * q + 3)
  {
    hide *;
    SquareMul(f, x, q);
    SquareMul(f, x, 2 * q + 1);
  }

  /** One byte of the exponent, by the four cases of the jump table. */
  method ExponentByte(f: FieldVal, x: FieldVal, b: byte, ghost q: nat)
    requires b == 0xff || (b == 0x3f && q == 0) || b == 0xbf || b == 0x0c
    requires f != x && f.Valid() && x.Valid() && f.Mag() <= 1 && x.Mag() <= 8 && f.e == Pow(x.e, q)
    modifies f
    ensures f.Valid() && f.Mag() <= 1 && f.e == Pow(x.e, 256 * q + b)
  {
    hide *;
    if b == 0xff {
      SquareMulTwo(f, x, q);
      SquareMulTwo(f, x, 4 * q + 3);
      SquareMulTwo(f, x, 16 * q + 15);
      SquareMulTwo(f, x, 64 * q + 63);
    } else if b == 0x3f {
      PowOne(x.e);
      MulPowers(f, f, x, x.e, 0, 1);
      SquareMul(f, x, 1);
      SquareMulTwo(f, x, 3);
      SquareMulTwo(f, x, 15);
    } else if b == 0xbf {
      SquareMul(f, x, q);
      SquarePower(f, f, x.e, 2 * q + 1);
      SquareMulTwo(f, x, 4 * q + 2);
      SquareMulTwo(f, x, 16 * q + 11);
      SquareMulTwo(f, x, 64 * q + 47);
    } else {
      SquarePower(f, f, x.e, q);
      SquarePower(f, f, x.e, 2 * q);
      SquarePower(f, f, x.e, 4 * q);
      SquarePower(f, f, x.e, 8 * q);
      SquareMulTwo(f, x, 16 * q);
      SquarePower(f, f, x.e, 64 * q + 3);
      SquarePower(f, f, x.e, 128 * q + 6);
    }
  }

  /** Byte-wise square and multiply raises x to (P + 1) / 4.  The operand must be a different
  object: the receiver is overwritten first. */
  method SqrtVal(f: FieldVal, x: FieldVal)
    requires f != x && x.Valid() && x.Mag() <= 8
    modifies f
    ensures f.Valid() && f.Mag() <= 1
    ensures f.e == Pow(x.e, (P + 1) / 4)
  {
    hide FieldVal.Valid, FieldVal.Mag, Pow, BigEndian;
    PowZero(x.e);
    f.SetInt(1);
    EmptyBigEndian();
    for i := 0 to 32
      invariant f.Valid() && f.Mag() <= 1 && x.Valid()
      invariant f.e == Pow(x.e, BigEndian(Q_BYTES[..i]))
    {
      PrefixStep(i);
      ExponentByte(f, x, Q_BYTES[i], BigEndian(Q_BYTES[..i]));
    }
    assert Q_BYTES[..32] == Q_BYTES;
    ExponentValue();
  }

  lemma PowZero(x: int)
    ensures Pow(x, 0) == 1
  {
  }

  lemma EmptyBigEndian()
    ensures BigEndian(Q_BYTES[..0]) == 0
  {
  }

  lemma PrefixStep(i: nat)
    requires i < 32
    ensures BigEndian(Q_BYTES[..i + 1]) == 256 * BigEndian(Q_BYTES[..i]) + Q_BYTES[i]
    ensures Q_BYTES[i] == 0xff || (Q_BYTES[i] == 0x3f && i == 0) || Q_BYTES[i] == 0xbf || Q_BYTES[i] == 0x0c
  {
    assert Q_BYTES[..i + 1][..i] == Q_BYTES[..i];
  }

  lemma PrefixOnes(i: nat)
    requires 1 <= i < 28
    ensures BigEndian(Q_BYTES[..i + 1]) + 1 == 256 * (BigEndian(Q_BYTES[..i]) + 1)
  {
    hide BigEndian;
    PrefixStep(i);
  }

  lemma NineOnes(i: nat)
    requires 1 <= i <= 19
    ensures BigEndian(Q_BYTES[..i + 9]) + 1 == 0x1000000000000000000 * (BigEndian(Q_BYTES[..i]) + 1)
  {
    hide BigEndian, Q_BYTES;
    PrefixOnes(i);
    PrefixOnes(i + 1);
    PrefixOnes(i + 2);
    PrefixOnes(i + 3);
    PrefixOnes(i + 4);
    PrefixOnes(i + 5);
    PrefixOnes(i + 6);
    PrefixOnes(i + 7);
    PrefixOnes(i + 8);
  }

  lemma ExponentValue()
    ensures BigEndian(Q_BYTES) == (P + 1) / 4
  {
    hide BigEndian;
    EmptyBigEndian();
    PrefixStep(0);
    NineOnes(1);
    NineOnes(10);
    NineOnes(19);
    PrefixStep(28);
    PrefixStep(29);
    PrefixStep(30);
    PrefixStep(31);
    assert Q_BYTES[..32] == Q_BYTES;
  }

  lemma PowOne(x: int)
    ensures Pow(x, 1) == x
  {
    assert Pow(x, 0) == 1;
  }
}
