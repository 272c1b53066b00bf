/** Arithmetic of congruences modulo the field prime. */
module Congruence {
  import opened FieldProduct

  ghost function Quotient(a: int, b: int): (q: int)
    requires Congruent(a, b)
    ensures a == b + P * q
  {
    (a - b) / P
  }

  lemma ModulusFacts()
    ensures P > 7 && P % 4 == 3 && P % 2 == 1
  {
  }

  lemma CongruentSymmetric(a: int, b: int)
    requires Congruent(a, b)
    ensures Congruent(b, a)
  {
    CongruentFromQuotient(b, a, -Quotient(a, b));
  }

  lemma CongruentTransitive(a: int, b: int, c: int)
    requires Congruent(a, b) && Congruent(b, c)
    ensures Congruent(a, c)
  {
    CongruentFromQuotient(a, c, Quotient(a, b) + Quotient(b, c));
  }

  lemma CongruentAdd(a: int, b: int, c: int, d: int)
    requires Congruent(a, b) && Congruent(c, d)
    ensures Congruent(a + c, b + d)
    ensures Congruent(a - c, b - d)
  {
    CongruentFromQuotient(a + c, b + d, Quotient(a, b) + Quotient(c, d));
    CongruentFromQuotient(a - c, b - d, Quotient(a, b) - Quotient(c, d));
  }

  lemma CongruentMul(a: int, b: int, c: int, d: int)
    requires Congruent(a, b) && Congruent(c, d)
    ensures Congruent(a * c, b * d)
  {
    var q, r := Quotient(a, b), Quotient(c, d);
    ProductQuotient(b, d, q, r);
    CongruentFromQuotient(a * c, b * d, b * r + q * d + P * (q * r));
  }

  lemma ProductQuotient(b: int, d: int, q: int, r: int)
    ensures (b + P * q) * (d + P * r) == b * d + P * (b * r + q * d + P * (q * r))
  {
  }
}

/** Field elements held in words: each operation on values, with the exact integer its result
stands for and the growth of its magnitude.

The ghost arguments are integers the operands are congruent to; the result is congruent to
the same expression of them.  The preconditions on Mag are what keeps words from wrapping. */
module FieldOps {
  import opened FieldProduct
  import opened FieldNormal
  import opened Congruence

  ghost function CeilDiv(x: int, c: int): int
    requires c > 0
  {
    (x + c - 1) / c
  }

  ghost function Max(x: int, y: int): int {
    if x < y then y else x
  }

  /** The least magnitude of the words. */
  ghost function Mag(w: Words): (k: nat)
    ensures Magnitude(w, k)
  {
    var a := Max(Max(CeilDiv(w[0], WORD), CeilDiv(w[1], WORD)), Max(CeilDiv(w[2], WORD2), CeilDiv(w[3], WORD)));
    var b := Max(Max(CeilDiv(w[4], WORD), CeilDiv(w[5], WORD)), Max(CeilDiv(w[6], WORD), CeilDiv(w[7], WORD)));
    Max(Max(a, b), Max(CeilDiv(w[8], WORD), CeilDiv(w[9], WORD9)))
  }

  lemma CeilDivBound(x: int, c: int, k: int)
    requires c > 0
    ensures x <= k * c <==> CeilDiv(x, c) <= k
  {
    var q := CeilDiv(x, c);
    var r := (x + c - 1) % c;
    assert x + c - 1 == c * q + r;
    if q > k {
      assert c * q >= c * (k + 1) == c * k + c;
    } else {
      assert c * q <= c * k;
    }
  }

  lemma MagIsLeast(w: Words, k: nat)
    ensures Magnitude(w, k) <==> Mag(w) <= k
  {
    CeilDivBound(w[0], WORD, k);
    CeilDivBound(w[1], WORD, k);
    CeilDivBound(w[2], WORD2, k);
    CeilDivBound(w[3], WORD, k);
    CeilDivBound(w[4], WORD, k);
    CeilDivBound(w[5], WORD, k);
    CeilDivBound(w[6], WORD, k);
    CeilDivBound(w[7], WORD, k);
    CeilDivBound(w[8], WORD, k);
    CeilDivBound(w[9], WORD9, k);
  }

  /** The words denote the residue of x. */
  ghost predicate Is(w: Words, x: int) {
    Congruent(Value(w), x)
  }

  /** (m + 1) * P - v, word by word. */
  function NegatedWords(v: Words, m: nat): (r: Words)
    requires Magnitude(v, m) && m < 63
    ensures Magnitude(r, m + 1)
    ensures Value(r) == P * (m + 1) - Value(v)
  {
    var k := m + 1;
    [k * 0x3FF_FC2F - v[0], k * 0x3FF_FFBF - v[1], k * WORD - v[2], k * WORD - v[3], k * WORD - v[4],
     k * WORD - v[5], k * WORD - v[6], k * WORD - v[7], k * WORD - v[8], k * WORD9 - v[9]]
  }

  method Negate(a: Words, m: uint32, ghost x: int) returns (r: Words)
    requires Is(a, x) && Mag(a) <= m < 63
    ensures Is(r, -x) && Mag(r) <= m + 1
  {
    hide Congruent, Value, Magnitude, Mag, NegatedWords;
    MagIsLeast(a, m);
    r := NegatedWords(a, m);
    MagIsLeast(r, m + 1);
    CongruentFromQuotient(Value(r), 0 - Value(a), m + 1);
    CongruentFromQuotient(0, 0, 0);
    CongruentAdd(0, 0, Value(a), x);
    CongruentTransitive(Value(r), 0 - Value(a), 0 - x);
  }

  /** Word by word, without carries. */
  function SummedWords(v: Words, w: Words): (r: Words)
    requires forall i :: 0 <= i < 10 ==> v[i] as int + w[i] as int < 0x1_0000_0000
  {
    [v[0] + w[0], v[1] + w[1], v[2] + w[2], v[3] + w[3], v[4] + w[4],
     v[5] + w[5], v[6] + w[6], v[7] + w[7], v[8] + w[8], v[9] + w[9]]
  }

  lemma SumFits(v: Words, w: Words, j: nat, k: nat)
    requires Magnitude(v, j) && Magnitude(w, k) && j + k <= 63
    ensures forall i :: 0 <= i < 10 ==> v[i] as int + w[i] as int < 0x1_0000_0000
  {
  }

  lemma SumMagnitude(v: Words, w: Words, j: nat, k: nat)
    requires forall i :: 0 <= i < 10 ==> v[i] as int + w[i] as int < 0x1_0000_0000
    requires Magnitude(v, j) && Magnitude(w, k)
    ensures Magnitude(SummedWords(v, w), j + k)
  {
    hide Value;
  }

  lemma SumValue(v: Words, w: Words)
    requires forall i :: 0 <= i < 10 ==> v[i] as int + w[i] as int < 0x1_0000_0000
    ensures Value(SummedWords(v, w)) == Value(v) + Value(w)
  {
    var r := SummedWords(v, w);
    assert r[0] == v[0] + w[0] && r[1] == v[1] + w[1] && r[2] == v[2] + w[2] && r[3] == v[3] + w[3] && r[4] == v[4] + w[4];
    assert r[5] == v[5] + w[5] && r[6] == v[6] + w[6] && r[7] == v[7] + w[7] && r[8] == v[8] + w[8] && r[9] == v[9] + w[9];
    hide SummedWords;
  }

  method Add(a: Words, b: Words, ghost x: int, ghost y: int) returns (r: Words)
    requires Is(a, x) && Is(b, y) && Mag(a) + Mag(b) <= 63
    ensures Is(r, x + y) && Mag(r) <= Mag(a) + Mag(b)
  {
    hide Congruent, Value, Magnitude, Mag, SummedWords;
    SumFits(a, b, Mag(a), Mag(b));
    SumMagnitude(a, b, Mag(a), Mag(b));
    SumValue(a, b);
    r := SummedWords(a, b);
    MagIsLeast(r, Mag(a) + Mag(b));
    CongruentAdd(Value(a), x, Value(b), y);
  }

  lemma BumpedWords(a: Words, ui: uint32, k: nat)
    requires Magnitude(a, k) && k < 63 && ui <= WORD
    ensures a[0] + ui < 0x1_0000_0000 && Magnitude(a[0 := a[0] + ui], k + 1) && Value(a[0 := a[0] + ui]) == Value(a) + ui
  {
  }

  /** The lowest word with an integer added, modulo 2^32. */
  lemma BumpedExactly(a: Words, ui: uint32, x: int)
    requires Is(a, x)
    ensures Is(a[0 := (a[0] as int + ui as int) % 0x1_0000_0000], x + ui) <==> a[0] as int + ui as int < 0x1_0000_0000
  {
    hide Congruent;
    var sum: int := a[0] as int + ui as int;
    var wrap: int := if sum < 0x1_0000_0000 then 0 else 0x1_0000_0000;
    var r := a[0 := sum % 0x1_0000_0000];
    BumpedValue(a, ui, wrap);
    CongruentFromQuotient(ui, ui, 0);
    CongruentAdd(Value(a), x, ui, ui);
    if wrap != 0 && Is(r, x + ui) {
      CongruentSymmetric(Value(r), x + ui);
      CongruentTransitive(Value(a) + ui, x + ui, Value(r));
      WrapVisible(Value(r));
      assert false;
    }
  }

  lemma BumpedValue(a: Words, ui: uint32, wrap: int)
    requires wrap == if a[0] as int + ui as int < 0x1_0000_0000 then 0 else 0x1_0000_0000
    ensures var r := a[0 := (a[0] as int + ui as int) % 0x1_0000_0000]; Value(r) == Value(a) + ui - wrap
  {
  }

  /** 2^32 is not zero in the field. */
  lemma WrapVisible(v: int)
    ensures !Congruent(v + 0x1_0000_0000, v)
  {
    CongruentMod(v + 0x1_0000_0000, v);
  }

  lemma ScaleCap(x: int, c: int, k: int, ui: int)
    requires 0 <= x <= k * c && 0 <= ui && 0 <= k && 0 <= c
    ensures 0 <= x * ui <= (k * ui) * c
  {
    MulCap(x, ui, k * c, ui);
    assert (k * c) * ui == (k * ui) * c;
  }

  lemma ScaleCaps(w: Words, k: nat, ui: nat)
    requires Magnitude(w, k) && k * ui <= 63
    ensures forall i :: 0 <= i < 9 && i != 2 ==> 0 <= w[i] * ui <= (k * ui) * WORD
    ensures 0 <= w[2] * ui <= (k * ui) * WORD2 && 0 <= w[9] * ui <= (k * ui) * WORD9
  {
    forall i | 0 <= i < 9 && i != 2
      ensures 0 <= w[i] * ui <= (k * ui) * WORD
    {
      ScaleCap(w[i], WORD, k, ui);
    }
    ScaleCap(w[2], WORD2, k, ui);
    ScaleCap(w[9], WORD9, k, ui);
  }

  function ScaledWords(w: Words, ghost k: nat, ui: uint32): (r: Words)
    requires Magnitude(w, k) && k * ui <= 63
    ensures 0 <= k * ui && Magnitude(r, k * ui)
    ensures Value(r) == Value(w) * ui
  {
    ScaleCaps(w, k, ui);
    Distribute(ui, w);
    [w[0] * ui, w[1] * ui, w[2] * ui, w[3] * ui, w[4] * ui,
     w[5] * ui, w[6] * ui, w[7] * ui, w[8] * ui, w[9] * ui]
  }

  method MulInt(a: Words, ui: uint32, ghost x: int) returns (r: Words)
    requires Is(a, x) && Mag(a) * ui <= 63
    ensures Is(r, x * ui) && Mag(r) <= Mag(a) * ui
  {
    hide Congruent, Value, Magnitude, Mag, ScaledWords;
    r := ScaledWords(a, Mag(a), ui);
    MagIsLeast(r, Mag(a) * ui);
    CongruentFromQuotient(ui, ui, 0);
    CongruentMul(Value(a), x, ui, ui);
  }

  method Mul(a: Words, b: Words, ghost x: int, ghost y: int) returns (r: Words)
    requires Is(a, x) && Is(b, y) && Mag(a) <= 8 && Mag(b) <= 8
    ensures Is(r, x * y) && Mag(r) <= 1
  {
    hide Congruent, Value, Magnitude, Mag;
    MagIsLeast(a, 8);
    MagIsLeast(b, 8);
    r := Product(a, b);
    MagIsLeast(r, 1);
    CongruentMul(Value(a), x, Value(b), y);
    CongruentTransitive(Value(r), Value(a) * Value(b), x * y);
  }

  method Square(a: Words, ghost x: int) returns (r: Words)
    requires Is(a, x) && Mag(a) <= 8
    ensures Is(r, x * x) && Mag(r) <= 1
  {
    hide Congruent, Value, Magnitude, Mag;
    MagIsLeast(a, 8);
    r := Squared(a);
    MagIsLeast(r, 1);
    CongruentMul(Value(a), x, Value(a), x);
    CongruentTransitive(Value(r), Value(a) * Value(a), x * x);
  }

  method Normalize(a: Words, ghost x: int) returns (r: Words)
    requires Is(a, x) && Mag(a) <= 63
    ensures Is(r, x) && Mag(r) <= 1 && Normal(r)
  {
    hide Congruent, Value, Mag;
    MagIsLeast(a, 63);
    r := Normalized(a);
    MagIsLeast(r, 1);
    CongruentTransitive(Value(r), Value(a), x);
  }

  lemma NormalIsResidue(w: Words, e: int)
    requires Normal(w) && Congruent(Value(w), e)
    ensures Value(w) == e % P
    ensures w[0] % 2 == Value(w) % 2
  {
    ResidueIs(Value(w), e);
    WordParity(w);
  }

  lemma ResidueIs(a: int, e: int)
    requires 0 <= a < P && Congruent(a, e)
    ensures a == e % P
  {
  }

  lemma WordParity(w: Words)
    ensures w[0] % 2 == Value(w) % 2
  {
    var half: int := w[1] as int * (B1 / 2) + w[2] as int * (B2 / 2) + w[3] as int * (B3 / 2) + w[4] as int * (B4 / 2)
      + w[5] as int * (B5 / 2) + w[6] as int * (B6 / 2) + w[7] as int * (B7 / 2) + w[8] as int * (B8 / 2)
      + w[9] as int * (B9 / 2);
    assert Value(w) == w[0] + 2 * half;
  }

  lemma WordsZero(w: Words, e: int)
    requires Congruent(Value(w), e)
    ensures w == [0, 0, 0, 0, 0, 0, 0, 0, 0, 0] ==> Congruent(e, 0)
    ensures Normal(w) ==> (w == [0, 0, 0, 0, 0, 0, 0, 0, 0, 0] <==> Congruent(e, 0))
  {
    var z: Words := [0, 0, 0, 0, 0, 0, 0, 0, 0, 0];
    CongruentSymmetric(Value(w), e);
    if Normal(w) {
      NormalUnique(w, z);
      CongruentFromQuotient(0, 0, 0);
      CongruentIff(Value(w), e, 0, 0);
    }
  }

  lemma CongruentIff(a: int, b: int, c: int, d: int)
    requires Congruent(a, b) && Congruent(c, d)
    ensures Congruent(a, c) <==> Congruent(b, d)
  {
    CongruentSymmetric(a, b);
    CongruentSymmetric(c, d);
    if Congruent(a, c) {
      CongruentTransitive(b, a, c);
      CongruentTransitive(b, c, d);
    }
    if Congruent(b, d) {
      CongruentTransitive(a, b, d);
      CongruentTransitive(a, d, c);
    }
  }
}

/** The field value of field.go: ten words changed in place.

The ghost `e` is an integer the words are congruent to; every operation moves it exactly as
the arithmetic it stands for. */
module Field {
  import opened Bytes
  import opened FieldProduct
  import opened FieldNormal
  import opened FieldBytes
  import Ops = FieldOps

  class FieldVal {
    var n: Words
    ghost var e: int

    ghost predicate Valid()
      reads this
    {
      Ops.Is(n, e)
    }

    /** The magnitude of the words. */
    ghost function Mag(): nat
      reads this
    {
      Ops.Mag(n)
    }

    constructor ()
      ensures Valid() && e == 0 && Mag() <= 1 && Normal(n)
    {
      n, e := [0, 0, 0, 0, 0, 0, 0, 0, 0, 0], 0;
      new;
      CongruentFromQuotient(0, 0, 0);
      Ops.MagIsLeast(n, 1);
    }

    method Set(val: FieldVal)
      requires val.Valid()
      modifies this
      ensures Valid() && n == old(val.n) && e == old(val.e) && Mag() == old(val.Mag())
    {
      n, e := val.n, val.e;
    }

    /** Stores the result of a chain of operations. */
    method Assign(w: Words, ghost x: int)
      requires Ops.Is(w, x)
      modifies this
      ensures Valid() && n == w && e == x && Mag() == Ops.Mag(w)
    {
      n, e := w, x;
    }

    /** The low 32 bits of the integer go to the lowest word. */
    method SetInt(ui: uint64)
      modifies this
      ensures Valid() && e == ui % 0x1_0000_0000
      ensures ui <= WORD ==> Normal(n) && Mag() <= 1 && e == ui
    {
      hide Congruent;
      var low: uint32 := ui % 0x1_0000_0000;
      n, e := [low, 0, 0, 0, 0, 0, 0, 0, 0, 0], low;
      CongruentFromQuotient(low, low, 0);
      if ui <= WORD {
        Ops.MagIsLeast(n, 1);
      }
    }

    method Normalize()
      requires Valid() && Mag() <= 63
      modifies this
      ensures Valid() && Normal(n) && e == old(e) && Mag() <= 1
    {
      var r := Ops.Normalize(n, e);
      n := r;
    }

    method NegateVal(val: FieldVal, magnitude: uint32)
      requires val.Valid() && val.Mag() <= magnitude < 63
      modifies this
      ensures Valid() && e == -old(val.e) && Mag() <= magnitude + 1
    {
      var r := Ops.Negate(val.n, magnitude, val.e);
      e := -val.e;
      n := r;
    }

    method Negate(magnitude: uint32)
      requires Valid() && Mag() <= magnitude < 63
      modifies this
      ensures Valid() && e == -old(e) && Mag() <= magnitude + 1
    {
      NegateVal(this, magnitude);
    }

    /** Adds the low 32 bits to the lowest word.  The words denote the sum exactly if that word does not wrap. */
    method AddInt(ui: uint64)
      requires Valid()
      modifies this
      ensures e == old(e) + ui % 0x1_0000_0000
      ensures n == old(n)[0 := (old(n)[0] as int + ui % 0x1_0000_0000) % 0x1_0000_0000]
      ensures Valid() <==> old(n)[0] as int + ui % 0x1_0000_0000 < 0x1_0000_0000
      ensures ui <= WORD && old(Mag()) < 63 ==> Valid() && Mag() <= old(Mag()) + 1
    {
      hide Ops.Is, Ops.Mag, Congruent;
      ghost var was, k, x := n, Mag(), e;
      var low: uint32 := ui % 0x1_0000_0000;
      e := e + low;
      n := n[0 := (n[0] as int + low as int) % 0x1_0000_0000];
      Ops.BumpedExactly(was, low, x);
      if ui <= WORD && k < 63 {
        Ops.BumpedWords(was, low, k);
        Ops.MagIsLeast(n, k + 1);
      }
    }

    method Add2(val: FieldVal, val2: FieldVal)
      requires val.Valid() && val2.Valid() && val.Mag() + val2.Mag() <= 63
      modifies this
      ensures Valid() && e == old(val.e) + old(val2.e) && Mag() <= old(val.Mag()) + old(val2.Mag())
    {
      hide Ops.Is, Ops.Mag;
      var r := Ops.Add(val.n, val2.n, val.e, val2.e);
      e := val.e + val2.e;
      n := r;
    }

    method Add(val: FieldVal)
      requires Valid() && val.Valid() && Mag() + val.Mag() <= 63
      modifies this
      ensures Valid() && e == old(e) + old(val.e) && Mag() <= old(Mag()) + old(val.Mag())
    {
      Add2(this, val);
    }

    method MulInt(ui: uint32)
      requires Valid() && Mag() * ui <= 63
      modifies this
      ensures Valid() && e == old(e) * ui && Mag() <= old(Mag()) * ui
    {
      var r := Ops.MulInt(n, ui, e);
      e := e * ui;
      n := r;
    }

    method Mul2(val: FieldVal, val2: FieldVal)
      requires val.Valid() && val2.Valid() && val.Mag() <= 8 && val2.Mag() <= 8
      modifies this
      ensures Valid() && e == old(val.e) * old(val2.e) && Mag() <= 1
    {
      var r := Ops.Mul(val.n, val2.n, val.e, val2.e);
      e := val.e * val2.e;
      n := r;
    }

    method Mul(val: FieldVal)
      requires Valid() && val.Valid() && Mag() <= 8 && val.Mag() <= 8
      modifies this
      ensures Valid() && e == old(e) * old(val.e) && Mag() <= 1
    {
      Mul2(this, val);
    }

    method SquareVal(val: FieldVal)
      requires val.Valid() && val.Mag() <= 8
      modifies this
      ensures Valid() && e == old(val.e) * old(val.e) && Mag() <= 1
    {
      var r := Ops.Square(val.n, val.e);
      e := val.e * val.e;
      n := r;
    }

    method Square()
      requires Valid() && Mag() <= 8
      modifies this
      ensures Valid() && e == old(e) * old(e) && Mag() <= 1
    {
      SquareVal(this);
    }

    /** Word test; on a normalised value it decides whether the element is zero. */
    method IsZero() returns (zero: bool)
      requires Valid()
      ensures zero <==> n == [0, 0, 0, 0, 0, 0, 0, 0, 0, 0]
      ensures zero ==> Congruent(e, 0)
      ensures Normal(n) ==> (zero <==> Congruent(e, 0))
    {
      zero := n == [0, 0, 0, 0, 0, 0, 0, 0, 0, 0];
      Ops.WordsZero(n, e);
    }

    method IsOdd() returns (odd: bool)
      requires Valid() && Normal(n)
      ensures odd <==> (e % P) % 2 == 1
    {
      odd := n[0] % 2 == 1;
      Ops.NormalIsResidue(n, e);
    }

    /** Word comparison of normalised values decides congruence. */
    method Equals(val: FieldVal) returns (same: bool)
      requires Valid() && val.Valid() && Normal(n) && Normal(val.n)
      ensures same <==> Congruent(e, val.e)
    {
      same := n == val.n;
      NormalUnique(n, val.n);
      Ops.CongruentIff(Value(n), e, Value(val.n), val.e);
    }

    method SetBytes(b: seq<byte>)
      requires |b| == 32
      modifies this
      ensures Valid() && e == BigEndian(b) && Mag() <= 1
      ensures BigEndian(b) < P ==> Normal(n)
    {
      hide Congruent, BigEndian;
      WordsOfValue(b);
      n, e := WordsOf(b), BigEndian(b);
      CongruentFromQuotient(e, e, 0);
      Ops.MagIsLeast(n, 1);
    }

    method PutBytes() returns (b: seq<byte>)
      requires Valid() && Normal(n)
      ensures |b| == 32 && BigEndian(b) == e % P
    {
      b := BytesOf(n);
      BytesOfResidue(n);
      Ops.NormalIsResidue(n, e);
    }
  }
}
