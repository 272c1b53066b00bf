/** Base-2^26 multiplication and reduction for the secp256k1 field.

A field element is ten words; word i carries weight 2^(26*i).  Operand words may be up to
eight times larger than the base, so column sums are accumulated in 64 bits and carried
once, and the upper half is folded back using 2^256 = 4294968273 (mod P).

Masks and shifts by 26 and 22 bits are written as remainder and quotient.  Every
accumulator is a uint64 and every stored word a uint32, so the verifier checks that no
step wraps around. */
module FieldProduct {
  import Bytes

  const P: int := 0xFFFFFFFFFFFFFFFFFFFFFFFFFFFFFFFFFFFFFFFFFFFFFFFFFFFFFFFEFFFFFC2F

  /** 2^26, and 2^22 for the top word. */
  const BASE: int := 0x400_0000
  const TOP: int := 0x40_0000

  /** Weights of the words. */
  const B1: int := 0x4000000
  const B2: int := 0x10000000000000
  const B3: int := 0x40000000000000000000
  const B4: int := 0x100000000000000000000000000
  const B5: int := 0x400000000000000000000000000000000
  const B6: int := 0x1000000000000000000000000000000000000000
  const B7: int := 0x4000000000000000000000000000000000000000000000
  const B8: int := 0x10000000000000000000000000000000000000000000000000000
  const B9: int := 0x40000000000000000000000000000000000000000000000000000000000
  const B10: int := 0x100000000000000000000000000000000000000000000000000000000000000000
  const B11: int := 0x400000000000000000000000000000000000000000000000000000000000000000000000
  const B12: int := 0x1000000000000000000000000000000000000000000000000000000000000000000000000000000
  const B13: int := 0x4000000000000000000000000000000000000000000000000000000000000000000000000000000000000
  const B14: int := 0x10000000000000000000000000000000000000000000000000000000000000000000000000000000000000000000
  const B15: int := 0x40000000000000000000000000000000000000000000000000000000000000000000000000000000000000000000000000
  const B16: int := 0x100000000000000000000000000000000000000000000000000000000000000000000000000000000000000000000000000000000
  const B17: int := 0x400000000000000000000000000000000000000000000000000000000000000000000000000000000000000000000000000000000000000
  const B18: int := 0x1000000000000000000000000000000000000000000000000000000000000000000000000000000000000000000000000000000000000000000000
  const B19: int := 0x4000000000000000000000000000000000000000000000000000000000000000000000000000000000000000000000000000000000000000000000000000

  type uint32 = x: int | 0 <= x < 0x1_0000_0000
  type uint64 = x: int | 0 <= x < 0x1_0000_0000_0000_0000

  /** The ten words of a field value. */
  type Words = s: seq<uint32> | |s| == 10 witness [0, 0, 0, 0, 0, 0, 0, 0, 0, 0]

  /** Largest value of each word at magnitude one.  Word 2 of a product absorbs the last
  carry without being split again, so it may exceed 26 bits. */
  const WORD: int := 0x3FF_FFFF
  const WORD2: int := 0x404_000F
  const WORD9: int := 0x3F_FFFF

  /** A word of an operand that may be multiplied: at most 8 * WORD2. */
  type Limb = x: int | 0 <= x <= 0x2020_0078

  function Value(w: Words): int {
    w[0] + w[1] * B1 + w[2] * B2 + w[3] * B3 + w[4] * B4 + w[5] * B5 + w[6] * B6 + w[7] * B7 + w[8] * B8
    + w[9] * B9
  }

  /** The word bounds the source calls "magnitude k". */
  ghost predicate Magnitude(w: Words, k: nat) {
    && w[0] <= k * WORD && w[1] <= k * WORD && w[2] <= k * WORD2 && w[3] <= k * WORD && w[4] <= k * WORD
    && w[5] <= k * WORD && w[6] <= k * WORD && w[7] <= k * WORD && w[8] <= k * WORD && w[9] <= k * WORD9
  }

  /** a and b differ by q times the prime. */
  ghost predicate Differ(a: int, b: int, q: int) {
    a == b + P * q
  }

  /** Two integers denote the same field element. */
  ghost predicate Congruent(a: int, b: int) {
    exists q :: Differ(a, b, q)
  }

  lemma CongruentFromQuotient(a: int, b: int, q: int)
    requires a == b + P * q
    ensures Congruent(a, b)
  {
    assert Differ(a, b, q);
  }

  lemma CongruentMod(a: int, b: int)
    ensures Congruent(a, b) <==> (a - b) % P == 0
  {
    if Congruent(a, b) {
      var q :| Differ(a, b, q);
      assert a - b == P * q;
    } else {
      assert !Differ(a, b, (a - b) / P);
    }
  }

  lemma MulMonotone(x: int, y: int, z: int)
    requires 0 <= x && y <= z
    ensures x * y <= x * z
  {
  }

  lemma MulCap(x: int, y: int, cx: int, cy: int)
    requires 0 <= x <= cx && 0 <= y <= cy
    ensures 0 <= x * y <= cx * cy
  {
    MulMonotone(x, 0, y);
    MulMonotone(x, y, cy);
    MulMonotone(cy, x, cx);
  }

  /** One 64-bit product of two operand words. */
  function Mul64(x: Limb, y: Limb): (r: uint64)
    ensures r <= 0x408_041E_1E00_3840
  {
    MulCap(x, y, 0x2020_0078, 0x2020_0078);
    x * y
  }

  lemma Mul64Tight(x: Limb, y: Limb, cx: int, cy: int)
    requires x <= cx && y <= cy
    ensures Mul64(x, y) <= cx * cy
  {
    MulCap(x, y, cx, cy);
  }

  lemma Mul64Commutes(x: Limb, y: Limb)
    ensures Mul64(x, y) == Mul64(y, x)
  {
  }

  /** Columns 0 to 4 of the schoolbook product, weighted relative to column 0. */
  ghost function ColumnsA(a: seq<Limb>, b: seq<Limb>): int
    requires |a| == |b| == 10
  {
    (Mul64(a[0], b[0]))
    + (Mul64(a[0], b[1]) + Mul64(a[1], b[0])) * B1
    + (Mul64(a[0], b[2]) + Mul64(a[1], b[1]) + Mul64(a[2], b[0])) * B2
    + (Mul64(a[0], b[3]) + Mul64(a[1], b[2]) + Mul64(a[2], b[1]) + Mul64(a[3], b[0])) * B3
    + (Mul64(a[0], b[4]) + Mul64(a[1], b[3]) + Mul64(a[2], b[2]) + Mul64(a[3], b[1]) + Mul64(a[4], b[0])) * B4
  }

  /** Columns 5 to 9 of the schoolbook product, weighted relative to column 5. */
  ghost function ColumnsB(a: seq<Limb>, b: seq<Limb>): int
    requires |a| == |b| == 10
  {
    (Mul64(a[0], b[5]) + Mul64(a[1], b[4]) + Mul64(a[2], b[3]) + Mul64(a[3], b[2]) + Mul64(a[4], b[1])
       + Mul64(a[5], b[0]))
    + (Mul64(a[0], b[6]) + Mul64(a[1], b[5]) + Mul64(a[2], b[4]) + Mul64(a[3], b[3]) + Mul64(a[4], b[2])
       + Mul64(a[5], b[1]) + Mul64(a[6], b[0])) * B1
    + (Mul64(a[0], b[7]) + Mul64(a[1], b[6]) + Mul64(a[2], b[5]) + Mul64(a[3], b[4]) + Mul64(a[4], b[3])
       + Mul64(a[5], b[2]) + Mul64(a[6], b[1]) + Mul64(a[7], b[0])) * B2
    + (Mul64(a[0], b[8]) + Mul64(a[1], b[7]) + Mul64(a[2], b[6]) + Mul64(a[3], b[5]) + Mul64(a[4], b[4])
       + Mul64(a[5], b[3]) + Mul64(a[6], b[2]) + Mul64(a[7], b[1]) + Mul64(a[8], b[0])) * B3
    + (Mul64(a[0], b[9]) + Mul64(a[1], b[8]) + Mul64(a[2], b[7]) + Mul64(a[3], b[6]) + Mul64(a[4], b[5])
       + Mul64(a[5], b[4]) + Mul64(a[6], b[3]) + Mul64(a[7], b[2]) + Mul64(a[8], b[1]) + Mul64(a[9], b[0])) * B4
  }

  /** Columns 10 to 13 of the schoolbook product, weighted relative to column 10. */
  ghost function ColumnsC(a: seq<Limb>, b: seq<Limb>): int
    requires |a| == |b| == 10
  {
    (Mul64(a[1], b[9]) + Mul64(a[2], b[8]) + Mul64(a[3], b[7]) + Mul64(a[4], b[6]) + Mul64(a[5], b[5])
       + Mul64(a[6], b[4]) + Mul64(a[7], b[3]) + Mul64(a[8], b[2]) + Mul64(a[9], b[1]))
    + (Mul64(a[2], b[9]) + Mul64(a[3], b[8]) + Mul64(a[4], b[7]) + Mul64(a[5], b[6]) + Mul64(a[6], b[5])
       + Mul64(a[7], b[4]) + Mul64(a[8], b[3]) + Mul64(a[9], b[2])) * B1
    + (Mul64(a[3], b[9]) + Mul64(a[4], b[8]) + Mul64(a[5], b[7]) + Mul64(a[6], b[6]) + Mul64(a[7], b[5])
       + Mul64(a[8], b[4]) + Mul64(a[9], b[3])) * B2
    + (Mul64(a[4], b[9]) + Mul64(a[5], b[8]) + Mul64(a[6], b[7]) + Mul64(a[7], b[6]) + Mul64(a[8], b[5])
       + Mul64(a[9], b[4])) * B3
  }

  /** Columns 14 to 18 of the schoolbook product, weighted relative to column 14. */
  ghost function ColumnsD(a: seq<Limb>, b: seq<Limb>): int
    requires |a| == |b| == 10
  {
    (Mul64(a[5], b[9]) + Mul64(a[6], b[8]) + Mul64(a[7], b[7]) + Mul64(a[8], b[6]) + Mul64(a[9], b[5]))
    + (Mul64(a[6], b[9]) + Mul64(a[7], b[8]) + Mul64(a[8], b[7]) + Mul64(a[9], b[6])) * B1
    + (Mul64(a[7], b[9]) + Mul64(a[8], b[8]) + Mul64(a[9], b[7])) * B2
    + (Mul64(a[8], b[9]) + Mul64(a[9], b[8])) * B3
    + (Mul64(a[9], b[9])) * B4
  }

  /** All words of a carried intermediate value are below the base. */
  ghost predicate Carried(t: seq<uint64>) {
    forall i :: 0 <= i < |t| ==> t[i] < BASE
  }

  method CarryA(a: seq<Limb>, b: seq<Limb>)
    returns (t: seq<uint64>, m: uint64)
    requires |a| == |b| == 10
    ensures m <= 0x60_0000_0000
    ensures |t| == 5 && Carried(t)
    ensures t[0] + t[1] * B1 + t[2] * B2 + t[3] * B3 + t[4] * B4 + m * B5
         == ColumnsA(a, b)
  {
    hide Mul64;
    m := Mul64(a[0], b[0]);
    var t0 := m % BASE;
    m := m / BASE + Mul64(a[0], b[1]) + Mul64(a[1], b[0]);
    var t1 := m % BASE;
    m := m / BASE + Mul64(a[0], b[2]) + Mul64(a[1], b[1]) + Mul64(a[2], b[0]);
    var t2 := m % BASE;
    m := m / BASE + Mul64(a[0], b[3]) + Mul64(a[1], b[2]) + Mul64(a[2], b[1]) + Mul64(a[3], b[0]);
    var t3 := m % BASE;
    m := m / BASE + Mul64(a[0], b[4]) + Mul64(a[1], b[3]) + Mul64(a[2], b[2]) + Mul64(a[3], b[1]) + Mul64(a[4], b[0]);
    var t4 := m % BASE;
    t := [t0, t1, t2, t3, t4];
    m := m / BASE;
  }

  method CarryB(a: seq<Limb>, b: seq<Limb>, m0: uint64)
    returns (t: seq<uint64>, m: uint64)
    requires |a| == |b| == 10
    requires m0 <= 0x60_0000_0000
    ensures m <= 0xC0_0000_0000
    ensures |t| == 5 && Carried(t)
    ensures t[0] + t[1] * B1 + t[2] * B2 + t[3] * B3 + t[4] * B4 + m * B5
         == m0 + ColumnsB(a, b)
  {
    hide Mul64;
    m := m0 + Mul64(a[0], b[5]) + Mul64(a[1], b[4]) + Mul64(a[2], b[3]) + Mul64(a[3], b[2]) + Mul64(a[4], b[1])
         + Mul64(a[5], b[0]);
    var t5 := m % BASE;
    m := m / BASE + Mul64(a[0], b[6]) + Mul64(a[1], b[5]) + Mul64(a[2], b[4]) + Mul64(a[3], b[3]) + Mul64(a[4], b[2])
         + Mul64(a[5], b[1]) + Mul64(a[6], b[0]);
    var t6 := m % BASE;
    m := m / BASE + Mul64(a[0], b[7]) + Mul64(a[1], b[6]) + Mul64(a[2], b[5]) + Mul64(a[3], b[4]) + Mul64(a[4], b[3])
         + Mul64(a[5], b[2]) + Mul64(a[6], b[1]) + Mul64(a[7], b[0]);
    var t7 := m % BASE;
    m := m / BASE + Mul64(a[0], b[8]) + Mul64(a[1], b[7]) + Mul64(a[2], b[6]) + Mul64(a[3], b[5]) + Mul64(a[4], b[4])
         + Mul64(a[5], b[3]) + Mul64(a[6], b[2]) + Mul64(a[7], b[1]) + Mul64(a[8], b[0]);
    var t8 := m % BASE;
    m := m / BASE + Mul64(a[0], b[9]) + Mul64(a[1], b[8]) + Mul64(a[2], b[7]) + Mul64(a[3], b[6]) + Mul64(a[4], b[5])
         + Mul64(a[5], b[4]) + Mul64(a[6], b[3]) + Mul64(a[7], b[2]) + Mul64(a[8], b[1]) + Mul64(a[9], b[0]);
    var t9 := m % BASE;
    t := [t5, t6, t7, t8, t9];
    m := m / BASE;
  }

  method CarryC(a: seq<Limb>, b: seq<Limb>, m0: uint64)
    returns (t: seq<uint64>, m: uint64)
    requires |a| == |b| == 10
    requires m0 <= 0xC0_0000_0000
    ensures m <= 0xC0_0000_0000
    ensures |t| == 4 && Carried(t)
    ensures t[0] + t[1] * B1 + t[2] * B2 + t[3] * B3 + m * B4
         == m0 + ColumnsC(a, b)
  {
    hide Mul64;
    m := m0 + Mul64(a[1], b[9]) + Mul64(a[2], b[8]) + Mul64(a[3], b[7]) + Mul64(a[4], b[6]) + Mul64(a[5], b[5])
         + Mul64(a[6], b[4]) + Mul64(a[7], b[3]) + Mul64(a[8], b[2]) + Mul64(a[9], b[1]);
    var t10 := m % BASE;
    m := m / BASE + Mul64(a[2], b[9]) + Mul64(a[3], b[8]) + Mul64(a[4], b[7]) + Mul64(a[5], b[6]) + Mul64(a[6], b[5])
         + Mul64(a[7], b[4]) + Mul64(a[8], b[3]) + Mul64(a[9], b[2]);
    var t11 := m % BASE;
    m := m / BASE + Mul64(a[3], b[9]) + Mul64(a[4], b[8]) + Mul64(a[5], b[7]) + Mul64(a[6], b[6]) + Mul64(a[7], b[5])
         + Mul64(a[8], b[4]) + Mul64(a[9], b[3]);
    var t12 := m % BASE;
    m := m / BASE + Mul64(a[4], b[9]) + Mul64(a[5], b[8]) + Mul64(a[6], b[7]) + Mul64(a[7], b[6]) + Mul64(a[8], b[5])
         + Mul64(a[9], b[4]);
    var t13 := m % BASE;
    t := [t10, t11, t12, t13];
    m := m / BASE;
  }

  method CarryD(a: seq<Limb>, b: seq<Limb>, m0: uint64)
    returns (t: seq<uint64>, m: uint64)
    requires |a| == |b| == 10
    requires m0 <= 0xC0_0000_0000
    requires a[9] <= 8 * WORD9 && b[9] <= 8 * WORD9
    ensures m <= 0x100_0001
    ensures |t| == 5 && Carried(t)
    ensures t[0] + t[1] * B1 + t[2] * B2 + t[3] * B3 + t[4] * B4 + m * B5
         == m0 + ColumnsD(a, b)
  {
    hide Mul64;
    Mul64Tight(a[8], b[9], 0x2020_0078, 8 * WORD9);
    Mul64Tight(a[9], b[8], 8 * WORD9, 0x2020_0078);
    Mul64Tight(a[9], b[9], 8 * WORD9, 8 * WORD9);
    m := m0 + Mul64(a[5], b[9]) + Mul64(a[6], b[8]) + Mul64(a[7], b[7]) + Mul64(a[8], b[6]) + Mul64(a[9], b[5]);
    var t14 := m % BASE;
    m := m / BASE + Mul64(a[6], b[9]) + Mul64(a[7], b[8]) + Mul64(a[8], b[7]) + Mul64(a[9], b[6]);
    var t15 := m % BASE;
    m := m / BASE + Mul64(a[7], b[9]) + Mul64(a[8], b[8]) + Mul64(a[9], b[7]);
    var t16 := m % BASE;
    m := m / BASE + Mul64(a[8], b[9]) + Mul64(a[9], b[8]);
    var t17 := m % BASE;
    m := m / BASE + Mul64(a[9], b[9]);
    var t18 := m % BASE;
    t := [t14, t15, t16, t17, t18];
    m := m / BASE;
  }

  lemma MirroredProducts(a: seq<Limb>)
    requires |a| == 10
    ensures forall i, j :: 0 <= i < 10 && 0 <= j < 10 ==> Mul64(a[i], a[j]) == Mul64(a[j], a[i])
  {
    forall i, j | 0 <= i < 10 && 0 <= j < 10
      ensures Mul64(a[i], a[j]) == Mul64(a[j], a[i])
    {
      Mul64Commutes(a[i], a[j]);
    }
  }

  method SquareCarryA(a: seq<Limb>)
    returns (t: seq<uint64>, m: uint64)
    requires |a| == 10
    ensures m <= 0x60_0000_0000
    ensures |t| == 5 && Carried(t)
    ensures t[0] + t[1] * B1 + t[2] * B2 + t[3] * B3 + t[4] * B4 + m * B5
         == ColumnsA(a, a)
  {
    hide Mul64;
    MirroredProducts(a);
    m := Mul64(a[0], a[0]);
    var t0 := m % BASE;
    m := m / BASE + 2 * Mul64(a[0], a[1]);
    var t1 := m % BASE;
    m := m / BASE + 2 * Mul64(a[0], a[2]) + Mul64(a[1], a[1]);
    var t2 := m % BASE;
    m := m / BASE + 2 * Mul64(a[0], a[3]) + 2 * Mul64(a[1], a[2]);
    var t3 := m % BASE;
    m := m / BASE + 2 * Mul64(a[0], a[4]) + 2 * Mul64(a[1], a[3]) + Mul64(a[2], a[2]);
    var t4 := m % BASE;
    t := [t0, t1, t2, t3, t4];
    m := m / BASE;
  }

  method SquareCarryB(a: seq<Limb>, m0: uint64)
    returns (t: seq<uint64>, m: uint64)
    requires |a| == 10
    requires m0 <= 0x60_0000_0000
    ensures m <= 0xC0_0000_0000
    ensures |t| == 5 && Carried(t)
    ensures t[0] + t[1] * B1 + t[2] * B2 + t[3] * B3 + t[4] * B4 + m * B5
         == m0 + ColumnsB(a, a)
  {
    hide Mul64;
    MirroredProducts(a);
    m := m0 + 2 * Mul64(a[0], a[5]) + 2 * Mul64(a[1], a[4]) + 2 * Mul64(a[2], a[3]);
    var t5 := m % BASE;
    m := m / BASE + 2 * Mul64(a[0], a[6]) + 2 * Mul64(a[1], a[5]) + 2 * Mul64(a[2], a[4]) + Mul64(a[3], a[3]);
    var t6 := m % BASE;
    m := m / BASE + 2 * Mul64(a[0], a[7]) + 2 * Mul64(a[1], a[6]) + 2 * Mul64(a[2], a[5]) + 2 * Mul64(a[3], a[4]);
    var t7 := m % BASE;
    m := m / BASE + 2 * Mul64(a[0], a[8]) + 2 * Mul64(a[1], a[7]) + 2 * Mul64(a[2], a[6]) + 2 * Mul64(a[3], a[5])
         + Mul64(a[4], a[4]);
    var t8 := m % BASE;
    m := m / BASE + 2 * Mul64(a[0], a[9]) + 2 * Mul64(a[1], a[8]) + 2 * Mul64(a[2], a[7]) + 2 * Mul64(a[3], a[6])
         + 2 * Mul64(a[4], a[5]);
    var t9 := m % BASE;
    t := [t5, t6, t7, t8, t9];
    m := m / BASE;
  }

  method SquareCarryC(a: seq<Limb>, m0: uint64)
    returns (t: seq<uint64>, m: uint64)
    requires |a| == 10
    requires m0 <= 0xC0_0000_0000
    ensures m <= 0xC0_0000_0000
    ensures |t| == 4 && Carried(t)
    ensures t[0] + t[1] * B1 + t[2] * B2 + t[3] * B3 + m * B4
         == m0 + ColumnsC(a, a)
  {
    hide Mul64;
    MirroredProducts(a);
    m := m0 + 2 * Mul64(a[1], a[9]) + 2 * Mul64(a[2], a[8]) + 2 * Mul64(a[3], a[7]) + 2 * Mul64(a[4], a[6])
         + Mul64(a[5], a[5]);
    var t10 := m % BASE;
    m := m / BASE + 2 * Mul64(a[2], a[9]) + 2 * Mul64(a[3], a[8]) + 2 * Mul64(a[4], a[7]) + 2 * Mul64(a[5], a[6]);
    var t11 := m % BASE;
    m := m / BASE + 2 * Mul64(a[3], a[9]) + 2 * Mul64(a[4], a[8]) + 2 * Mul64(a[5], a[7]) + Mul64(a[6], a[6]);
    var t12 := m % BASE;
    m := m / BASE + 2 * Mul64(a[4], a[9]) + 2 * Mul64(a[5], a[8]) + 2 * Mul64(a[6], a[7]);
    var t13 := m % BASE;
    t := [t10, t11, t12, t13];
    m := m / BASE;
  }

  method SquareCarryD(a: seq<Limb>, m0: uint64)
    returns (t: seq<uint64>, m: uint64)
    requires |a| == 10
    requires m0 <= 0xC0_0000_0000
    requires a[9] <= 8 * WORD9
    ensures m <= 0x100_0001
    ensures |t| == 5 && Carried(t)
    ensures t[0] + t[1] * B1 + t[2] * B2 + t[3] * B3 + t[4] * B4 + m * B5
         == m0 + ColumnsD(a, a)
  {
    hide Mul64;
    Mul64Tight(a[8], a[9], 0x2020_0078, 8 * WORD9);
    Mul64Tight(a[9], a[9], 8 * WORD9, 8 * WORD9);
    MirroredProducts(a);
    m := m0 + 2 * Mul64(a[5], a[9]) + 2 * Mul64(a[6], a[8]) + Mul64(a[7], a[7]);
    var t14 := m % BASE;
    m := m / BASE + 2 * Mul64(a[6], a[9]) + 2 * Mul64(a[7], a[8]);
    var t15 := m % BASE;
    m := m / BASE + 2 * Mul64(a[7], a[9]) + Mul64(a[8], a[8]);
    var t16 := m % BASE;
    m := m / BASE + 2 * Mul64(a[8], a[9]);
    var t17 := m % BASE;
    m := m / BASE + Mul64(a[9], a[9]);
    var t18 := m % BASE;
    t := [t14, t15, t16, t17, t18];
    m := m / BASE;
  }

  lemma Distribute(x: int, w: Words)
    ensures x * Value(w)
         == (x * w[0]) + (x * w[1]) * B1 + (x * w[2]) * B2 + (x * w[3]) * B3 + (x * w[4]) * B4 + (x * w[5]) * B5
            + (x * w[6]) * B6 + (x * w[7]) * B7 + (x * w[8]) * B8 + (x * w[9]) * B9
  {
  }

  /** One operand word times the other operand. */
  ghost function Row(x: Limb, b: seq<Limb>): int
    requires |b| == 10
  {
    Mul64(x, b[0]) + Mul64(x, b[1]) * B1 + Mul64(x, b[2]) * B2 + Mul64(x, b[3]) * B3 + Mul64(x, b[4]) * B4
    + Mul64(x, b[5]) * B5 + Mul64(x, b[6]) * B6 + Mul64(x, b[7]) * B7 + Mul64(x, b[8]) * B8
    + Mul64(x, b[9]) * B9
  }

  ghost predicate Multipliable(w: Words) {
    forall i :: 0 <= i < 10 ==> w[i] <= 0x2020_0078
  }

  lemma RowIsProduct(x: Limb, b: Words)
    requires Multipliable(b)
    ensures Row(x, b) == x * Value(b)
  {
    Distribute(x, b);
  }

  /** The 100 word products, summed by row and by column. */
  lemma Regroup(a: seq<Limb>, b: seq<Limb>)
    requires |a| == |b| == 10
    ensures Row(a[0], b) + Row(a[1], b) * B1 + Row(a[2], b) * B2 + Row(a[3], b) * B3 + Row(a[4], b) * B4
            + Row(a[5], b) * B5 + Row(a[6], b) * B6 + Row(a[7], b) * B7 + Row(a[8], b) * B8 + Row(a[9], b) * B9
         == ColumnsA(a, b) + ColumnsB(a, b) * B5 + ColumnsC(a, b) * B10 + ColumnsD(a, b) * B14
  {
    hide Mul64;
  }

  lemma ColumnsAreProduct(a: Words, b: Words)
    requires Multipliable(a) && Multipliable(b)
    ensures Value(a) * Value(b)
         == ColumnsA(a, b) + ColumnsB(a, b) * B5 + ColumnsC(a, b) * B10 + ColumnsD(a, b) * B14
  {
    hide Row, Mul64, ColumnsA, ColumnsB, ColumnsC, ColumnsD;
    forall i | 0 <= i < 10
      ensures Row(a[i], b) == a[i] * Value(b)
    {
      RowIsProduct(a[i], b);
    }
    Distribute(Value(b), a);
    Regroup(a, b);
  }

  /** The twenty-word value before reduction. */
  ghost function Wide(t: seq<uint64>): int
    requires |t| == 20
  {
    t[0] + t[1] * B1 + t[2] * B2 + t[3] * B3 + t[4] * B4 + t[5] * B5 + t[6] * B6 + t[7] * B7 + t[8] * B8
    + t[9] * B9 + t[10] * B10 + t[11] * B11 + t[12] * B12 + t[13] * B13 + t[14] * B14 + t[15] * B15
    + t[16] * B16 + t[17] * B17 + t[18] * B18 + t[19] * B19
  }

  /** Words 10 to 19 as a number of their own. */
  ghost function Upper(t: seq<uint64>): int
    requires |t| == 20
  {
    t[10] + t[11] * B1 + t[12] * B2 + t[13] * B3 + t[14] * B4 + t[15] * B5 + t[16] * B6 + t[17] * B7
    + t[18] * B8 + t[19] * B9
  }

  ghost predicate Reducible(t: seq<uint64>) {
    |t| == 20 && (forall i :: 0 <= i < 19 ==> t[i] < BASE) && t[19] <= 0x100_0001
  }

  ghost function Lower(u: seq<uint64>, m: uint64): int
    requires |u| == 10
  {
    u[0] + u[1] * B1 + u[2] * B2 + u[3] * B3 + u[4] * B4 + u[5] * B5 + u[6] * B6 + u[7] * B7 + u[8] * B8
    + u[9] * B9 + m * (B9 * TOP)
  }

  /** First fold: 2^260 = 16 * 4294968273 (mod P) brings words 10 to 19 down.  Lower half. */
  method FoldHighA(t: seq<uint64>) returns (u: seq<uint64>, m: uint64)
    requires Reducible(t)
    ensures |u| == 5 && Carried(u) && m <= 0x8000
    ensures u[0] + u[1] * B1 + u[2] * B2 + u[3] * B3 + u[4] * B4 + m * B5
         == t[0] + t[1] * B1 + t[2] * B2 + t[3] * B3 + t[4] * B4 + 15632 * t[10]
          + (1024 * t[10] + 15632 * t[11]) * B1 + (1024 * t[11] + 15632 * t[12]) * B2
            + (1024 * t[12] + 15632 * t[13]) * B3 + (1024 * t[13] + 15632 * t[14]) * B4
  {
    m := t[0] + t[10] * 15632;
    var u0 := m % BASE;
    m := m / BASE + t[1] + t[10] * 1024 + t[11] * 15632;
    var u1 := m % BASE;
    m := m / BASE + t[2] + t[11] * 1024 + t[12] * 15632;
    var u2 := m % BASE;
    m := m / BASE + t[3] + t[12] * 1024 + t[13] * 15632;
    var u3 := m % BASE;
    m := m / BASE + t[4] + t[13] * 1024 + t[14] * 15632;
    var u4 := m % BASE;
    u := [u0, u1, u2, u3, u4];
    m := m / BASE;
  }

  /** First fold, upper half. */
  method FoldHighB(t: seq<uint64>, m0: uint64) returns (u: seq<uint64>, m: uint64)
    requires Reducible(t) && m0 <= 0x8000
    ensures |u| == 5 && Carried(u) && u[4] < TOP && m <= 0x40_0005_0000
    ensures u[0] + u[1] * B1 + u[2] * B2 + u[3] * B3 + u[4] * B4 + m * (B4 * TOP)
         == m0 + t[5] + t[6] * B1 + t[7] * B2 + t[8] * B3 + t[9] * B4
          + (1024 * t[14] + 15632 * t[15]) + (1024 * t[15] + 15632 * t[16]) * B1
            + (1024 * t[16] + 15632 * t[17]) * B2 + (1024 * t[17] + 15632 * t[18]) * B3
          + (1024 * t[18] + 68719492368 * t[19]) * B4
  {
    m := m0 + t[5] + t[14] * 1024 + t[15] * 15632;
    var u5 := m % BASE;
    m := m / BASE + t[6] + t[15] * 1024 + t[16] * 15632;
    var u6 := m % BASE;
    m := m / BASE + t[7] + t[16] * 1024 + t[17] * 15632;
    var u7 := m % BASE;
    m := m / BASE + t[8] + t[17] * 1024 + t[18] * 15632;
    var u8 := m % BASE;
    m := m / BASE + t[9] + t[18] * 1024 + t[19] * 68719492368;
    u := [u5, u6, u7, u8, m % TOP];
    m := m / TOP;
  }

  method FoldHigh(t: seq<uint64>) returns (u: seq<uint64>, m: uint64)
    requires Reducible(t)
    ensures |u| == 10 && Carried(u) && u[9] < TOP && m <= 0x40_0005_0000
    ensures Lower(u, m) == Wide(t) - P * (16 * Upper(t))
  {
    var lo, m0 := FoldHighA(t);
    var hi;
    hi, m := FoldHighB(t, m0);
    u := lo + hi;
    assert u[..5] == lo && u[5..] == hi;
  }

  /** Second fold: the bits above 2^256 are worth 4294968273 = 64 * 2^26 + 977 each. */
  method FoldTop(u: seq<uint64>, m: uint64) returns (r: Words)
    requires |u| == 10 && Carried(u) && u[9] < TOP && m <= 0x40_0005_0000
    ensures Magnitude(r, 1)
    ensures Value(r) == Lower(u, m) - P * m
    ensures r[2] > WORD <==> u[0] + u[1] * B1 + u[2] * B2 + m * 4294968273 >= B3
  {
    var d: uint64 := u[0] + m * 977;
    var d1: uint64 := d / BASE + u[1] + m * 64;
    r := [d % BASE, d1 % BASE, d1 / BASE + u[2], u[3], u[4], u[5], u[6], u[7], u[8], u[9]];
  }

  method Reduce(t: seq<uint64>) returns (r: Words, ghost quotient: int)
    requires Reducible(t)
    ensures Magnitude(r, 1)
    ensures Value(r) == Wide(t) - P * quotient
    ensures r[2] > WORD <==> Spills(Wide(t))
  {
    hide Lower, Wide, Upper, Value;
    var u, m := FoldHigh(t);
    r := FoldTop(u, m);
    quotient := 16 * Upper(t) + m;
    UpperIs(t);
    LowerDigits(u, m);
  }

  // When word 2 exceeds 26 bits.

  /** The first fold of the number x. */
  ghost function Folded(x: int): int {
    x - P * (16 * (x / B10))
  }

  /** The low three words after the first fold overflow when the second fold is added. */
  ghost predicate Spills(x: int) {
    var y := Folded(x); y % B3 + y / (B9 * TOP) * 4294968273 >= B3
  }

  lemma UpperIs(t: seq<uint64>)
    requires Reducible(t)
    ensures Upper(t) == Wide(t) / B10
  {
    var low := t[0] + t[1] * B1 + t[2] * B2 + t[3] * B3 + t[4] * B4 + t[5] * B5 + t[6] * B6 + t[7] * B7 + t[8] * B8
      + t[9] * B9;
    assert Wide(t) == B10 * Upper(t) + low && 0 <= low < B10;
    hide Wide, Upper;
    Bytes.QuotientUnique(Wide(t), B10, Upper(t), low);
  }

  lemma LowerDigits(u: seq<uint64>, m: uint64)
    requires |u| == 10 && Carried(u) && u[9] < TOP
    ensures Lower(u, m) / (B9 * TOP) == m && Lower(u, m) % B3 == u[0] + u[1] * B1 + u[2] * B2
  {
    var low, mid := u[0] + u[1] * B1 + u[2] * B2, u[3] + u[4] * B1 + u[5] * B2 + u[6] * B3 + u[7] * B4 + u[8] * B5 + u[9] * B6;
    assert 0 <= low < B3 && low + mid * B3 < B9 * TOP && Lower(u, m) == (B9 * TOP) * m + (low + mid * B3);
    assert Lower(u, m) == B3 * (mid + m * (B6 * TOP)) + low;
    hide Lower;
    Bytes.QuotientUnique(Lower(u, m), B9 * TOP, m, low + mid * B3);
    Bytes.QuotientUnique(Lower(u, m), B3, mid + m * (B6 * TOP), low);
  }

  lemma WideIsColumns(tA: seq<uint64>, tB: seq<uint64>, tC: seq<uint64>, tD: seq<uint64>, top: uint64)
    requires |tA| == 5 && |tB| == 5 && |tC| == 4 && |tD| == 5
    requires Carried(tA) && Carried(tB) && Carried(tC) && Carried(tD) && top <= 0x100_0001
    ensures Reducible(tA + tB + tC + tD + [top])
    ensures Wide(tA + tB + tC + tD + [top])
         == tA[0] + tA[1] * B1 + tA[2] * B2 + tA[3] * B3 + tA[4] * B4
          + (tB[0] + tB[1] * B1 + tB[2] * B2 + tB[3] * B3 + tB[4] * B4) * B5
          + (tC[0] + tC[1] * B1 + tC[2] * B2 + tC[3] * B3) * B10
          + (tD[0] + tD[1] * B1 + tD[2] * B2 + tD[3] * B3 + tD[4] * B4 + top * B5) * B14
  {
    var t := tA + tB + tC + tD + [top];
    assert t[..5] == tA && t[5..10] == tB && t[10..14] == tC && t[14..19] == tD;
  }

  /** The multiplication routine. */
  method Product(a: Words, b: Words) returns (r: Words)
    requires Magnitude(a, 8) && Magnitude(b, 8)
    ensures Magnitude(r, 1)
    ensures Congruent(Value(r), Value(a) * Value(b))
    ensures r[2] > WORD <==> Spills(Value(a) * Value(b))
  {
    hide Congruent, Spills, ColumnsA, ColumnsB, ColumnsC, ColumnsD;
    var tA, m := CarryA(a, b);
    var tB, m1 := CarryB(a, b, m);
    var tC, m2 := CarryC(a, b, m1);
    var tD, m3 := CarryD(a, b, m2);
    WideIsColumns(tA, tB, tC, tD, m3);
    ghost var quotient;
    r, quotient := Reduce(tA + tB + tC + tD + [m3]);
    ColumnsAreProduct(a, b);
    CongruentFromQuotient(Value(r), Value(a) * Value(b), -quotient);
  }

  /** The squaring routine, which doubles the mirrored products. */
  method Squared(a: Words) returns (r: Words)
    requires Magnitude(a, 8)
    ensures Magnitude(r, 1)
    ensures Congruent(Value(r), Value(a) * Value(a))
    ensures r[2] > WORD <==> Spills(Value(a) * Value(a))
  {
    hide Congruent, Spills, ColumnsA, ColumnsB, ColumnsC, ColumnsD;
    var tA, m := SquareCarryA(a);
    var tB, m1 := SquareCarryB(a, m);
    var tC, m2 := SquareCarryC(a, m1);
    var tD, m3 := SquareCarryD(a, m2);
    WideIsColumns(tA, tB, tC, tD, m3);
    ghost var quotient;
    r, quotient := Reduce(tA + tB + tC + tD + [m3]);
    ColumnsAreProduct(a, a);
    CongruentFromQuotient(Value(r), Value(a) * Value(a), -quotient);
  }

  /** Two elements below the prime whose product has more than 26 bits in word 2. */
  method WideProduct() returns (r: Words)
    ensures r[2] > WORD
  {
    var a: Words := [0, 0, 0, 0, 0, 0, 0, 0, 0, 0x20_0000];
    var b: Words := [0x359_59e0, 0x3b7_116e, 0x34c_4f8f, 1, 0, 0, 0, 0, 0x40_0000, 0];
    SpillingProduct();
    hide Spills, Congruent;
    assert Value(a) == 0x8000000000000000000000000000000000000000000000000000000000000000;
    assert Value(b) == 0x4000000000000000000000000000000000000074c4f8fedc45bb5959e0;
    r := Product(a, b);
  }

  /** Spilling by given quotients and remainders. */
  lemma SpillsBy(x: int, h: int, l: int, y: int, m: int, r: int, k: int, low: int)
    requires x == B10 * h + l && 0 <= l < B10 && y == x - P * (16 * h)
    requires y == (B9 * TOP) * m + r && 0 <= r < B9 * TOP && y == B3 * k + low && 0 <= low < B3
    ensures Spills(x) <==> low + m * 4294968273 >= B3
  {
    Bytes.QuotientUnique(x, B10, h, l);
    Bytes.QuotientUnique(y, B9 * TOP, m, r);
    Bytes.QuotientUnique(y, B3, k, low);
  }

  lemma SpillingProduct()
    ensures Spills(0x8000000000000000000000000000000000000000000000000000000000000000
                   * 0x4000000000000000000000000000000000000074c4f8fedc45bb5959e0)
  {
    hide Spills;
    SpillsBy(0x200000000000000000000000000000000000003a627c7f6e22ddacacf00000000000000000000000000000000000000000000000000000000000000000,
             0x200000000000000000000000000000000000003a627c7f6e22ddacacf, 0,
             0x2000007a2000000000000000000000000000003a627d5e3ffffffffffffffffff0,
             32, 0x7a2000000000000000000000000000003a627d5e3ffffffffffffffffff0,
             0x800001e8800000000000000000000000000000e989f578, 0x3ffffffffffffffffff0);
  }
}
