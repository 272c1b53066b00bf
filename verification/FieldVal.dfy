/** Normalisation, byte packing and the mutable field value of field.go. */
module FieldNormal {
  import opened FieldProduct

  /** The unique representative: every word within its base and the value below P. */
  ghost predicate Normal(w: Words) {
    && (forall i :: 0 <= i < 9 ==> w[i] < BASE)
    && w[9] < TOP
    && Value(w) < P
  }

  /** Adds m * 4294968273 in the two low words and carries through to the top word, which
  keeps what arrives. */
  method Ripple(w: Words, m: uint32) returns (t: Words)
    requires Magnitude(w, 63) && m <= 63
    ensures forall i :: 0 <= i < 9 ==> t[i] < BASE
    ensures w[9] <= t[9] <= w[9] + 63
    ensures Value(t) == Value(w) + m * 4294968273
  {
    var t0: uint32 := w[0] + m * 977;
    var t1: uint32 := t0 / BASE + w[1] + m * 64;
    var t2: uint32 := t1 / BASE + w[2];
    var t3: uint32 := t2 / BASE + w[3];
    var t4: uint32 := t3 / BASE + w[4];
    var t5: uint32 := t4 / BASE + w[5];
    var t6: uint32 := t5 / BASE + w[6];
    var t7: uint32 := t6 / BASE + w[7];
    var t8: uint32 := t7 / BASE + w[8];
    var t9: uint32 := t8 / BASE + w[9];
    t := [t0 % BASE, t1 % BASE, t2 % BASE, t3 % BASE, t4 % BASE,
          t5 % BASE, t6 % BASE, t7 % BASE, t8 % BASE, t9];
  }

  /** The test that decides the final subtraction.  The conjunction of seven 26-bit words
  equals the mask exactly when each of them does. */
  function AtLeastPrime(t: Words): bool {
    || (t[9] == WORD9
        && t[2] == WORD && t[3] == WORD && t[4] == WORD && t[5] == WORD && t[6] == WORD && t[7] == WORD
        && t[8] == WORD
        && (t[0] + 977) / BASE + t[1] + 64 > WORD)
    || t[9] / TOP != 0
  }

  lemma AtLeastPrimeExact(t: Words)
    requires forall i :: 0 <= i < 9 ==> t[i] < BASE
    requires t[9] < TOP + 64
    ensures AtLeastPrime(t) <==> Value(t) >= P
  {
  }

  /** The normalisation routine: fold the bits above 2^256 down and carry once, then
  subtract P at most once by adding 4294968273 and dropping bit 256. */
  method Normalized(w: Words) returns (r: Words)
    requires Magnitude(w, 63)
    ensures Normal(r)
    ensures Congruent(Value(r), Value(w))
  {
    var m: uint32 := w[9] / TOP;
    var t := Ripple(w[9 := w[9] % TOP], m);
    AtLeastPrimeExact(t);
    var last: uint32 := if AtLeastPrime(t) then 1 else 0;
    var u := Ripple(t, last);
    r := u[9 := u[9] % TOP];
    DropBit256(t, u, last);
    CongruentFromQuotient(Value(r), Value(w), -(m + last));
  }

  lemma DropBit256(t: Words, u: Words, last: int)
    requires forall i :: 0 <= i < 9 ==> u[i] < BASE
    requires Value(t) < P + P && last == (if Value(t) >= P then 1 else 0)
    requires Value(u) == Value(t) + last * 4294968273
    ensures Normal(u[9 := u[9] % TOP])
    ensures Value(u[9 := u[9] % TOP]) == Value(t) - P * last
  {
    var low := LowPart(u);
    LowBound(u);
    TopDrop(low, u[9], last);
    LowBound(u[9 := u[9] % TOP]);
  }

  /** The value without the top word. */
  function LowPart(w: Words): int {
    w[0] + w[1] * B1 + w[2] * B2 + w[3] * B3 + w[4] * B4 + w[5] * B5 + w[6] * B6 + w[7] * B7 + w[8] * B8
  }

  lemma LowBound(w: Words)
    requires forall i :: 0 <= i < 9 ==> w[i] < BASE
    ensures 0 <= LowPart(w) < B9 && Value(w) == LowPart(w) + w[9] * B9
  {
  }

  /** With bit 256 set or clear, the top word loses it. */
  lemma TopDrop(low: int, top: int, last: int)
    requires 0 <= low < B9 && 0 <= top && (last == 0 || last == 1)
    requires last * (P + 4294968273) <= low + top * B9 < (1 + last) * (P + 4294968273)
    ensures top % TOP == top - last * TOP
  {
    assert P + 4294968273 == TOP * B9;
    assert last * TOP <= top < (1 + last) * TOP;
  }

  lemma DigitUnique(x: int, y: int, q: int, r: int)
    requires 0 <= x < BASE && 0 <= y < BASE && x + BASE * q == y + BASE * r
    ensures x == y && q == r
  {
  }

  lemma ResidueUnique(a: int, b: int)
    requires 0 <= a < P && 0 <= b < P
    ensures a == b <==> Congruent(a, b)
  {
    CongruentMod(a, b);
  }

  lemma DigitsUnique(v: Words, w: Words)
    requires forall i :: 0 <= i < 9 ==> v[i] < BASE && w[i] < BASE
    requires Value(v) == Value(w)
    ensures v == w
  {
    var q8, r8 := v[8] + BASE * v[9], w[8] + BASE * w[9];
    var q7, r7 := v[7] + BASE * q8, w[7] + BASE * r8;
    var q6, r6 := v[6] + BASE * q7, w[6] + BASE * r7;
    var q5, r5 := v[5] + BASE * q6, w[5] + BASE * r6;
    var q4, r4 := v[4] + BASE * q5, w[4] + BASE * r5;
    var q3, r3 := v[3] + BASE * q4, w[3] + BASE * r4;
    var q2, r2 := v[2] + BASE * q3, w[2] + BASE * r3;
    var q1, r1 := v[1] + BASE * q2, w[1] + BASE * r2;
    DigitUnique(v[0], w[0], q1, r1);
    DigitUnique(v[1], w[1], q2, r2);
    DigitUnique(v[2], w[2], q3, r3);
    DigitUnique(v[3], w[3], q4, r4);
    DigitUnique(v[4], w[4], q5, r5);
    DigitUnique(v[5], w[5], q6, r6);
    DigitUnique(v[6], w[6], q7, r7);
    DigitUnique(v[7], w[7], q8, r8);
    DigitUnique(v[8], w[8], v[9], w[9]);
  }

  /** A residue has only one normal form, so comparing words compares residues. */
  lemma NormalUnique(v: Words, w: Words)
    requires Normal(v) && Normal(w)
    ensures v == w <==> Congruent(Value(v), Value(w))
  {
    ResidueUnique(Value(v), Value(w));
    if Congruent(Value(v), Value(w)) {
      DigitsUnique(v, w);
    }
  }
}

/** Packing words into big-endian bytes and back.  Four 26-bit words are exactly thirteen
bytes, so the thirty-two bytes fall into groups of 6, 13 and 13. */
module FieldBytes {
  import opened Bytes
  import opened FieldProduct
  import opened FieldNormal

  /** Joins disjoint bit fields, least significant first. */
  function Join(a: int, b: int, s: int, c: int, t: int, d: int, u: int): int {
    a + b * s + c * t + d * u
  }

  /** Four words from thirteen bytes. */
  function PackFour(b: seq<byte>): (w: seq<uint32>)
    requires |b| == 13
    ensures |w| == 4 && forall i :: 0 <= i < 4 ==> w[i] < BASE
  {
    [Join(b[12], b[11], 0x100, b[10], 0x1_0000, b[9] % 4, 0x100_0000),
     Join(b[9] / 4, b[8], 0x40, b[7], 0x4000, b[6] % 16, 0x40_0000),
     Join(b[6] / 16, b[5], 0x10, b[4], 0x1000, b[3] % 64, 0x10_0000),
     Join(b[3] / 64, b[2], 4, b[1], 0x400, b[0], 0x4_0000)]
  }

  /** Two words from the six leading bytes. */
  function PackTwo(b: seq<byte>): (w: seq<uint32>)
    requires |b| == 6
    ensures |w| == 2 && w[0] < BASE && w[1] < TOP
  {
    [Join(b[5], b[4], 0x100, b[3], 0x1_0000, b[2] % 4, 0x100_0000),
     Join(b[2] / 4, b[1], 0x40, b[0], 0x4000, 0, 0x40_0000)]
  }

  /** Thirteen bytes from four words. */
  function UnpackFour(w: seq<uint32>): (b: seq<byte>)
    requires |w| == 4 && forall i :: 0 <= i < 4 ==> w[i] < BASE
    ensures |b| == 13
  {
    [(w[3] / 0x4_0000) % 0x100, (w[3] / 0x400) % 0x100, (w[3] / 4) % 0x100,
     (w[2] / 0x10_0000) % 64 + (w[3] % 4) * 64, (w[2] / 0x1000) % 0x100, (w[2] / 0x10) % 0x100,
     (w[1] / 0x40_0000) % 16 + (w[2] % 16) * 16, (w[1] / 0x4000) % 0x100, (w[1] / 0x40) % 0x100,
     (w[0] / 0x100_0000) % 4 + (w[1] % 64) * 4, (w[0] / 0x1_0000) % 0x100, (w[0] / 0x100) % 0x100,
     w[0] % 0x100]
  }

  /** Six bytes from the two top words. */
  function UnpackTwo(w: seq<uint32>): (b: seq<byte>)
    requires |w| == 2 && w[0] < BASE && w[1] < TOP
    ensures |b| == 6
  {
    [(w[1] / 0x4000) % 0x100, (w[1] / 0x40) % 0x100, (w[0] / 0x100_0000) % 4 + (w[1] % 64) * 4,
     (w[0] / 0x1_0000) % 0x100, (w[0] / 0x100) % 0x100, w[0] % 0x100]
  }

  /** Three digits above the low bits, m being the weight of the first. */
  lemma SplitDigits(w: nat, m: nat)
    requires m > 0
    ensures w == w % m + w / m % 0x100 * m + w / (m * 0x100) % 0x100 * (m * 0x100) + w / (m * 0x1_0000) * (m * 0x1_0000)
  {
    hide *;
    DivTwice(w, m, 0x100);
    DivTwice(w, m, 0x1_0000);
    var q := w / m;
    DivTwice(q, 0x100, 0x100);
    var p := q / 0x100;
    var o := p / 0x100;
    assert w == m * q + w % m && q == 0x100 * p + q % 0x100 && p == 0x100 * o + p % 0x100;
    SplitWeights(m, q % 0x100, p % 0x100, o);
  }

  lemma SplitWeights(m: int, b: int, c: int, d: int)
    ensures m * (0x100 * (0x100 * d + c) + b) == b * m + c * (m * 0x100) + d * (m * 0x1_0000)
  {
  }

  lemma Split8(w: int)
    requires 0 <= w < BASE
    ensures w == Join(w % 0x100, (w / 0x100) % 0x100, 0x100, (w / 0x1_0000) % 0x100, 0x1_0000, (w / 0x100_0000) % 4, 0x100_0000)
  {
    SplitDigits(w, 0x100);
    assert w / 0x100_0000 < 4;
  }

  lemma Split6(w: int)
    requires 0 <= w < BASE
    ensures w == Join(w % 0x40, (w / 0x40) % 0x100, 0x40, (w / 0x4000) % 0x100, 0x4000, (w / 0x40_0000) % 16, 0x40_0000)
  {
    SplitDigits(w, 0x40);
    assert w / 0x40_0000 < 16;
  }

  lemma Split4(w: int)
    requires 0 <= w < BASE
    ensures w == Join(w % 0x10, (w / 0x10) % 0x100, 0x10, (w / 0x1000) % 0x100, 0x1000, (w / 0x10_0000) % 64, 0x10_0000)
  {
    SplitDigits(w, 0x10);
    assert w / 0x10_0000 < 64;
  }

  lemma Split2(w: int)
    requires 0 <= w < BASE
    ensures w == Join(w % 4, (w / 4) % 0x100, 4, (w / 0x400) % 0x100, 0x400, (w / 0x4_0000) % 0x100, 0x4_0000)
  {
    SplitDigits(w, 4);
    assert w / 0x4_0000 < 0x100;
  }

  lemma SplitByte(lo: int, hi: int, m: int)
    requires m == 4 || m == 16 || m == 64
    requires 0 <= lo < m
    ensures (lo + hi * m) % m == lo && (lo + hi * m) / m == hi
  {
  }

  lemma UnpackFourInverts(w: seq<uint32>)
    requires |w| == 4 && forall i :: 0 <= i < 4 ==> w[i] < BASE
    ensures PackFour(UnpackFour(w)) == w
  {
    hide Join;
    Split8(w[0]);
    Split6(w[1]);
    Split4(w[2]);
    Split2(w[3]);
    SplitByte((w[0] / 0x100_0000) % 4, w[1] % 64, 4);
    SplitByte((w[1] / 0x40_0000) % 16, w[2] % 16, 16);
    SplitByte((w[2] / 0x10_0000) % 64, w[3] % 4, 64);
  }

  lemma UnpackTwoInverts(w: seq<uint32>)
    requires |w| == 2 && w[0] < BASE && w[1] < TOP
    ensures PackTwo(UnpackTwo(w)) == w
  {
    hide Join;
    assert w[1] / 0x40_0000 == 0;
    Split8(w[0]);
    Split6(w[1]);
    SplitByte((w[0] / 0x100_0000) % 4, w[1] % 64, 4);
  }

  lemma BigEndianLast(s: seq<byte>, x: byte)
    ensures BigEndian(s + [x]) == BigEndian(s) * 256 + x
  {
    assert (s + [x])[..|s|] == s;
  }

  lemma BigEndianThree(s: seq<byte>, x: byte, y: byte, z: byte)
    ensures BigEndian(s + [x, y, z]) == BigEndian(s) * 0x100_0000 + x * 0x1_0000 + y * 0x100 + z
  {
    BigEndianLast(s, x);
    BigEndianLast(s + [x], y);
    BigEndianLast(s + [x] + [y], z);
    assert s + [x] + [y] + [z] == s + [x, y, z];
  }

  lemma PackTwoValue(b: seq<byte>)
    requires |b| == 6
    ensures BigEndian(b) == PackTwo(b)[0] + PackTwo(b)[1] * B1
  {
    BigEndianThree([], b[0], b[1], b[2]);
    BigEndianThree([] + [b[0], b[1], b[2]], b[3], b[4], b[5]);
    assert [] + [b[0], b[1], b[2]] + [b[3], b[4], b[5]] == b;
  }

  /** The number of three bytes. */
  function Three(x: byte, y: byte, z: byte): int {
    x as int * 0x1_0000 + y as int * 0x100 + z as int
  }

  /** The words are the bytes, each split between two words where they meet. */
  lemma PackFourDigits(b: seq<byte>)
    requires |b| == 13
    ensures var w := PackFour(b);
            w[0] + w[1] * B1 + w[2] * B2 + w[3] * B3
            == ((((b[0] as int * 0x100_0000 + Three(b[1], b[2], b[3])) * 0x100_0000 + Three(b[4], b[5], b[6])) * 0x100_0000
                 + Three(b[7], b[8], b[9])) * 0x100_0000) + Three(b[10], b[11], b[12])
  {
    assert b[9] as int == b[9] as int / 4 * 4 + b[9] as int % 4;
    assert b[6] as int == b[6] as int / 16 * 16 + b[6] as int % 16;
    assert b[3] as int == b[3] as int / 64 * 64 + b[3] as int % 64;
  }

  lemma PackFourValue(s: seq<byte>, b: seq<byte>)
    requires |b| == 13
    ensures var w := PackFour(b);
            BigEndian(s + b) == BigEndian(s) * B4 + w[0] + w[1] * B1 + w[2] * B2 + w[3] * B3
  {
    hide BigEndian, PackFour, Three;
    var s0 := s + [b[0]];
    BigEndianLast(s, b[0]);
    var s1 := s0 + [b[1], b[2], b[3]];
    BigEndianTriple(s0, b[1], b[2], b[3]);
    var s2 := s1 + [b[4], b[5], b[6]];
    BigEndianTriple(s1, b[4], b[5], b[6]);
    var s3 := s2 + [b[7], b[8], b[9]];
    BigEndianTriple(s2, b[7], b[8], b[9]);
    BigEndianTriple(s3, b[10], b[11], b[12]);
    assert s3 + [b[10], b[11], b[12]] == s + b;
    PackFourDigits(b);
  }

  lemma BigEndianTriple(s: seq<byte>, x: byte, y: byte, z: byte)
    ensures BigEndian(s + [x, y, z]) == BigEndian(s) * 0x100_0000 + Three(x, y, z)
  {
    BigEndianThree(s, x, y, z);
  }

  /** SetBytes: the words of a 32-byte big-endian number. */
  function WordsOf(b: seq<byte>): (w: Words)
    requires |b| == 32
  {
    PackFour(b[19..]) + PackFour(b[6..19]) + PackTwo(b[..6])
  }

  /** PutBytes: the bytes of carried words. */
  function BytesOf(w: Words): (b: seq<byte>)
    requires (forall i :: 0 <= i < 9 ==> w[i] < BASE) && w[9] < TOP
    ensures |b| == 32
  {
    UnpackTwo(w[8..]) + UnpackFour(w[4..8]) + UnpackFour(w[..4])
  }

  lemma WordsOfValue(b: seq<byte>)
    requires |b| == 32
    ensures Value(WordsOf(b)) == BigEndian(b)
    ensures Magnitude(WordsOf(b), 1)
    ensures (forall i :: 0 <= i < 9 ==> WordsOf(b)[i] < BASE) && WordsOf(b)[9] < TOP
  {
    hide PackFour, PackTwo, BigEndian;
    var hi, mid, lo := b[..6], b[6..19], b[19..];
    PackTwoValue(hi);
    PackFourValue(hi, mid);
    PackFourValue(hi + mid, lo);
    assert hi + mid + lo == b;
    var l, m, h := PackFour(lo), PackFour(mid), PackTwo(hi);
    var w := WordsOf(b);
    assert w[..4] == l && w[4..8] == m && w[8..] == h;
  }

  lemma BytesOfInverts(w: Words)
    requires (forall i :: 0 <= i < 9 ==> w[i] < BASE) && w[9] < TOP
    ensures WordsOf(BytesOf(w)) == w
  {
    hide PackFour, PackTwo, UnpackFour, UnpackTwo;
    UnpackFourInverts(w[..4]);
    UnpackFourInverts(w[4..8]);
    UnpackTwoInverts(w[8..]);
    var b := BytesOf(w);
    assert b[..6] == UnpackTwo(w[8..]) && b[6..19] == UnpackFour(w[4..8]) && b[19..] == UnpackFour(w[..4]);
    assert w[..4] + w[4..8] + w[8..] == w;
  }

  /** The bytes of a normalised element are the big-endian residue. */
  lemma BytesOfResidue(w: Words)
    requires Normal(w)
    ensures BigEndian(BytesOf(w)) == Value(w)
  {
    BytesOfInverts(w);
    WordsOfValue(BytesOf(w));
  }
}
