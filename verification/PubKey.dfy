/** Square roots in the field, point decompression and public key formats. */
module PubKey {
  import opened Bytes
  import opened NumberTheory
  import opened FieldProduct
  import opened FieldNormal
  import opened Congruence
  import opened Field
  import opened FieldPower
  import opened FieldFermat
  import opened CurveLaw
  import opened Wrappers

  /** y is a canonical ordinate at abscissa x with the asked parity. */
  ghost predicate IsOrdinate(x: int, odd: bool, y: int) {
    0 <= y < P && OnCurve(x, y) && (y % 2 == 1 <==> odd)
  }

  /** For squares, the power (P + 1) / 4 is a root. */
  lemma PowerIsRoot(c: int, r: nat)
    requires IsPrime(P) && Congruent(r * r, c)
    ensures var s := Pow(c, (P + 1) / 4); Congruent(s * s, c)
  {
    hide Pow, IsPrime, Congruent, P;
    ModulusFacts();
    var q := (P + 1) / 4;
    var s, t := Pow(c, q), Pow(r, q);
    CongruentSymmetric(r * r, c);
    CongruentPow(c, r * r, q);
    PowOfProduct(r, r, q);
    CongruentMul(s, t * t, s, t * t);
    PowAdd(r, q, q);
    PowAdd(r, 2 * q, 2 * q);
    PowAdd(r, P, 1);
    PowOne(r);
    FermatCongruent(r);
    CongruentFromQuotient(r, r, 0);
    CongruentMul(Pow(r, P), r, r, r);
    assert 4 * q == P + 1;
    CongruentTransitive(s * s, Pow(r, P) * r, r * r);
    CongruentTransitive(s * s, r * r, c);
  }

  /** A residue has at most two roots, negatives of each other. */
  lemma TwoRoots(a: int, b: int)
    requires IsPrime(P) && Congruent(a * a, b * b)
    ensures Congruent(a, b) || Congruent(a, -b)
  {
    hide Divides, IsPrime, Congruent, P;
    CongruentIsDivides(a * a, b * b);
    CongruentIsDivides(a, b);
    CongruentIsDivides(a, -b);
    assert a * a - b * b == (a - b) * (a + b);
    Euclid(P, a - b, a + b);
  }

  lemma CongruentResidue(y: int, s: int)
    requires 0 <= y < P && Congruent(y, s)
    ensures y == s % P
  {
  }

  /** Every ordinate is one of the two residues of the computed root. */
  lemma OrdinateIsRoot(x: int, odd: bool, y: int)
    requires IsPrime(P) && IsOrdinate(x, odd, y)
    ensures var s := Pow(Pow(x, 3) + 7, (P + 1) / 4);
            Congruent(s * s, Pow(x, 3) + 7) && (y == s % P || y == (-s) % P)
  {
    hide Congruent, P, IsPrime, Pow;
    var c := Pow(x, 3) + 7;
    var s := Pow(c, (P + 1) / 4);
    PowerIsRoot(c, y);
    CongruentSymmetric(s * s, c);
    CongruentTransitive(y * y, c, s * s);
    TwoRoots(y, s);
    if Congruent(y, s) {
      CongruentResidue(y, s);
    } else {
      CongruentResidue(y, -s);
    }
  }

  lemma NegatedResidue(z: int)
    requires 0 <= z < P
    ensures (-z) % P == if z == 0 then 0 else P - z
  {
  }

  /** At most one ordinate has a given parity. */
  lemma OrdinateUnique(x: int, odd: bool, y: int, z: int)
    requires IsPrime(P) && IsOrdinate(x, odd, y) && IsOrdinate(x, odd, z)
    ensures y == z
  {
    hide Congruent, P, IsPrime, Pow;
    var c := Pow(x, 3) + 7;
    CongruentSymmetric(z * z, c);
    CongruentTransitive(y * y, c, z * z);
    SameParityRoot(y, z);
  }

  /** P is odd, so a nonzero residue and its negative differ in parity. */
  lemma OppositeParity(y: int, z: int)
    requires 0 <= z < P && y == (-z) % P && y % 2 == z % 2
    ensures y == z
  {
    NegatedResidue(z);
  }

  /** Of the two roots of a residue at most one has a given parity. */
  lemma SameParityRoot(y: int, z: int)
    requires IsPrime(P) && 0 <= y < P && 0 <= z < P && y % 2 == z % 2 && Congruent(y * y, z * z)
    ensures y == z
  {
    hide *;
    ModulusFacts();
    TwoRoots(y, z);
    if Congruent(y, z) {
      CongruentResidue(y, z);
      SmallResidue(z);
    } else {
      CongruentResidue(y, -z);
      OppositeParity(y, z);
    }
  }

  lemma SmallResidue(z: int)
    requires 0 <= z < P
    ensures z % P == z
  {
  }

  /** The final checks fail exactly when neither residue has the asked parity. */
  lemma NoOrdinate(x: int, odd: bool, s: int)
    requires IsPrime(P) && s == Pow(Pow(x, 3) + 7, (P + 1) / 4)
    requires Congruent(s * s, Pow(x, 3) + 7) ==>
               ((s % P) % 2 == 1 <==> !odd) && (((-s) % P) % 2 == 1 <==> !odd)
    ensures forall y :: !IsOrdinate(x, odd, y)
  {
    hide Congruent, P, IsPrime, Pow;
    forall y
      ensures !IsOrdinate(x, odd, y)
    {
      if IsOrdinate(x, odd, y) {
        OrdinateIsRoot(x, odd, y);
        assert false;
      }
    }
  }

  lemma ResidueSquare(s: int, c: int)
    requires Congruent(s * s, c)
    ensures Congruent((s % P) * (s % P), c)
  {
    hide Congruent, P;
    ModulusFacts();
    CongruentFromQuotient(s % P, s, -(s / P));
    CongruentMul(s % P, s, s % P, s);
    CongruentTransitive((s % P) * (s % P), s * s, c);
  }

  /** x^3 + 7 for the equation of the curve. */
  method RightHandSide(bigX: nat) returns (x3: FieldVal)
    requires bigX < Pow(256, 32)
    ensures fresh(x3) && x3.Valid() && x3.Mag() <= 1 && Normal(x3.n) && x3.e == Pow(bigX, 3) + 7
  {
    hide Congruent, P, FieldVal.Valid, FieldVal.Mag, Normal, Pow, BigEndian, MinimalBytes;
    CubeIs(bigX);
    var x := new FieldVal();
    MinimalBytesLength(bigX, 32);
    MinimalBytesValue(bigX);
    SetByteSlice(x, MinimalBytes(bigX));
    x3 := new FieldVal();
    x3.SquareVal(x);
    x3.Mul(x);
    var fieldB := new FieldVal();
    fieldB.SetInt(7);
    x3.Add(fieldB);
    x3.Normalize();
  }

  /** The root by exponentiation, negated when its parity is not the asked one. */
  method CandidateRoot(x3: FieldVal, ybit: bool) returns (y: FieldVal, ghost s: int)
    requires x3.Valid() && x3.Mag() <= 1
    ensures fresh(y) && y.Valid() && y.Mag() <= 1 && Normal(y.n)
    ensures s == Pow(x3.e, (P + 1) / 4)
    ensures y.e == if (s % P) % 2 == 1 <==> ybit then s else -s
  {
    hide *;
    y := new FieldVal();
    SqrtVal(y, x3);
    y.Normalize();
    s := y.e;
    var odd := y.IsOdd();
    if ybit != odd {
      y.Negate(1);
      y.Normalize();
    }
  }

  /** Given an abscissa below 2^256 and a parity, finds the ordinate if there is one. */
  method DecompressPoint(bigX: nat, ybit: bool) returns (r: Option<int>)
    requires IsPrime(P) && bigX < Pow(256, 32)
    ensures r.Some? ==> IsOrdinate(bigX, ybit, r.value)
    ensures r.None? ==> forall y :: !IsOrdinate(bigX, ybit, y)
  {
    hide Congruent, Pow, IsPrime, FieldVal.Valid, FieldVal.Mag, Normal, BigEndian;
    var x3 := RightHandSide(bigX);
    var y, s := CandidateRoot(x3, ybit);

    // y must be a root and have the asked parity
    var y2 := new FieldVal();
    y2.SquareVal(y);
    y2.Normalize();
    assert y2.e == s * s;
    var isRoot := y2.Equals(x3);
    var odd := y.IsOdd();
    if !isRoot || ybit != odd {
      NoOrdinate(bigX, ybit, s);
      return None;
    }
    var bytes := y.PutBytes();
    ResidueSquare(y.e, x3.e);
    return Some(BigEndian(bytes));
  }

  /** Fills the low bytes of a zeroed 32-byte array.  A longer slice would index below the array. */
  method SetByteSlice(f: FieldVal, b: seq<byte>)
    requires |b| <= 32
    modifies f
    ensures f.Valid() && f.e == BigEndian(b) && f.Mag() <= 1
    ensures BigEndian(b) < P ==> Normal(f.n)
  {
    hide Congruent, P, Normal;
    var b32 := new byte[32](_ => 0);
    for i := 0 to |b|
      invariant forall j :: 0 <= j < 32 - |b| ==> b32[j] == 0
      invariant forall j :: 0 <= j < i ==> b32[j + (32 - |b|)] == b[j]
    {
      b32[i + (32 - |b|)] := b[i];
    }
    assert b32[..] == Padded(b, 32);
    PaddedValue(b, 32);
    f.SetBytes(b32[..]);
  }

  datatype PublicKey = PublicKey(x: nat, y: nat)

  ghost predicate Canonical(k: PublicKey) {
    k.x < P && k.y < P && OnCurve(k.x, k.y)
  }

  method IsOnCurve(x: nat, y: nat) returns (on: bool)
    requires x < Pow(256, 32) && y < Pow(256, 32)
    ensures on <==> OnCurve(x, y)
  {
    hide Congruent, P, Pow, FieldVal.Valid, FieldVal.Mag, Normal, BigEndian, MinimalBytes;
    CubeIs(x);
    var fx := new FieldVal();
    MinimalBytesLength(x, 32);
    MinimalBytesValue(x);
    SetByteSlice(fx, MinimalBytes(x));
    var fy := new FieldVal();
    MinimalBytesLength(y, 32);
    MinimalBytesValue(y);
    SetByteSlice(fy, MinimalBytes(y));
    var y2 := new FieldVal();
    y2.SquareVal(fy);
    y2.Normalize();
    var result := new FieldVal();
    result.SquareVal(fx);
    result.Mul(fx);
    result.AddInt(7);
    result.Normalize();
    on := y2.Equals(result);
  }

  /** What the bytes denote.  The low bit of the first byte is dropped before the format is
  compared, so 5 is read like 4; only the hybrid forms 6 and 7 check it against y. */
  ghost predicate Denotes(s: seq<byte>, k: PublicKey) {
    || (|s| == 33 && s[0] / 2 == 1 && k.x == BigEndian(s[1..]) && IsOrdinate(k.x, s[0] % 2 == 1, k.y))
    || (|s| == 65 && (s[0] / 2 == 2 || s[0] / 2 == 3) && k.x == BigEndian(s[1..33]) && k.y == BigEndian(s[33..])
        && (s[0] / 2 == 3 ==> (s[0] % 2 == 1 <==> k.y % 2 == 1)) && Canonical(k))
  }

  lemma BigEndianBound32(s: seq<byte>)
    requires |s| == 32
    ensures BigEndian(s) < Pow(256, 32)
  {
    BigEndianBound(s);
  }

  method ParsePubKey(s: seq<byte>) returns (r: Option<PublicKey>)
    requires IsPrime(P)
    ensures r.Some? ==> Denotes(s, r.value)
    ensures r.None? ==> forall k :: !Denotes(s, k)
  {
    hide Congruent, P, Pow, IsPrime, FieldVal.Valid, FieldVal.Mag, Normal, BigEndian;
    if s == [] {
      return None;
    }
    var ybit := s[0] % 2 == 1;
    var format := s[0] - s[0] % 2;
    if |s| == 65 {
      if format != 4 && format != 6 {
        return None;
      }
      var k := PublicKey(BigEndian(s[1..33]), BigEndian(s[33..]));
      if format == 6 && ybit != (k.y % 2 == 1) {
        return None;
      }
      if k.x >= P || k.y >= P {
        return None;
      }
      BigEndianBound32(s[1..33]);
      BigEndianBound32(s[33..]);
      var on := IsOnCurve(k.x, k.y);
      return if on then Some(k) else None;
    } else if |s| == 33 {
      if format != 2 {
        return None;
      }
      BigEndianBound32(s[1..]);
      var x := BigEndian(s[1..]);
      var y := DecompressPoint(x, ybit);
      if y.None? {
        return None;
      }
      return Some(PublicKey(x, y.value));
    }
    return None;
  }

  /** Bytes denote at most one key, so the parser's answer is determined. */
  lemma DenotesUnique(s: seq<byte>, j: PublicKey, k: PublicKey)
    requires IsPrime(P) && Denotes(s, j) && Denotes(s, k)
    ensures j == k
  {
    hide IsPrime, Congruent, P, BigEndian;
    if |s| == 33 {
      OrdinateUnique(k.x, s[0] % 2 == 1, j.y, k.y);
    }
  }

  function PaddedAppend(size: nat, dst: seq<byte>, src: seq<byte>): seq<byte> {
    dst + (if |src| <= size then Padded(src, size) else src)
  }

  function SerializeCompressed(k: PublicKey): seq<byte> {
    PaddedAppend(32, [if k.y % 2 == 1 then 3 else 2], MinimalBytes(k.x))
  }

  function SerializeUncompressed(k: PublicKey): seq<byte> {
    PaddedAppend(32, PaddedAppend(32, [4], MinimalBytes(k.x)), MinimalBytes(k.y))
  }

  function SerializeHybrid(k: PublicKey): seq<byte> {
    PaddedAppend(32, PaddedAppend(32, [if k.y % 2 == 1 then 7 else 6], MinimalBytes(k.x)), MinimalBytes(k.y))
  }

  lemma PrimeBelow256()
    ensures P + 1 < Pow(256, 32)
  {
    PowAdd(256, 16, 16);
    PowAdd(256, 8, 8);
    assert Pow(256, 8) == 0x1_0000_0000_0000_0000 by {
      PowAdd(256, 4, 4);
      assert Pow(256, 4) == 256 * Pow(256, 3) == 65536 * Pow(256, 2);
    }
  }

  lemma CoordinateBytes(n: nat)
    requires n < Pow(256, 32)
    ensures |MinimalBytes(n)| <= 32 && BigEndian(Padded(MinimalBytes(n), 32)) == n
  {
    hide Pow, BigEndian, MinimalBytes;
    MinimalBytesLength(n, 32);
    MinimalBytesValue(n);
    PaddedValue(MinimalBytes(n), 32);
  }

  /** The serialised forms of a canonical key denote that key, so parsing returns it. */
  lemma SerializeDenotes(k: PublicKey)
    requires Canonical(k)
    ensures Denotes(SerializeCompressed(k), k)
    ensures Denotes(SerializeUncompressed(k), k)
    ensures Denotes(SerializeHybrid(k), k)
  {
    hide Congruent, P, Pow, BigEndian, MinimalBytes;
    PrimeBelow256();
    CoordinateBytes(k.x);
    CoordinateBytes(k.y);
    var x, y := Padded(MinimalBytes(k.x), 32), Padded(MinimalBytes(k.y), 32);
    var c, u, h := SerializeCompressed(k), SerializeUncompressed(k), SerializeHybrid(k);
    assert c[1..] == x;
    assert u[1..33] == x && u[33..] == y;
    assert h[1..33] == x && h[33..] == y;
  }

  /** Serialising in compressed form and parsing again returns the key. */
  method CompressedRoundTrip(k: PublicKey) returns (r: Option<PublicKey>)
    requires IsPrime(P) && Canonical(k)
    ensures r == Some(k)
  {
    hide IsPrime, Congruent, P, BigEndian, MinimalBytes, SerializeCompressed, Denotes;
    SerializeDenotes(k);
    r := ParsePubKey(SerializeCompressed(k));
    DenotesUnique(SerializeCompressed(k), r.value, k);
  }

  // What is accepted beyond the serialised forms of canonical keys.

  lemma NumberBytes(t: seq<byte>)
    requires |t| == 32
    ensures |MinimalBytes(BigEndian(t))| <= 32 && Padded(MinimalBytes(BigEndian(t)), 32) == t
  {
    hide Pow, BigEndian, MinimalBytes;
    BigEndianBound32(t);
    CoordinateBytes(BigEndian(t));
    BigEndianInjective(Padded(MinimalBytes(BigEndian(t)), 32), t);
  }

  /** A denoted key is canonical exactly if its abscissa is below the prime, which only compressed bytes leave open,
  and the bytes are one of its serialised forms exactly if their first byte is not 5. */
  lemma Accepted(s: seq<byte>, k: PublicKey)
    requires Denotes(s, k)
    ensures Canonical(k) <==> k.x < P
    ensures |s| == 65 ==> Canonical(k)
    ensures s in [SerializeCompressed(k), SerializeUncompressed(k), SerializeHybrid(k)] <==> s[0] != 5
  {
    hide Congruent, P, BigEndian, MinimalBytes;
    if |s| == 33 {
      NumberBytes(s[1..]);
      assert s == [s[0]] + s[1..];
      assert SerializeCompressed(k) == s;
    } else {
      NumberBytes(s[1..33]);
      NumberBytes(s[33..]);
      assert s == [s[0]] + s[1..33] + s[33..];
      assert s[0] == 4 ==> SerializeUncompressed(k) == s;
      assert s[0] / 2 == 3 ==> SerializeHybrid(k) == s;
      assert SerializeUncompressed(k)[0] == 4 && SerializeHybrid(k)[0] >= 6 && SerializeCompressed(k)[0] <= 3;
    }
  }

  /** Every canonical key is also denoted by bytes that start with 5. */
  lemma FirstByteFive(k: PublicKey)
    requires Canonical(k)
    ensures Denotes([5] + SerializeUncompressed(k)[1..], k)
  {
    hide Congruent, P, Pow, BigEndian, MinimalBytes;
    PrimeBelow256();
    CoordinateBytes(k.x);
    CoordinateBytes(k.y);
    var x, y, u := Padded(MinimalBytes(k.x), 32), Padded(MinimalBytes(k.y), 32), SerializeUncompressed(k);
    assert u[1..] == x + y && ([5] + u[1..])[1..33] == x && ([5] + u[1..])[33..] == y;
  }

  /** Compressed bytes of an abscissa that is not below the prime. */
  lemma LargeAbscissa() returns (s: seq<byte>, k: PublicKey)
    ensures |s| == 33 && Denotes(s, k) && k.x == P + 1 && !Canonical(k)
  {
    k := PublicKey(P + 1, 0x4218f20ae6c646b363db68605822fb14264ca8d2587fdd6fbc750d587e76a7ee);
    s := SerializeCompressed(k);
    PrimeBelow256();
    RootOfEight();
    CoordinateBytes(k.x);
    hide Congruent, Pow, BigEndian, MinimalBytes;
    assert s[1..] == Padded(MinimalBytes(k.x), 32);
  }

  lemma RootOfEight()
    ensures OnCurve(P + 1, 0x4218f20ae6c646b363db68605822fb14264ca8d2587fdd6fbc750d587e76a7ee)
  {
    hide Congruent;
    CubeIs(P + 1);
    CongruentFromQuotient(0x4218f20ae6c646b363db68605822fb14264ca8d2587fdd6fbc750d587e76a7ee * 0x4218f20ae6c646b363db68605822fb14264ca8d2587fdd6fbc750d587e76a7ee,
                          Pow(P + 1, 3) + 7, -0xfffffffffffffffffffffffffffffffffffffffffffffffffffffffdfffff860eeef20c41a1de19889ae95a0598fd28e26c84d9eb7fb3320cea07229ba7e8dad);
  }
}
