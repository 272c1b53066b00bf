/** Multiples of the base point by a table of byte points, and the table's generation. */
module BaseMult {
  import opened Bytes
  import opened NumberTheory
  import opened FieldProduct
  import opened FieldNormal
  import opened Field
  import opened Jacobian
  import opened CurveLaw
  import opened Curve
  import opened CurveGroup
  import opened Endomorphism
  import SM = ScalarMult
  import Ops = FieldOps

  /** The words of a point in Jacobian coordinates. */
  datatype Entry = Entry(x: Words, y: Words, z: Words)

  ghost predicate ZeroWords(w: Words, e: int) {
    Congruent(e, 0) ==> w == [0, 0, 0, 0, 0, 0, 0, 0, 0, 0]
  }

  /** The words stand for the triple X, Y, Z, which stands for a, and can be operands. */
  ghost predicate EntryAt(w: Entry, X: int, Y: int, Z: int, a: Affine) {
    && Ops.Is(w.x, X) && Ops.Is(w.y, Y) && Ops.Is(w.z, Z)
    && Ops.Mag(w.x) <= 7 && Ops.Mag(w.y) <= 7 && Ops.Mag(w.z) <= 7
    && ZeroWords(w.y, Y) && ZeroWords(w.z, Z) && (Congruent(Y, 0) ==> ZeroWords(w.x, X))
    && Denotes(Jac(X, Y, Z), a)
  }

  ghost predicate EntryIs(w: Entry, a: Affine) {
    exists X, Y, Z :: EntryAt(w, X, Y, Z, a)
  }

  lemma Stored(w: Entry, x: FieldVal, y: FieldVal, z: FieldVal, a: Affine)
    requires Held(x, y, z) && Denotes(At(x, y, z), a) && w == Entry(x.n, y.n, z.n)
    ensures EntryIs(w, a)
  {
    hide Congruent, P, Denotes, Ops.Is, Ops.Mag;
    assert EntryAt(w, x.e, y.e, z.e, a);
  }

  /** A copy of an entry. */
  method Load(w: Entry, ghost a: Affine) returns (x: FieldVal, y: FieldVal, z: FieldVal)
    requires EntryIs(w, a)
    ensures fresh(x) && fresh(y) && fresh(z) && x != y && x != z && y != z
    ensures Held(x, y, z) && Denotes(At(x, y, z), a)
  {
    hide Congruent, P, Denotes, Ops.Is, Ops.Mag;
    ghost var X, Y, Z :| EntryAt(w, X, Y, Z, a);
    x := new FieldVal();
    y := new FieldVal();
    z := new FieldVal();
    x.Assign(w.x, X);
    y.Assign(w.y, Y);
    z.Assign(w.z, Z);
  }

  type Table = seq<seq<Entry>>

  /** Row i holds the multiples of b by the values of byte i of a 32-byte number. */
  ghost predicate TableHolds(table: Table, b: Affine)
    requires IsPrime(P)
  {
    |table| == 32 && forall i :: 0 <= i < 32 ==> RowHolds(table[i], 31 - i, b)
  }

  ghost predicate RowHolds(row: seq<Entry>, m: nat, b: Affine)
    requires IsPrime(P)
  {
    |row| == 256 && forall v :: 0 <= v < 256 ==> EntryIs(row[v], CurveGroup.Times(v * Pow(256, m), b))
  }

  // Using the table.

  /** The bytes done, in their places. */
  ghost function Front(r: seq<byte>, i: nat): int
    requires i <= |r|
  {
    BigEndian(r[..i]) * Pow(256, |r| - i)
  }

  lemma FrontStep(r: seq<byte>, i: nat)
    requires i < |r|
    ensures Front(r, i + 1) == Front(r, i) + r[i] * Pow(256, |r| - 1 - i)
  {
    SM.BigEndianStep(r, i);
    assert Pow(256, |r| - i) == 256 * Pow(256, |r| - 1 - i);
    hide BigEndian, Pow;
    ShiftIn(BigEndian(r[..i]), r[i], Pow(256, |r| - 1 - i));
  }

  lemma ShiftIn(h: int, d: int, w: int)
    ensures (h * 256 + d) * w == h * (256 * w) + d * w
  {
  }

  lemma FrontEnds(r: seq<byte>)
    ensures Front(r, 0) == 0 && Front(r, |r|) == BigEndian(r)
  {
    assert r[..|r|] == r;
  }

  /** Adds an entry to the accumulator. */
  method AddEntry(qx: FieldVal, qy: FieldVal, qz: FieldVal, w: Entry, ghost b: Affine, ghost h: int, ghost v: int)
    returns (after: Entry)
    requires IsPrime(P) && GroupLaw() && Canonical(b) && qx != qy && qx != qz && qy != qz
    requires EntryIs(w, CurveGroup.Times(v, b)) && Held(qx, qy, qz) && Denotes(At(qx, qy, qz), CurveGroup.Times(h, b))
    modifies qx, qy, qz
    ensures Held(qx, qy, qz) && Denotes(At(qx, qy, qz), CurveGroup.Times(h + v, b))
    ensures EntryIs(after, CurveGroup.Times(v, b))
  {
    hide IsPrime, GroupLaw, Canonical, Denotes, Congruent, P, CurveGroup.Times, AddJ, Ops.Is, Ops.Mag, Sum, Held, EntryIs;
    var px, py, pz := Load(w, CurveGroup.Times(v, b));
    SM.AddStands(At(qx, qy, qz), At(px, py, pz), CurveGroup.Times(h, b), CurveGroup.Times(v, b));
    TimesAdd(h, v, b);
    AddJacobian(qx, qy, qz, px, py, pz, qx, qy, qz);
    after := Entry(px.n, py.n, pz.n);
    Stored(after, px, py, pz, CurveGroup.Times(v, b));
  }

  lemma RowEntry(table: Table, b: Affine, i: nat, v: byte)
    requires IsPrime(P) && TableHolds(table, b) && i < 32
    ensures |table| == 32 && |table[i]| == 256 && EntryIs(table[i][v], CurveGroup.Times(v * Pow(256, 31 - i), b))
  {
    hide IsPrime, Pow, CurveGroup.Times, EntryIs;
    assert RowHolds(table[i], 31 - i, b);
  }

  /** ScalarBaseMult returns k times the base point, for every byte string k. */
  method ScalarBaseMult(table: Table, k: seq<byte>, ghost b: Affine) returns (rx: nat, ry: nat)
    requires IsPrime(P) && GroupLaw() && Canonical(b) && CurveGroup.Times(N, b) == Infinity && TableHolds(table, b)
    ensures SM.IsAffine(rx, ry, CurveGroup.Times(BigEndian(k), b))
  {
    hide *;
    var newK, q := ModuloReduce(k);
    var diff := 32 - |newK|;
    FrontEnds(newK);
    var qx, qy, qz := SM.NewAccumulator(b);
    for i := 0 to |newK|
      invariant Held(qx, qy, qz) && Denotes(At(qx, qy, qz), CurveGroup.Times(Front(newK, i), b))
    {
      RowEntry(table, b, diff + i, newK[i]);
      FrontStep(newK, i);
      var p := AddEntry(qx, qy, qz, table[diff + i][newK[i]], b, Front(newK, i), newK[i] * Pow(256, 31 - (diff + i)));
    }
    TimesMod(BigEndian(k), BigEndian(newK), N, q, b);
    TimesCanonical(BigEndian(k), b);
    SM.HeldParts(qx, qy, qz);
    rx, ry := SM.FieldJacobianToBigAffine(qx, qy, qz, CurveGroup.Times(BigEndian(k), b));
  }

  // Generating the table.

  lemma Twice(h: int, b: Affine)
    requires IsPrime(P) && GroupLaw() && Canonical(b)
    ensures Sum(CurveGroup.Times(h, b), CurveGroup.Times(h, b)) == CurveGroup.Times(2 * h, b)
  {
    hide *;
    TimesAdd(h, h, b);
    assert h + h == 2 * h;
  }

  method DoubleOnce(px: FieldVal, py: FieldVal, pz: FieldVal, ghost b: Affine, ghost h: int)
    requires IsPrime(P) && GroupLaw() && Canonical(b) && px != py && px != pz && py != pz
    requires Held(px, py, pz) && Denotes(At(px, py, pz), CurveGroup.Times(h, b))
    modifies px, py, pz
    ensures Held(px, py, pz) && Denotes(At(px, py, pz), CurveGroup.Times(2 * h, b))
  {
    hide *;
    SM.DoubleStands(At(px, py, pz), CurveGroup.Times(h, b));
    Twice(h, b);
    SM.DoubleInPlace(px, py, pz);
  }

  /** The base point as fields. */
  method BasePoint(gx: nat, gy: nat) returns (px: FieldVal, py: FieldVal, pz: FieldVal)
    requires IsPrime(P) && Canonical(Point(gx, gy)) && gx < P && gy < P
    ensures fresh(px) && fresh(py) && fresh(pz) && px != py && px != pz && py != pz
    ensures Held(px, py, pz) && Denotes(At(px, py, pz), CurveGroup.Times(1, Point(gx, gy)))
  {
    hide Congruent, P, IsPrime, CurveGroup.Times, Denotes, Canonical, Ops.Is, Ops.Mag, Normal, Held;
    px, py := SM.Unit(gx, gy);
    pz := new FieldVal();
    pz.SetInt(1);
    SM.OneTidy(pz);
    SM.HeldTidy(px, py, pz);
    TimesOne(Point(gx, gy));
  }

  /** The points are b doubled 0, 1, 2, ... times. */
  ghost predicate Doublings(points: seq<Entry>, b: Affine)
    requires IsPrime(P)
  {
    forall i :: 0 <= i < |points| ==> EntryIs(points[i], CurveGroup.Times(Pow(2, i), b))
  }

  lemma MoreDoublings(points: seq<Entry>, w: Entry, b: Affine)
    requires IsPrime(P) && Doublings(points, b) && EntryIs(w, CurveGroup.Times(Pow(2, |points|), b))
    ensures Doublings(points + [w], b)
  {
    hide IsPrime, Pow, CurveGroup.Times, EntryIs;
  }

  lemma DoublingStored(points: seq<Entry>, i: nat, w: Entry, b: Affine)
    requires IsPrime(P) && Doublings(points, b) && i < |points| && EntryIs(w, CurveGroup.Times(Pow(2, i), b))
    ensures Doublings(points[i := w], b)
  {
    hide IsPrime, Pow, CurveGroup.Times, EntryIs;
  }

  lemma NoDoublings(b: Affine)
    requires IsPrime(P)
    ensures Doublings([], b) && Pow(2, 0) == 1
  {
  }

  lemma NextPower(b: int, i: nat)
    ensures Pow(b, i + 1) == b * Pow(b, i)
  {
  }

  method GetDoublingPoints(gx: nat, gy: nat) returns (points: seq<Entry>)
    requires IsPrime(P) && GroupLaw() && Canonical(Point(gx, gy)) && gx < P && gy < P
    ensures |points| == 256 && Doublings(points, Point(gx, gy))
  {
    hide *;
    ghost var b := Point(gx, gy);
    points := [];
    NoDoublings(b);
    var px, py, pz := BasePoint(gx, gy);
    for i := 0 to 256
      invariant |points| == i && Doublings(points, b)
      invariant Held(px, py, pz) && Denotes(At(px, py, pz), CurveGroup.Times(Pow(2, i), b))
    {
      var w := Entry(px.n, py.n, pz.n);
      Stored(w, px, py, pz, CurveGroup.Times(Pow(2, i), b));
      MoreDoublings(points, w, b);
      points := points + [w];
      NextPower(2, i);
      DoubleOnce(px, py, pz, b, Pow(2, i));
    }
  }

  /** The next bit of v. */
  lemma LowStep(v: nat, e: nat)
    requires e > 0
    ensures v % (2 * e) == v % e + v / e % 2 * e
  {
    var q, r := v / e, v % e;
    DivSplits(v, e);
    DivSplits(q, 2);
    Rejoin(e, q / 2, q % 2, r);
    QuotientUnique(v, 2 * e, q / 2, q % 2 * e + r);
  }

  lemma Rejoin(e: nat, s: nat, bit: nat, r: nat)
    requires r < e && bit < 2
    ensures e * (2 * s + bit) + r == (2 * e) * s + (bit * e + r) && 0 <= bit * e + r < 2 * e
  {
  }

  /** Bit j of byte m from the right. */
  lemma PlaceValue(m: nat, j: nat)
    ensures Pow(2, 8 * m + j) == Pow(2, j) * Pow(256, m)
  {
    PowAdd(2, 8 * m, j);
    PowMul(2, 8, m);
    assert Pow(2, 8) == 256 by {
      assert Pow(2, 8) == 2 * Pow(2, 7) == 4 * Pow(2, 6) == 8 * Pow(2, 5) == 16 * Pow(2, 4);
      assert Pow(2, 4) == 2 * Pow(2, 3) == 4 * Pow(2, 2) == 8 * Pow(2, 1) == 16 * Pow(2, 0);
    }
  }

  /** What the bits below j of v contribute. */
  ghost function Contribution(v: nat, e: nat, w: int): int
    requires e > 0
  {
    v % e * w
  }

  lemma ContributionStep(v: nat, e: nat, w: int)
    requires e > 0
    ensures Contribution(v, 2 * e, w) == Contribution(v, e, w) + if v / e % 2 == 1 then e * w else 0
  {
    LowStep(v, e);
    DistributeBit(v % e, v / e % 2, e, w);
  }

  lemma DistributeBit(r: int, bit: int, e: int, w: int)
    requires 0 <= bit < 2
    ensures (r + bit * e) * w == r * w + if bit == 1 then e * w else 0
  {
  }

  lemma ContributionEnds(v: byte, w: int)
    ensures Contribution(v, 1, w) == 0 && Contribution(v, 256, w) == v * w
  {
  }

  lemma EightPowers()
    ensures Pow(2, 0) == 1 && Pow(2, 8) == 256
  {
    PlaceValue(1, 0);
    assert Pow(256, 1) == 256 * Pow(256, 0);
  }

  /** The point of one byte value: the doublings of its bits are added up. */
  method WindowPoint(points: seq<Entry>, m: nat, v: byte, ghost b: Affine) returns (w: Entry, after: seq<Entry>)
    requires IsPrime(P) && GroupLaw() && Canonical(b) && |points| == 256 && Doublings(points, b) && m < 32
    ensures EntryIs(w, CurveGroup.Times(v * Pow(256, m), b)) && |after| == 256 && Doublings(after, b)
  {
    hide *;
    after := points;
    var px, py, pz := SM.NewAccumulator(b);
    ghost var u := Pow(256, m);
    var e: nat := 1;
    EightPowers();
    ContributionEnds(v, u);
    for j := 0 to 8
      invariant e == Pow(2, j) && e > 0 && |after| == 256 && Doublings(after, b)
      invariant Held(px, py, pz) && Denotes(At(px, py, pz), CurveGroup.Times(Contribution(v, e, u), b))
    {
      ContributionStep(v, e, u);
      PlaceValue(m, j);
      NextPower(2, j);
      if v / e % 2 == 1 {
        DoublingAt(after, 8 * m + j, b);
        var p := AddEntry(px, py, pz, after[8 * m + j], b, Contribution(v, e, u), e * u);
        DoublingStored(after, 8 * m + j, p, b);
        after := after[8 * m + j := p];
      }
      e := 2 * e;
    }
    w := Entry(px.n, py.n, pz.n);
    Stored(w, px, py, pz, CurveGroup.Times(v * u, b));
  }

  lemma DoublingAt(points: seq<Entry>, i: nat, b: Affine)
    requires IsPrime(P) && Doublings(points, b) && i < |points|
    ensures EntryIs(points[i], CurveGroup.Times(Pow(2, i), b))
  {
    hide IsPrime, Pow, CurveGroup.Times, EntryIs;
  }

  ghost predicate RowStarted(row: seq<Entry>, m: nat, b: Affine)
    requires IsPrime(P)
  {
    forall v :: 0 <= v < |row| ==> EntryIs(row[v], CurveGroup.Times(v * Pow(256, m), b))
  }

  lemma RowGrows(row: seq<Entry>, w: Entry, m: nat, b: Affine)
    requires IsPrime(P) && RowStarted(row, m, b) && EntryIs(w, CurveGroup.Times(|row| * Pow(256, m), b))
    ensures RowStarted(row + [w], m, b)
  {
    hide IsPrime, Pow, CurveGroup.Times, EntryIs;
  }

  lemma RowEnds(row: seq<Entry>, m: nat, b: Affine)
    requires IsPrime(P)
    ensures RowStarted([], m, b) && (RowStarted(row, m, b) && |row| == 256 ==> RowHolds(row, m, b))
  {
    hide IsPrime, Pow, CurveGroup.Times, EntryIs;
  }

  method WindowRow(points: seq<Entry>, m: nat, ghost b: Affine) returns (row: seq<Entry>, after: seq<Entry>)
    requires IsPrime(P) && GroupLaw() && Canonical(b) && |points| == 256 && Doublings(points, b) && m < 32
    ensures RowHolds(row, m, b) && |after| == 256 && Doublings(after, b)
  {
    hide *;
    row, after := [], points;
    RowEnds(row, m, b);
    for v := 0 to 256
      invariant |row| == v && RowStarted(row, m, b) && |after| == 256 && Doublings(after, b)
    {
      var w;
      w, after := WindowPoint(after, m, v, b);
      RowGrows(row, w, m, b);
      row := row + [w];
    }
    RowEnds(row, m, b);
  }

  ghost predicate TableStarted(table: Table, b: Affine)
    requires IsPrime(P)
  {
    |table| <= 32 && forall i :: 0 <= i < |table| ==> RowHolds(table[i], 31 - i, b)
  }

  lemma TableGrows(table: Table, row: seq<Entry>, b: Affine)
    requires IsPrime(P) && TableStarted(table, b) && |table| < 32 && RowHolds(row, 31 - |table|, b)
    ensures TableStarted(table + [row], b)
  {
    hide IsPrime, RowHolds;
  }

  lemma TableEnds(table: Table, b: Affine)
    requires IsPrime(P)
    ensures TableStarted([], b) && (TableStarted(table, b) && |table| == 32 ==> TableHolds(table, b))
  {
    hide IsPrime, RowHolds;
  }

  /** The generated table holds the byte points of the base point. */
  method BytePoints(gx: nat, gy: nat) returns (table: Table)
    requires IsPrime(P) && GroupLaw() && Canonical(Point(gx, gy)) && gx < P && gy < P
    ensures TableHolds(table, Point(gx, gy))
  {
    hide *;
    ghost var b := Point(gx, gy);
    var points := GetDoublingPoints(gx, gy);
    table := [];
    TableEnds(table, b);
    for byteNum := 0 to 32
      invariant |table| == byteNum && TableStarted(table, b) && |points| == 256 && Doublings(points, b)
    {
      var row;
      row, points := WindowRow(points, 31 - byteNum, b);
      TableGrows(table, row, b);
      table := table + [row];
    }
    TableEnds(table, b);
  }
}
