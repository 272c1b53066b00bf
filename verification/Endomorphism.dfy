/** The endomorphism of secp256k1: its lattice vectors and the split of a multiplier. */
module Endomorphism {
  import opened Bytes
  import opened NumberTheory

  const N: int := 0xFFFFFFFFFFFFFFFFFFFFFFFFFFFFFFFEBAAEDCE6AF48A03BBFD25E8CD0364141
  const LAMBDA: int := 0x5363AD4CC05C30E0A5261C028812645A122E22EA20816678DF02967C1B23BD72
  const BETA: int := 0x7AE96A2B657C07106E64479EAC3434E99CF0497512F58995C1396C28719501EE
  const A1: int := 0x3086D221A7D46BCDE86C90E49284EB15
  const B1: int := -0xE4437ED6010E88286F547FA90ABFE4C3
  const A2: int := 0x114CA50F7A8E2F3F657C1108D9D44CFD8
  const B2: int := 0x3086D221A7D46BCDE86C90E49284EB15

  // Deriving the vectors.

  /** One row of the extended Euclidean algorithm: x * n + y * lambda == r. */
  ghost predicate Row(n: int, lambda: int, x: int, y: int, r: int) {
    x * n + y * lambda == r
  }

  ghost predicate UnitDeterminant(x1: int, y1: int, x2: int, y2: int) {
    x1 * y2 - x2 * y1 == 1 || x1 * y2 - x2 * y1 == -1
  }

  lemma NextRow(n: int, lambda: int, x1: int, y1: int, u: int, x2: int, y2: int, v: int, q: int)
    requires Row(n, lambda, x1, y1, u) && Row(n, lambda, x2, y2, v)
    ensures Row(n, lambda, x2 - q * x1, y2 - q * y1, v - q * u)
  {
    assert q * u == (q * x1) * n + (q * y1) * lambda;
    Subtract(x2, q * x1, n);
    Subtract(y2, q * y1, lambda);
  }

  lemma Subtract(a: int, b: int, c: int)
    ensures (a - b) * c == a * c - b * c
  {
  }

  lemma NextDeterminant(x1: int, y1: int, x2: int, y2: int, q: int)
    requires UnitDeterminant(x1, y1, x2, y2)
    ensures UnitDeterminant(x2 - q * x1, y2 - q * y1, x1, y1)
  {
    Subtract(x2, q * x1, y1);
    assert x1 * (y2 - q * y1) == x1 * y2 - x1 * (q * y1);
    assert (q * x1) * y1 == x1 * (q * y1);
  }

  /** Two rows with unit determinant give vectors of determinant n. */
  lemma RowsDeterminant(n: int, lambda: int, x1: int, y1: int, u: int, x2: int, y2: int, v: int)
    requires Row(n, lambda, x1, y1, u) && Row(n, lambda, x2, y2, v) && UnitDeterminant(x1, y1, x2, y2)
    ensures u * y2 - v * y1 == n || u * y2 - v * y1 == -n
  {
    assert u * y2 == n * (x1 * y2) + (lambda * y1) * y2;
    assert v * y1 == n * (x2 * y1) + (lambda * y1) * y2;
    assert n * (x1 * y2 - x2 * y1) == n * (x1 * y2) - n * (x2 * y1);
  }

  /** The vector (r, -y) of a row lies in the lattice: r - y * lambda is a multiple of n. */
  ghost predicate InLattice(n: int, lambda: int, a: int, b: int)
    requires n > 0
  {
    (a + b * lambda) % n == 0
  }

  lemma RowInLattice(n: int, lambda: int, x: int, y: int, r: int)
    requires n > 0 && Row(n, lambda, x, y, r)
    ensures InLattice(n, lambda, r, -y)
  {
    assert r + (-y) * lambda == n * x;
    RemainderZero(n, x);
  }

  ghost predicate Spans(n: int, a1: int, b1: int, a2: int, b2: int) {
    a1 * b2 - a2 * b1 == n || a1 * b2 - a2 * b1 == -n
  }

  /** The first three steps of algorithm 3.74 of the Guide to Elliptic Curve Cryptography; nSqrt is
  the rounded root of n. */
  method EndomorphismVectors(n: int, lambda: int, nSqrt: int)
    returns (a1: int, b1: int, a2: int, b2: int, ghost broke: bool)
    requires n > 0 && 0 <= lambda < n
    ensures InLattice(n, lambda, a1, b1) && InLattice(n, lambda, a2, b2)
    ensures broke && nSqrt <= lambda ==> Spans(n, a1, b1, a2, b2)
    ensures broke ==> 0 <= a1 < nSqrt
  {
    hide Row, UnitDeterminant, InLattice, Spans;
    var u, v := n, lambda;
    var x1, y1, x2, y2 := 1, 0, 0, 1;
    var ri, ti := 0, 0;
    a1, b1, a2, b2 := 0, 0, 0, 0;
    var found, oneMore := false, false;
    ghost var si, first := 0, true;
    broke := false;
    Start(n, lambda);
    while u != 0
      invariant u >= 0 && v >= 0
      invariant Row(n, lambda, x1, y1, u) && Row(n, lambda, x2, y2, v) && Row(n, lambda, si, ti, ri)
      invariant UnitDeterminant(x1, y1, x2, y2)
      invariant InLattice(n, lambda, a1, b1) && a2 == b2 == 0
      invariant oneMore == found
      invariant first ==> u == n && v == lambda && !found
      invariant !first && !found ==> ri == u && ti == y1 && si == x1
      invariant found ==> a1 == u && b1 == -y1 && 0 <= a1 < nSqrt
      invariant found && nSqrt <= lambda ==> Spans(n, u, -y1, ri, -ti)
      decreases u
    {
      var q := v / u;
      var r, s, t := v - q * u, x2 - q * x1, y2 - q * y1;
      Remainder(v, u);
      NextRow(n, lambda, x1, y1, u, x2, y2, v, q);
      NextDeterminant(x1, y1, x2, y2, q);
      v, u, x2, x1, y2, y1 := u, r, x1, s, y1, t;
      SpansNegated(n, lambda, x1, y1, u, x2, y2, v);
      if !found && r < nSqrt {
        a1, b1 := r, -t;
        RowInLattice(n, lambda, s, t, r);
        found, oneMore := true, true;
        if first {
          FirstRemainder(n, lambda);
        }
        first := false;
        continue;
      } else if oneMore {
        if ri * ri + ti * ti <= r * r + t * t {
          a2, b2 := ri, -ti;
          RowInLattice(n, lambda, si, ti, ri);
        } else {
          a2, b2 := r, -t;
          RowInLattice(n, lambda, s, t, r);
        }
        broke := true;
        break;
      }
      first := false;
      ri, ti := r, t;
      si := s;
    }
  }

  lemma Start(n: int, lambda: int)
    requires n > 0
    ensures Row(n, lambda, 1, 0, n) && Row(n, lambda, 0, 1, lambda) && Row(n, lambda, 0, 0, 0)
    ensures UnitDeterminant(1, 0, 0, 1) && InLattice(n, lambda, 0, 0)
  {
  }

  lemma Remainder(v: nat, u: int)
    requires u > 0
    ensures 0 <= v - (v / u) * u < u
  {
    assert v == (v / u) * u + v % u;
  }

  lemma FirstRemainder(n: int, lambda: int)
    requires 0 <= lambda < n
    ensures lambda - (lambda / n) * n == lambda
  {
    Remainder(lambda, n);
    SmallMultiple(n, lambda / n);
  }

  /** Consecutive rows span the lattice, in either order. */
  lemma SpansNegated(n: int, lambda: int, x1: int, y1: int, u: int, x2: int, y2: int, v: int)
    requires Row(n, lambda, x1, y1, u) && Row(n, lambda, x2, y2, v) && UnitDeterminant(x1, y1, x2, y2)
    ensures Spans(n, u, -y1, v, -y2) && Spans(n, v, -y2, u, -y1)
  {
    hide Row, UnitDeterminant;
    RowsDeterminant(n, lambda, x1, y1, u, x2, y2, v);
    assert u * -y2 - v * -y1 == -(u * y2 - v * y1);
    assert v * -y1 - u * -y2 == u * y2 - v * y1;
  }

  // Splitting a multiplier.

  /** The stored vectors lie in the lattice and have determinant N. */
  lemma StoredVectors()
    ensures A1 + B1 * LAMBDA == -0x4a5ac2bf7b5f37f9f1db10d7a2a9c981 * N
    ensures A2 + B2 * LAMBDA == 0xfce9b1dd4eb7dd2718a2906787061b2 * N
    ensures A1 * B2 - A2 * B1 == N
  {
  }

  function Sign(k: int): int {
    if k < 0 then -1 else if k == 0 then 0 else 1
  }

  function Abs(k: int): nat {
    if k < 0 then -k else k
  }

  /** The two halves add up to k modulo N and are about half as long as N. */
  lemma Split(k: nat, c1: int, c2: int, k1: int, k2: int)
    requires c1 == B2 * k / N && c2 == B1 * k / N
    requires k1 == k - c1 * A1 + c2 * A2 && k2 == c2 * B2 - c1 * B1
    ensures k1 + k2 * LAMBDA == k + (c1 * 0x4a5ac2bf7b5f37f9f1db10d7a2a9c981 + c2 * 0xfce9b1dd4eb7dd2718a2906787061b2) * N
    ensures -A2 < k1 < A2 && -A2 < k2 <= 0
  {
  }

  /** splitK: the absolute values as bytes, and the signs. */
  method SplitK(k: seq<byte>) returns (k1: seq<byte>, k2: seq<byte>, signK1: int, signK2: int, ghost q: int)
    ensures signK1 * BigEndian(k1) + signK2 * BigEndian(k2) * LAMBDA == BigEndian(k) + q * N
    ensures BigEndian(k1) < A2 && BigEndian(k2) < A2
    ensures -1 <= signK1 <= 1 && -1 <= signK2 <= 1
    ensures (signK1 == 0 <==> k1 == []) && (signK2 == 0 <==> k2 == [])
  {
    var bigIntK := BigEndian(k);
    var c1 := B2 * bigIntK / N;
    var c2 := B1 * bigIntK / N;
    var half1 := bigIntK - c1 * A1 + c2 * A2;
    var half2 := c2 * B2 - c1 * B1;
    Split(bigIntK, c1, c2, half1, half2);
    hide BigEndian;
    MinimalBytesValue(Abs(half1));
    MinimalBytesValue(Abs(half2));
    k1, k2 := MinimalBytes(Abs(half1)), MinimalBytes(Abs(half2));
    signK1, signK2 := Sign(half1), Sign(half2);
    q := c1 * 0x4a5ac2bf7b5f37f9f1db10d7a2a9c981 + c2 * 0xfce9b1dd4eb7dd2718a2906787061b2;
    assert signK1 * BigEndian(k1) == half1 && signK2 * BigEndian(k2) == half2;
  }

  /** Longer byte strings are reduced modulo N first. */
  method ModuloReduce(k: seq<byte>) returns (r: seq<byte>, ghost q: int)
    ensures BigEndian(k) == BigEndian(r) + q * N
    ensures |r| <= 32 && (|k| <= 32 ==> r == k)
  {
    if |k| > 32 {
      var tmpK := BigEndian(k) % N;
      q := BigEndian(k) / N;
      MinimalBytesValue(tmpK);
      ThirtyTwoBytes();
      MinimalBytesLength(tmpK, 32);
      return MinimalBytes(tmpK), q;
    }
    return k, 0;
  }
}
