/** Bytes, big-endian numbers and powers shared by the other modules. */
module Bytes {

  type byte = x: int | 0 <= x < 256

  ghost function Pow(b: int, n: nat): int {
    if n == 0 then 1 else b * Pow(b, n - 1)
  }

  lemma {:induction false} PowAdd(b: int, m: nat, n: nat)
    ensures Pow(b, m + n) == Pow(b, m) * Pow(b, n)
  {
    if m > 0 {
      PowAdd(b, m - 1, n);
      MulAssociates(b, Pow(b, m - 1), Pow(b, n));
    }
  }

  /** Quotient and remainder are unique. */
  lemma QuotientUnique(x: int, e: int, q: int, r: int)
    requires 0 <= r < e && x == e * q + r
    ensures x / e == q && x % e == r
  {
    var d := x / e - q;
    assert e * d == r - x % e;
    if d >= 1 {
      MulAtLeast(e, d);
    } else if d <= -1 {
      MulAtLeast(e, -d);
    }
  }

  lemma MulAtLeast(e: int, d: int)
    requires e > 0 && d >= 1
    ensures e * d >= e && e * -d <= -e
  {
  }

  lemma DivSplits(w: nat, a: nat)
    requires a > 0
    ensures w == a * (w / a) + w % a && w % a < a
  {
  }

  /** Dividing twice is dividing by the product. */
  lemma DivTwice(w: nat, a: nat, b: nat)
    requires a > 0 && b > 0
    ensures a * b > 0 && w / (a * b) == w / a / b
  {
    var q, r := w / a, w % a;
    var s, t := q / b, q % b;
    DivSplits(w, a);
    DivSplits(q, b);
    DivParts(a, b, s, t, r);
    QuotientUnique(w, a * b, s, a * t + r);
  }

  lemma DivParts(a: nat, b: nat, s: nat, t: nat, r: nat)
    requires t < b && r < a
    ensures a * (b * s + t) + r == (a * b) * s + (a * t + r) && 0 <= a * t + r < a * b
  {
    MulAssociates(a, b, s);
    assert a * (b * s + t) == a * (b * s) + a * t;
    assert a * t <= a * (b - 1) == a * b - a;
  }

  lemma MulAssociates(x: int, y: int, z: int)
    ensures x * (y * z) == (x * y) * z
  {
  }

  lemma MulShuffle(a: int, b: int, x: int, y: int)
    ensures (a * b) * (x * y) == (a * x) * (b * y)
  {
  }

  lemma {:induction false} PowMul(b: int, m: nat, n: nat)
    ensures m * n >= 0
    ensures Pow(b, m * n) == Pow(Pow(b, m), n)
  {
    if n > 0 {
      PowMul(b, m, n - 1);
      assert m * n == m + m * (n - 1);
      PowAdd(b, m, m * (n - 1));
    }
  }

  lemma {:induction false} PowOfProduct(a: int, b: int, n: nat)
    ensures Pow(a * b, n) == Pow(a, n) * Pow(b, n)
  {
    if n > 0 {
      PowOfProduct(a, b, n - 1);
      MulShuffle(a, b, Pow(a, n - 1), Pow(b, n - 1));
    }
  }

  lemma {:induction false} PowPositive(b: int, n: nat)
    requires b > 0
    ensures Pow(b, n) > 0
  {
    if n > 0 {
      PowPositive(b, n - 1);
    }
  }

  /** The number a byte string denotes, most significant byte first. */
  function BigEndian(s: seq<byte>): nat {
    if s == [] then 0 else BigEndian(s[..|s| - 1]) * 256 + s[|s| - 1]
  }

  lemma {:induction false} BigEndianConcat(s: seq<byte>, t: seq<byte>)
    ensures BigEndian(s + t) == BigEndian(s) * Pow(256, |t|) + BigEndian(t)
    decreases |t|
  {
    if t == [] {
      assert s + t == s;
    } else {
      var t' := t[..|t| - 1];
      assert (s + t)[..|s + t| - 1] == s + t';
      BigEndianConcat(s, t');
      assert BigEndian(s + t) == BigEndian(s + t') * 256 + t[|t| - 1];
      assert BigEndian(t) == BigEndian(t') * 256 + t[|t| - 1];
      assert Pow(256, |t|) == 256 * Pow(256, |t'|);
      hide BigEndian, Pow;
      HornerStep(BigEndian(s), Pow(256, |t'|), BigEndian(t'), t[|t| - 1]);
    }
  }

  lemma HornerStep(b: int, w: int, t: int, x: int)
    ensures (b * w + t) * 256 + x == b * (256 * w) + (t * 256 + x)
  {
  }

  lemma {:induction false} BigEndianBound(s: seq<byte>)
    ensures BigEndian(s) < Pow(256, |s|)
  {
    if s != [] {
      BigEndianBound(s[..|s| - 1]);
    }
  }

  lemma ThirtyTwoBytes()
    ensures Pow(256, 32) == 0x1_0000000000000000_0000000000000000_0000000000000000_0000000000000000
  {
    var a := Pow(256, 8);
    assert a == 0x1_0000_0000_0000_0000 by {
      PowAdd(256, 4, 4);
      assert Pow(256, 4) == 256 * Pow(256, 3) == 0x10000 * Pow(256, 2) == 0x1000000 * Pow(256, 1);
    }
    PowAdd(256, 8, 8);
    PowAdd(256, 16, 16);
  }

  /** The shortest byte string of a number, as big.Int.Bytes returns it. */
  function MinimalBytes(n: nat): (s: seq<byte>)
    ensures s != [] ==> s[0] != 0
    ensures n == 0 <==> s == []
  {
    if n == 0 then [] else MinimalBytes(n / 256) + [n % 256]
  }

  lemma {:induction false} MinimalBytesValue(n: nat)
    ensures BigEndian(MinimalBytes(n)) == n
  {
    if n > 0 {
      MinimalBytesValue(n / 256);
      var s := MinimalBytes(n);
      assert s[..|s| - 1] == MinimalBytes(n / 256);
    }
  }

  lemma {:induction false} MinimalBytesLength(n: nat, k: nat)
    requires n < Pow(256, k)
    ensures |MinimalBytes(n)| <= k
  {
    if n > 0 {
      assert n / 256 < Pow(256, k - 1);
      MinimalBytesLength(n / 256, k - 1);
    }
  }

  /** Left padding with zero bytes. */
  function Padded(s: seq<byte>, size: nat): (r: seq<byte>)
    requires |s| <= size
    ensures |r| == size
  {
    seq(size - |s|, _ => 0) + s
  }

  lemma {:induction false} ZerosValue(k: nat)
    ensures BigEndian(seq(k, _ => 0)) == 0
  {
    if k > 0 {
      ZerosValue(k - 1);
      var z: seq<byte> := seq(k, _ => 0);
      assert z[..k - 1] == seq(k - 1, _ => 0);
    }
  }

  lemma PaddedValue(s: seq<byte>, size: nat)
    requires |s| <= size
    ensures BigEndian(Padded(s, size)) == BigEndian(s)
  {
    hide BigEndian, Pow;
    ZerosValue(size - |s|);
    BigEndianConcat(seq(size - |s|, _ => 0), s);
  }

  /** Byte strings of one length are determined by their value. */
  lemma {:induction false} BigEndianInjective(s: seq<byte>, t: seq<byte>)
    requires |s| == |t| && BigEndian(s) == BigEndian(t)
    ensures s == t
  {
    if s != [] {
      var m := |s| - 1;
      BigEndianInjective(s[..m], t[..m]);
      assert s == s[..m] + [s[m]] && t == t[..m] + [t[m]];
    }
  }
}
