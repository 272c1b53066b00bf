/** Numbers on the script stack: little-endian magnitude with a sign bit on top. */
module ScriptNum {
  import opened Bytes
  import opened Wrappers

  const MIN_INT64: int := -0x8000_0000_0000_0000
  const MAX_INT64: int := 0x7FFF_FFFF_FFFF_FFFF

  datatype NumResult = Number(n: int) | TooBig | NotMinimal

  /** 256 to the power i. */
  function Weight(i: nat): (w: nat)
    ensures w > 0
  {
    if i == 0 then 1 else 256 * Weight(i - 1)
  }

  /** Least significant byte first. */
  function LittleEndian(v: seq<byte>): nat {
    if v == [] then 0 else LittleEndian(v[..|v| - 1]) + v[|v| - 1] as int * Weight(|v| - 1)
  }

  lemma LittleEndianAppend(v: seq<byte>, b: byte)
    ensures LittleEndian(v + [b]) == LittleEndian(v) + b as int * Weight(|v|)
  {
    assert (v + [b])[..|v|] == v;
  }

  lemma {:induction false} LittleEndianBound(v: seq<byte>)
    ensures LittleEndian(v) < Weight(|v|)
  {
    if v != [] {
      LittleEndianBound(v[..|v| - 1]);
      TopByte(v[|v| - 1], Weight(|v| - 1));
    }
  }

  lemma {:induction false} LittleEndianZero(v: seq<byte>)
    ensures LittleEndian(v) == 0 <==> forall i :: 0 <= i < |v| ==> v[i] == 0
  {
    if v != [] {
      var k := |v| - 1;
      LittleEndianZero(v[..k]);
      ScaleTop(v[k], Weight(k));
      assert forall i :: 0 <= i < k ==> v[..k][i] == v[i];
    }
  }

  lemma TopByte(b: byte, w: nat)
    ensures b as int * w <= 255 * w
  {
  }

  lemma {:induction false} LittleEndianInjective(v: seq<byte>, u: seq<byte>)
    requires |v| == |u| && LittleEndian(v) == LittleEndian(u)
    ensures v == u
  {
    if v != [] {
      var m := |v| - 1;
      LittleEndianBound(v[..m]);
      LittleEndianBound(u[..m]);
      SameDigits(LittleEndian(v[..m]), v[m], LittleEndian(u[..m]), u[m], Weight(m));
      LittleEndianInjective(v[..m], u[..m]);
      assert v == v[..m] + [v[m]] && u == u[..m] + [u[m]];
    }
  }

  lemma SameDigits(a: int, b: int, c: int, d: int, w: int)
    requires 0 <= a < w && 0 <= c < w && a + b * w == c + d * w
    ensures a == c && b == d
  {
    assert (b - d) * w == c - a;
    OnlyZero(b - d, w);
  }

  lemma OnlyZero(k: int, w: int)
    requires w > 0 && -w < k * w < w
    ensures k == 0
  {
  }

  /** The number a byte string stands for. */
  function Value(v: seq<byte>): int {
    if v == [] then 0
    else
      var last := v[|v| - 1];
      var magnitude: int := LittleEndian(v[..|v| - 1] + [last % 128]);
      if last >= 128 then -magnitude else magnitude
  }

  /** checkMinimalDataEncoding. */
  predicate Minimal(v: seq<byte>) {
    v == [] || v[|v| - 1] % 128 != 0 || (|v| > 1 && v[|v| - 2] >= 128)
  }

  /** The magnitude of a string of k + 1 bytes without its sign. */
  lemma Magnitude(v: seq<byte>)
    requires v != []
    ensures var k := |v| - 1; var low := LittleEndian(v[..k]); var top := v[k] as int % 128;
            && low < Weight(k)
            && Value(v) == if v[k] >= 128 then -(low + top * Weight(k)) else low + top * Weight(k)
  {
    var k := |v| - 1;
    LittleEndianBound(v[..k]);
    LittleEndianAppend(v[..k], v[k] % 128);
  }

  /** A minimal string is as long as its magnitude needs: with one byte less it would not fit. */
  lemma MinimalSize(v: seq<byte>)
    requires v != [] && Minimal(v)
    ensures var m := if Value(v) < 0 then -Value(v) else Value(v);
            0 < m && m < 128 * Weight(|v| - 1) && (|v| > 1 ==> m >= 128 * Weight(|v| - 2))
    ensures v[|v| - 1] >= 128 <==> Value(v) < 0
  {
    hide Value, LittleEndian, Weight;
    Magnitude(v);
    var k := |v| - 1;
    var low, top := LittleEndian(v[..k]), v[k] as int % 128;
    ScaleTop(top, Weight(k));
    if k > 0 {
      TopOfPrefix(v, k);
      ScaleTop(v[k - 1], Weight(k - 1));
    }
  }

  lemma TopOfPrefix(v: seq<byte>, k: nat)
    requires 0 < k <= |v|
    ensures LittleEndian(v[..k]) >= v[k - 1] as int * Weight(k - 1) && Weight(k) == 256 * Weight(k - 1)
  {
    var u := v[..k];
    assert LittleEndian(u) == LittleEndian(u[..k - 1]) + u[k - 1] as int * Weight(k - 1);
  }

  lemma ScaleTop(t: nat, w: nat)
    requires w > 0
    ensures t == 0 ==> t * w == 0
    ensures t >= 1 ==> t * w >= w
    ensures t <= 127 ==> t * w <= 127 * w
    ensures t >= 128 ==> t * w >= 128 * w
  {
  }

  lemma {:induction false} WeightMonotone(i: nat, j: nat)
    requires i <= j
    ensures Weight(i) <= Weight(j)
  {
    if i < j {
      WeightMonotone(i, j - 1);
    }
  }

  /** Each number has one minimal encoding. */
  lemma MinimalUnique(v: seq<byte>, u: seq<byte>)
    requires Minimal(v) && Minimal(u) && Value(v) == Value(u)
    ensures v == u
  {
    if v == [] || u == [] {
      if v != [] {
        MinimalSize(v);
      }
      if u != [] {
        MinimalSize(u);
      }
    } else {
      SameLength(v, u);
      SameLength(u, v);
      SameBytes(v, u);
    }
  }

  lemma SameLength(v: seq<byte>, u: seq<byte>)
    requires v != [] && u != [] && Minimal(v) && Minimal(u) && Value(v) == Value(u)
    ensures |v| <= |u|
  {
    MinimalSize(v);
    MinimalSize(u);
    hide Value, Minimal;
    if |v| > |u| {
      WeightMonotone(|u| - 1, |v| - 2);
    }
  }

  lemma SameBytes(v: seq<byte>, u: seq<byte>)
    requires v != [] && |v| == |u| && Minimal(v) && Minimal(u) && Value(v) == Value(u)
    ensures v == u
  {
    hide *;
    MinimalSize(v);
    MinimalSize(u);
    Magnitude(v);
    Magnitude(u);
    var k := |v| - 1;
    SameDigits(LittleEndian(v[..k]), v[k] as int % 128, LittleEndian(u[..k]), u[k] as int % 128, Weight(k));
    LittleEndianInjective(v[..k], u[..k]);
    SameTop(v[k], u[k]);
    assert v == v[..k] + [v[k]] && u == u[..k] + [u[k]];
  }

  lemma SameTop(a: byte, b: byte)
    requires a as int % 128 == b as int % 128 && (a >= 128 <==> b >= 128)
    ensures a == b
  {
  }

  // Encoding.

  /** The bytes of a magnitude; the loop of Bytes. */
  method MagnitudeBytes(m: int) returns (result: seq<byte>)
    requires m <= MAX_INT64
    ensures m <= 0 ==> result == []
    ensures m > 0 ==> LittleEndian(result) == m && result != [] && |result| <= 8 && result[|result| - 1] != 0
  {
    result := [];
    var n := m;
    while n > 0
      invariant m > 0 ==> 0 <= n && LittleEndian(result) + n * Weight(|result|) == m
      invariant m > 0 && n == 0 ==> result != [] && result[|result| - 1] != 0
      invariant m <= 0 ==> n == m && result == []
    {
      ByteStep(result, n);
      assert n / 256 == 0 ==> n % 256 != 0;
      result := result + [n % 256];
      n := n / 256;
    }
    if m > 0 {
      FitsEight(result, m);
    }
  }

  lemma ByteStep(result: seq<byte>, n: nat)
    ensures LittleEndian(result + [n % 256]) + n / 256 * Weight(|result| + 1) == LittleEndian(result) + n * Weight(|result|)
  {
    LittleEndianAppend(result, n % 256);
    Horner(n, Weight(|result|));
  }

  lemma Horner(n: nat, w: nat)
    ensures n % 256 * w + n / 256 * (256 * w) == n * w
  {
    var q, r := n / 256, n % 256;
    assert n == 256 * q + r;
    assert (256 * q + r) * w == q * (256 * w) + r * w;
  }

  lemma FitsEight(v: seq<byte>, m: nat)
    requires v != [] && v[|v| - 1] != 0 && LittleEndian(v) == m <= MAX_INT64
    ensures |v| <= 8
  {
    var k := |v| - 1;
    ScaleTop(v[k], Weight(k));
    if k >= 8 {
      WeightMonotone(8, k);
      WeightOfEight();
    }
  }

  lemma WeightOfEight()
    ensures Weight(8) == 0x1_0000_0000_0000_0000
  {
    assert Weight(4) == 256 * Weight(3) == 0x10000 * Weight(2) == 0x1000000 * Weight(1);
    assert Weight(8) == 256 * Weight(7) == 0x10000 * Weight(6) == 0x1000000 * Weight(5);
  }

  /** Negation of a 64-bit integer. */
  function Negated(n: int): int {
    if n == MIN_INT64 then n else -n
  }

  /** scriptNum.Bytes: the minimal encoding.  The least 64-bit integer is its own negative, so no byte is
  collected for it and the look at the last byte is out of range: None. */
  method Encode(n: int) returns (r: Option<seq<byte>>)
    requires MIN_INT64 <= n <= MAX_INT64
    ensures r.None? <==> n == MIN_INT64
    ensures r.Some? ==> Minimal(r.value) && Value(r.value) == n && |r.value| <= 8
  {
    if n == 0 {
      return Some([]);
    }
    var isNegative := n < 0;
    var m := if isNegative then Negated(n) else n;
    var result := MagnitudeBytes(m);
    if |result| == 0 {
      return None;
    }
    var k := |result| - 1;
    ghost var plain := result;
    if result[k] >= 128 {
      WithSignByte(plain, isNegative, m);
      result := result + [if isNegative then 0x80 else 0x00];
    } else if isNegative {
      WithSignBit(plain);
      result := result[k := result[k] + 0x80];
    } else {
      Unsigned(plain);
    }
    return Some(result);
  }

  /** A set top bit needs another byte; below 2^63 that still leaves at most eight. */
  lemma WithSignByte(v: seq<byte>, negative: bool, m: int)
    requires v != [] && v[|v| - 1] >= 128 && LittleEndian(v) == m <= MAX_INT64 && |v| <= 8
    ensures var r := v + [if negative then 0x80 else 0x00];
            Minimal(r) && Value(r) == (if negative then -m else m) && |r| <= 8
  {
    var r := v + [if negative then 0x80 else 0x00];
    Magnitude(r);
    assert r[..|v|] == v;
    ScaleTop(v[|v| - 1], Weight(|v| - 1));
    if |v| == 8 {
      WeightOfEight();
    }
  }

  lemma WithSignBit(v: seq<byte>)
    requires v != [] && 0 < v[|v| - 1] < 128
    ensures var r := v[|v| - 1 := v[|v| - 1] + 0x80]; Minimal(r) && Value(r) == -(LittleEndian(v) as int)
  {
    var k := |v| - 1;
    var r := v[k := v[k] + 0x80];
    assert r[..k] == v[..k];
    assert r[k] == v[k] + 0x80;
    hide *;
    TopBits(v[k]);
    TopSet(r);
    Magnitude(r);
    ClearSign(v);
  }

  lemma TopBits(b: byte)
    requires b < 128
    ensures b as int % 128 == b as int && (b + 0x80) as int % 128 == b as int
  {
  }

  lemma TopSet(v: seq<byte>)
    requires v != [] && v[|v| - 1] as int % 128 != 0
    ensures Minimal(v)
  {
  }

  lemma Unsigned(v: seq<byte>)
    requires v != [] && 0 < v[|v| - 1] < 128
    ensures Minimal(v) && Value(v) == LittleEndian(v)
  {
    hide Value, LittleEndian, Weight;
    Magnitude(v);
    ClearSign(v);
  }

  // Decoding.

  /** makeScriptNum.  The accumulator is kept as its unsigned 64-bit pattern. */
  method MakeScriptNum(v: seq<byte>, requireMinimal: bool, scriptNumLen: nat) returns (r: NumResult)
    requires |v| <= 8 || |v| > scriptNumLen
    ensures r == if |v| > scriptNumLen then TooBig
                 else if requireMinimal && !Minimal(v) then NotMinimal
                 else Number(Value(v))
  {
    if |v| > scriptNumLen {
      return TooBig;
    }
    if requireMinimal && !Minimal(v) {
      return NotMinimal;
    }
    if |v| == 0 {
      return Number(0);
    }
    hide Value, LittleEndian, Weight, Minimal;
    var result: nat := Accumulate(v);
    Magnitude(v);
    ClearSign(v);
    if v[|v| - 1] >= 128 {
      result := result - 0x80 * Weight(|v| - 1);
      return Number(0 - result);
    }
    return Number(result);
  }

  /** The little-endian accumulator. */
  method Accumulate(v: seq<byte>) returns (result: nat)
    ensures result == LittleEndian(v)
  {
    hide Weight;
    result := 0;
    for i := 0 to |v|
      invariant result == LittleEndian(v[..i])
    {
      assert v[..i + 1] == v[..i] + [v[i]];
      LittleEndianAppend(v[..i], v[i]);
      result := result + v[i] as int * Weight(i);
    }
    assert v[..|v|] == v;
  }

  lemma ClearSign(v: seq<byte>)
    requires v != []
    ensures var k := |v| - 1; var top := v[k] as int % 128;
            LittleEndian(v) == LittleEndian(v[..k]) + top * Weight(k) + if v[k] >= 128 then 0x80 * Weight(k) else 0
  {
    var k := |v| - 1;
    SplitTop(v[k], Weight(k));
  }

  lemma SplitTop(b: byte, w: nat)
    ensures b as int * w == b as int % 128 * w + if b >= 128 then 0x80 * w else 0
  {
    var low: int, high: int := b as int % 128, if b >= 128 then 0x80 else 0;
    assert b as int == low + high;
    AddScaled(low, high, w);
  }

  lemma AddScaled(a: int, b: int, w: int)
    ensures (a + b) * w == a * w + b * w
  {
  }

  /** Encoding what a minimal string of at most eight bytes stands for gives the string back. */
  method Reencode(v: seq<byte>) returns (u: seq<byte>)
    requires Minimal(v) && |v| <= 8
    ensures u == v
  {
    ValueRange(v);
    var r := Encode(Value(v));
    u := r.value;
    MinimalUnique(u, v);
  }

  lemma ValueRange(v: seq<byte>)
    requires |v| <= 8
    ensures MIN_INT64 < Value(v) <= MAX_INT64
  {
    if v != [] {
      Magnitude(v);
      var k := |v| - 1;
      ScaleTop(v[k] as int % 128, Weight(k));
      WeightMonotone(k, 7);
      WeightOfEight();
      assert Weight(8) == 256 * Weight(7);
      hide Weight;
    }
  }

  // Encoding as a function.

  function MagnitudeOf(m: nat): (v: seq<byte>)
    ensures m > 0 ==> v != [] && v[|v| - 1] != 0
  {
    if m == 0 then [] else [m % 256] + MagnitudeOf(m / 256)
  }

  /** The minimal encoding of a number. */
  function EncodeNum(n: int): seq<byte> {
    var negative := n < 0;
    var v := MagnitudeOf(if negative then -n else n);
    if v == [] then []
    else
      var k := |v| - 1;
      if v[k] >= 128 then v + [if negative then 0x80 else 0x00]
      else if negative then v[k := v[k] + 0x80]
      else v
  }

  lemma {:induction false} MagnitudeOfValue(m: nat)
    ensures LittleEndian(MagnitudeOf(m)) == m
  {
    if m > 0 {
      MagnitudeOfValue(m / 256);
      LittleEndianCons(m % 256, MagnitudeOf(m / 256));
    }
  }

  lemma {:induction false} LittleEndianCons(b: byte, v: seq<byte>)
    ensures LittleEndian([b] + v) == b as int + 256 * LittleEndian(v)
  {
    if v == [] {
      assert [b] + v == [] + [b];
      LittleEndianAppend([], b);
    } else {
      var k := |v| - 1;
      LittleEndianCons(b, v[..k]);
      LittleEndianAppend([b] + v[..k], v[k]);
      assert [b] + v == [b] + v[..k] + [v[k]];
      ScaleAgain(v[k], Weight(k));
    }
  }

  lemma ScaleAgain(b: byte, w: nat)
    ensures b as int * (256 * w) == 256 * (b as int * w)
  {
  }

  lemma EncodeNumCorrect(n: int)
    ensures Minimal(EncodeNum(n)) && Value(EncodeNum(n)) == n
  {
    var m: nat := if n < 0 then -n else n;
    MagnitudeOfValue(m);
    hide MagnitudeOf;
    var v := MagnitudeOf(m);
    if v != [] {
      if v[|v| - 1] >= 128 {
        ExtraByte(v, n < 0);
      } else if n < 0 {
        WithSignBit(v);
      } else {
        Unsigned(v);
      }
    }
  }

  lemma ExtraByte(v: seq<byte>, negative: bool)
    requires v != [] && v[|v| - 1] >= 128
    ensures var r := v + [if negative then 0x80 else 0x00]; var m: int := LittleEndian(v);
            Minimal(r) && Value(r) == if negative then -m else m
  {
    var r := v + [if negative then 0x80 else 0x00];
    hide Value, LittleEndian, Weight;
    Magnitude(r);
    assert r[..|v|] == v;
  }

  /** Small numbers have short encodings. */
  lemma EncodeNumLength(n: int)
    requires MIN_INT64 < n <= MAX_INT64
    ensures |EncodeNum(n)| <= 8
  {
    EncodeNumCorrect(n);
    var v := EncodeNum(n);
    if |v| > 8 {
      MinimalSize(v);
      WeightMonotone(7, |v| - 2);
      WeightOfEight();
      assert false;
    }
  }
}
