/** Non-adjacent form of a byte string: algorithm 3.30 of the Guide to Elliptic Curve Cryptography. */
module Naf {
  import opened Bytes

  ghost function Two(j: nat): (r: nat)
    ensures r > 0
  {
    if j == 0 then 1 else 2 * Two(j - 1)
  }

  /** Digits are -1, 0 or 1, least significant first. */
  ghost predicate Digits(d: seq<int>) {
    forall t :: 0 <= t < |d| ==> -1 <= d[t] <= 1
  }

  /** The bits of the digits equal to `which`. */
  ghost function Pack(d: seq<int>, which: int): nat {
    if d == [] then 0
    else Pack(d[..|d| - 1], which) + (if d[|d| - 1] == which then Two(|d| - 1) else 0)
  }

  lemma {:induction false} PackBound(d: seq<int>, which: int)
    ensures Pack(d, which) < Two(|d|)
  {
    if d != [] {
      PackBound(d[..|d| - 1], which);
    }
  }

  lemma PackLast(d: seq<int>, x: int, which: int)
    ensures Pack(d + [x], which) == Pack(d, which) + (if x == which then Two(|d|) else 0)
  {
    assert (d + [x])[..|d|] == d;
  }

  lemma ByteRange(d: seq<int>, which: int)
    requires |d| <= 8
    ensures Pack(d, which) < 256
  {
    PackBound(d, which);
    TwoMonotone(|d|, 8);
    assert Two(8) == 2 * Two(7) == 4 * Two(6) == 8 * Two(5) == 16 * Two(4) == 32 * Two(3) == 64 * Two(2);
  }

  lemma {:induction false} TwoMonotone(i: nat, j: nat)
    requires i <= j
    ensures Two(i) <= Two(j)
  {
    if i < j {
      TwoMonotone(i, j - 1);
    }
  }

  /** No two neighbouring digits are both nonzero. */
  ghost predicate NonAdjacent(d: seq<int>) {
    forall t :: 0 < t < |d| ==> d[t] == 0 || d[t - 1] == 0
  }

  /** The digit and carry for one bit. */
  ghost function DigitOf(cur: bool, next: bool, carry: bool): int {
    if cur == carry then 0 else if next then -1 else 1
  }

  ghost function CarryOf(cur: bool, next: bool, carry: bool): bool {
    if cur == carry then carry else next
  }

  /** After j bits: the digits, and what is left of the byte with the carry, make up the byte. */
  ghost predicate Recoded(cur: byte, carryIn: bool, j: nat, d: seq<int>, carry: bool, left: nat) {
    Weighed(cur, carryIn, j, d, carry, left) && Shaped(cur, carryIn, j, d, carry, left)
  }

  ghost predicate Weighed(cur: byte, carryIn: bool, j: nat, d: seq<int>, carry: bool, left: nat) {
    |d| == j && Pack(d, 1) - Pack(d, -1) + Rest(j, left, carry) == cur + Unit(carryIn)
  }

  ghost predicate Shaped(cur: byte, carryIn: bool, j: nat, d: seq<int>, carry: bool, left: nat) {
    && j <= 8 && |d| == j && Digits(d) && NonAdjacent(d)
    && left < Two(8 - j)
    && (j == 0 ==> carry == carryIn && left == cur)
    && (j > 0 ==> (d[0] != 0 <==> (cur % 2 == 1) != carryIn))
    && (j > 0 && d[j - 1] != 0 && j < 8 ==> carry == (left % 2 == 1))
  }

  ghost function Unit(c: bool): int {
    if c then 1 else 0
  }

  /** The weight of the unread bits and the carry. */
  ghost function Rest(j: nat, left: nat, carry: bool): int {
    Two(j) * (left + Unit(carry))
  }

  ghost function SignedBit(j: nat, digit: int): int {
    if digit == 1 then Two(j) else if digit == -1 then 0 - Two(j) else 0
  }

  lemma SplitBit(j: nat, left: nat, carry: bool, next: bool)
    ensures var bit := left % 2 == 1;
            Rest(j, left, carry)
            == SignedBit(j, DigitOf(bit, next, carry)) + Rest(j + 1, left / 2, CarryOf(bit, next, carry))
  {
    var bit := left % 2 == 1;
    var digit, c := DigitOf(bit, next, carry), Unit(CarryOf(bit, next, carry));
    assert left + Unit(carry) == digit + 2 * (left / 2 + c);
    DistributeTwo(Two(j), digit, left / 2 + c);
  }

  lemma DistributeTwo(t: int, a: int, b: int)
    ensures t * (a + 2 * b) == t * a + (2 * t) * b
  {
  }

  lemma PackDigit(d: seq<int>, digit: int)
    requires -1 <= digit <= 1
    ensures Pack(d + [digit], 1) - Pack(d + [digit], -1) == Pack(d, 1) - Pack(d, -1) + SignedBit(|d|, digit)
  {
    PackLast(d, digit, 1);
    PackLast(d, digit, -1);
  }

  lemma WeighBit(cur: byte, carryIn: bool, j: nat, d: seq<int>, carry: bool, left: nat, next: bool)
    requires Weighed(cur, carryIn, j, d, carry, left)
    ensures var bit := left % 2 == 1;
            Weighed(cur, carryIn, j + 1, d + [DigitOf(bit, next, carry)], CarryOf(bit, next, carry), left / 2)
  {
    hide Pack, Two, Rest, SignedBit;
    PackDigit(d, DigitOf(left % 2 == 1, next, carry));
    SplitBit(j, left, carry, next);
  }

  lemma ShapeBit(cur: byte, carryIn: bool, j: nat, d: seq<int>, carry: bool, left: nat, next: bool)
    requires j < 8 && Shaped(cur, carryIn, j, d, carry, left)
    requires j < 7 ==> next == ((left / 2) % 2 == 1)
    ensures var bit := left % 2 == 1;
            Shaped(cur, carryIn, j + 1, d + [DigitOf(bit, next, carry)], CarryOf(bit, next, carry), left / 2)
  {
    var digit := DigitOf(left % 2 == 1, next, carry);
    Halve(left, 7 - j);
    hide Two, Digits, NonAdjacent;
    Extend(d, digit);
    var d' := d + [digit];
    assert |d'| == j + 1 && d'[j] == digit && (j > 0 ==> d'[0] == d[0]);
  }

  lemma Halve(left: nat, j: nat)
    requires left < Two(j + 1)
    ensures left / 2 < Two(j)
  {
  }

  lemma RecodeBit(cur: byte, carryIn: bool, j: nat, d: seq<int>, carry: bool, left: nat, next: bool)
    requires j < 8 && Recoded(cur, carryIn, j, d, carry, left)
    requires j < 7 ==> next == ((left / 2) % 2 == 1)
    ensures var bit := left % 2 == 1;
            Recoded(cur, carryIn, j + 1, d + [DigitOf(bit, next, carry)], CarryOf(bit, next, carry), left / 2)
  {
    hide Weighed, Shaped;
    WeighBit(cur, carryIn, j, d, carry, left, next);
    ShapeBit(cur, carryIn, j, d, carry, left, next);
  }

  lemma Extend(d: seq<int>, digit: int)
    requires Digits(d) && NonAdjacent(d) && -1 <= digit <= 1
    requires d != [] && d[|d| - 1] != 0 ==> digit == 0
    ensures Digits(d + [digit]) && NonAdjacent(d + [digit])
  {
  }

  /** Recodes one byte.  `next` is the lowest bit of the byte above. */
  method RecodeByte(cur: byte, next: bool, carryIn: bool)
    returns (p: byte, n: byte, carry: bool, ghost d: seq<int>)
    ensures IsNafByte(p, n, d)
    ensures p - n + (if carry then 256 else 0) == cur + (if carryIn then 1 else 0)
    ensures d[0] != 0 <==> (cur % 2 == 1) != carryIn
    ensures d[7] != 0 ==> carry == next
  {
    hide Recoded, Digits, NonAdjacent, Two, Pack;
    p, n, carry, d := 0, 0, carryIn, [];
    var curByte: byte := cur;
    StartByte(cur, carryIn);
    for j := 0 to 8
      invariant |d| == j && Recoded(cur, carryIn, j, d, carry, curByte)
      invariant p == Pack(d, 1) && n == Pack(d, -1)
      invariant j == 8 && d[7] != 0 ==> carry == next
    {
      var curIsOne := curByte % 2 == 1;
      var nextIsOne := if j == 7 then next else (curByte / 2) % 2 == 1;
      ghost var digit := DigitOf(curIsOne, nextIsOne, carry);
      RecodeBit(cur, carryIn, j, d, carry, curByte, nextIsOne);
      DigitBits(cur, carryIn, j, d, carry, curByte, digit);
      var bit := Shift(j);
      if carry {
        if !curIsOne {
          if nextIsOne {
            n := n + bit;
          } else {
            carry := false;
            p := p + bit;
          }
        }
      } else if curIsOne {
        if nextIsOne {
          n := n + bit;
          carry := true;
        } else {
          p := p + bit;
        }
      }
      d := d + [digit];
      curByte := curByte / 2;
    }
    ByteDone(cur, carryIn, d, carry, curByte);
  }

  lemma ByteDone(cur: byte, carryIn: bool, d: seq<int>, carry: bool, left: nat)
    requires Recoded(cur, carryIn, 8, d, carry, left)
    ensures |d| == 8 && Digits(d) && NonAdjacent(d)
    ensures Pack(d, 1) - Pack(d, -1) + (if carry then 256 else 0) == cur + (if carryIn then 1 else 0)
    ensures d[0] != 0 <==> (cur % 2 == 1) != carryIn
  {
    EightBits();
    hide Pack, Digits, NonAdjacent;
  }

  lemma StartByte(cur: byte, carryIn: bool)
    ensures Recoded(cur, carryIn, 0, [], carryIn, cur) && Pack([], 1) == 0 && Pack([], -1) == 0
  {
    EightBits();
  }

  lemma DigitBits(cur: byte, carryIn: bool, j: nat, d: seq<int>, carry: bool, left: nat, digit: int)
    requires j < 8 && Recoded(cur, carryIn, j, d, carry, left)
    ensures |d| == j
    ensures Pack(d + [digit], 1) == Pack(d, 1) + (if digit == 1 then Two(j) else 0) < 256
    ensures Pack(d + [digit], -1) == Pack(d, -1) + (if digit == -1 then Two(j) else 0) < 256
  {
    PackLast(d, digit, 1);
    PackLast(d, digit, -1);
    ByteRange(d + [digit], 1);
    ByteRange(d + [digit], -1);
  }

  lemma EightBits()
    ensures Two(0) == 1 && Two(8) == 256
  {
    assert Two(8) == 2 * Two(7) == 4 * Two(6) == 8 * Two(5) == 16 * Two(4) == 32 * Two(3) == 64 * Two(2);
  }

  /** 1 << j */
  function Shift(j: nat): (r: nat)
    ensures r == Two(j)
  {
    if j == 0 then 1 else 2 * Shift(j - 1)
  }

  /** One byte of a non-adjacent form. */
  ghost predicate IsNafByte(p: byte, n: byte, e: seq<int>) {
    |e| == 8 && Digits(e) && NonAdjacent(e) && p == Pack(e, 1) && n == Pack(e, -1)
  }

  /** pos and neg are the packed plus and minus digits of a non-adjacent form: d holds eight
  digits per byte, and neighbouring digits of neighbouring bytes are not both nonzero. */
  ghost predicate IsNaf(pos: seq<byte>, neg: seq<byte>, d: seq<seq<int>>) {
    && |pos| == |neg| == |d|
    && (forall i :: 0 <= i < |d| ==> IsNafByte(pos[i], neg[i], d[i]))
    && (forall i :: 0 < i < |d| ==> d[i - 1][0] == 0 || d[i][7] == 0)
  }

  lemma NafPrepend(pos: seq<byte>, neg: seq<byte>, d: seq<seq<int>>, p: byte, n: byte, e: seq<int>)
    requires IsNaf(pos, neg, d) && IsNafByte(p, n, e)
    requires d != [] ==> d[0][7] == 0 || e[0] == 0
    ensures IsNaf([p] + pos, [n] + neg, [e] + d)
  {
    hide IsNafByte;
  }

  lemma BigEndianPrepend(b: byte, s: seq<byte>)
    ensures BigEndian([b] + s) == b * Pow(256, |s|) + BigEndian(s)
  {
    SingleByte(b);
    hide BigEndian, Pow;
    BigEndianConcat([b], s);
  }

  lemma SingleByte(b: byte)
    ensures BigEndian([b]) == b
  {
    assert [b][..0] == [];
  }

  /** Recoding keeps the value: pos minus neg, plus the carry, is the part of k read so far. */
  ghost predicate Balanced(pos: seq<byte>, neg: seq<byte>, carry: bool, k: seq<byte>) {
    |pos| == |neg| == |k|
    && BigEndian(pos) - BigEndian(neg) + (if carry then Pow(256, |k|) else 0) == BigEndian(k)
  }

  lemma BalancedPrepend(pos: seq<byte>, neg: seq<byte>, carryIn: bool, k: seq<byte>, p: byte, n: byte, carry: bool, b: byte)
    requires Balanced(pos, neg, carryIn, k)
    requires p - n + (if carry then 256 else 0) == b + (if carryIn then 1 else 0)
    ensures Balanced([p] + pos, [n] + neg, carry, [b] + k)
  {
    BigEndianPrepend(p, pos);
    BigEndianPrepend(n, neg);
    BigEndianPrepend(b, k);
    var w := Pow(256, |k|);
    assert Pow(256, |k| + 1) == 256 * w;
    hide BigEndian, Pow;
    WeightedCarry(p, n, b, if carry then 1 else 0, if carryIn then 1 else 0, w);
  }

  lemma WeightedCarry(p: int, n: int, b: int, c: int, c0: int, w: int)
    requires p - n + 256 * c == b + c0
    ensures p * w - n * w + c * (256 * w) == b * w + c0 * w
  {
    assert (p - n + 256 * c) * w == (b + c0) * w;
    assert (p - n + 256 * c) * w == p * w - n * w + c * (256 * w);
  }

  /** The state of the recoding loop before byte i - 1. */
  ghost predicate RecodedFrom(k: seq<byte>, i: nat, pos: seq<byte>, neg: seq<byte>, carry: bool, d: seq<seq<int>>)
    requires i <= |k|
  {
    && IsNaf(pos, neg, d)
    && Balanced(pos, neg, carry, k[i..])
    && (d != [] && d[0][7] != 0 ==> carry == LowBit(k, i))
    && (d == [] ==> !carry)
  }

  predicate LowBit(k: seq<byte>, i: nat)
    requires i <= |k|
  {
    i > 0 && k[i - 1] % 2 == 1
  }

  lemma RecodeStep(k: seq<byte>, i: nat, pos: seq<byte>, neg: seq<byte>, carry: bool, d: seq<seq<int>>,
                   p: byte, n: byte, c: bool, e: seq<int>)
    requires i < |k| && RecodedFrom(k, i + 1, pos, neg, carry, d)
    requires IsNafByte(p, n, e)
    requires p - n + (if c then 256 else 0) - (if carry then 1 else 0) == k[i]
    requires (e[0] != 0 <==> (k[i] % 2 == 1) != carry) && (e[7] != 0 ==> c == LowBit(k, i))
    ensures RecodedFrom(k, i, [p] + pos, [n] + neg, c, [e] + d)
  {
    hide IsNaf, Balanced, Digits, NonAdjacent, Pack;
    NafPrepend(pos, neg, d, p, n, e);
    BalancedPrepend(pos, neg, carry, k[i + 1..], p, n, c, k[i]);
    assert k[i..] == [k[i]] + k[i + 1..];
  }

  method NAF(k: seq<byte>) returns (pos: seq<byte>, neg: seq<byte>, ghost d: seq<seq<int>>)
    ensures IsNaf(pos, neg, d)
    ensures BigEndian(pos) - BigEndian(neg) == BigEndian(k)
    ensures |k| <= |pos| <= |k| + 1
  {
    hide *;
    var retPos := new byte[|k| + 1](_ => 0);
    var retNeg := new byte[|k| + 1](_ => 0);
    var carry := false;
    d := [];
    NothingRecoded(k);
    assert retPos[|k| + 1..] == [] && retNeg[|k| + 1..] == [];
    for i := |k| downto 0
      invariant retPos[0] == retNeg[0] == 0
      invariant RecodedFrom(k, i, retPos[i + 1..], retNeg[i + 1..], carry, d)
    {
      ghost var was, wasNeg := retPos[i + 2..], retNeg[i + 2..];
      var p, n, c, e := RecodeByte(k[i], LowBit(k, i), carry);
      RecodeStep(k, i, was, wasNeg, carry, d, p, n, c, e);
      retPos[i + 1], retNeg[i + 1] := p, n;
      assert retPos[i + 1..] == [p] + was && retNeg[i + 1..] == [n] + wasNeg;
      carry, d := c, [e] + d;
    }
    Finished(k, retPos[1..], retNeg[1..], carry, d);
    if carry {
      ghost var was, wasNeg := retPos[1..], retNeg[1..];
      retPos[0] := 1;
      d := [TOP_DIGITS] + d;
      assert retPos[..] == [1] + was && retNeg[..] == [0] + wasNeg;
      return retPos[..], retNeg[..], d;
    }
    return retPos[1..], retNeg[1..], d;
  }

  lemma NothingRecoded(k: seq<byte>)
    ensures RecodedFrom(k, |k|, [], [], false, [])
  {
  }

  ghost const TOP_DIGITS: seq<int> := [1, 0, 0, 0, 0, 0, 0, 0]

  /** A carry out of the last byte becomes one more leading digit. */
  lemma Finished(k: seq<byte>, pos: seq<byte>, neg: seq<byte>, carry: bool, d: seq<seq<int>>)
    requires RecodedFrom(k, 0, pos, neg, carry, d)
    ensures |pos| == |neg| == |k|
    ensures !carry ==> IsNaf(pos, neg, d) && BigEndian(pos) - BigEndian(neg) == BigEndian(k)
    ensures carry ==> IsNaf([1] + pos, [0] + neg, [TOP_DIGITS] + d)
    ensures carry ==> BigEndian([1] + pos) - BigEndian([0] + neg) == BigEndian(k)
  {
    assert k[0..] == k;
    if carry {
      TopByte();
      hide Pack, Pow, BigEndian;
      NafPrepend(pos, neg, d, 1, 0, TOP_DIGITS);
      BigEndianPrepend(1, pos);
      BigEndianPrepend(0, neg);
    }
  }

  lemma TopByte()
    ensures IsNafByte(1, 0, TOP_DIGITS)
  {
    TopZeros(7);
    assert [1] + Zeros(7) == TOP_DIGITS;
  }

  ghost function Zeros(j: nat): seq<int> {
    seq(j, _ => 0)
  }

  lemma {:induction false} TopZeros(j: nat)
    ensures Pack([1] + Zeros(j), 1) == 1 && Pack([1] + Zeros(j), -1) == 0
  {
    if j == 0 {
      PackLast([], 1, 1);
      PackLast([], 1, -1);
      assert [1] + Zeros(0) == [] + [1];
    } else {
      TopZeros(j - 1);
      PackLast([1] + Zeros(j - 1), 0, 1);
      PackLast([1] + Zeros(j - 1), 0, -1);
      assert [1] + Zeros(j) == [1] + Zeros(j - 1) + [0];
    }
  }
}
