/** Signatures in DER: the serialiser, the parser and the strict check of BIP 66, with integers as in
section 8.3 of ITU-T X.690. */
module Signature {
  import opened Bytes
  import opened Endomorphism
  import opened Wrappers

  datatype Sig = Sig(r: int, s: int)

  const HALF_ORDER: int := N / 2

  const MIN_SIG_LEN: nat := 8
  const MAX_SIG_LEN: nat := 72

  // Integers.

  /** canonicalizeInt: big-endian, never empty, and never with a leading set bit. */
  function CanonicalInt(n: nat): (b: seq<byte>)
    ensures b != [] && b[0] < 128
  {
    var b := MinimalBytes(n);
    if b == [] then [0] else if b[0] >= 128 then [0] + b else b
  }

  /** Not negative, and no byte more than needed. */
  predicate Canonical(b: seq<byte>)
    requires b != []
  {
    b[0] < 128 && !(|b| > 1 && b[0] == 0 && b[1] < 128)
  }

  lemma CanonicalIntValue(n: nat)
    ensures BigEndian(CanonicalInt(n)) == n && Canonical(CanonicalInt(n))
  {
    MinimalBytesValue(n);
    var b := MinimalBytes(n);
    if b == [] {
      assert [0][..0] == [];
    } else if b[0] >= 128 {
      LeadingZero(b);
    }
    hide BigEndian;
  }

  lemma LeadingZero(b: seq<byte>)
    ensures BigEndian([0] + b) == BigEndian(b)
  {
    BigEndianConcat([0], b);
    assert [0][..0] == [];
  }

  lemma CanonicalIntLength(n: nat)
    requires n < N
    ensures |CanonicalInt(n)| <= 33
  {
    ThirtyTwoBytes();
    MinimalBytesLength(n, 32);
  }

  /** Each number has one canonical encoding. */
  lemma CanonicalUnique(b: seq<byte>)
    requires b != [] && Canonical(b)
    ensures CanonicalInt(BigEndian(b)) == b
  {
    hide BigEndian;
    if b[0] != 0 {
      MinimalUnique(b);
    } else if |b| == 1 {
      assert b == [0];
      ZeroByte();
    } else {
      var c := b[1..];
      assert b == [0] + c;
      LeadingZero(c);
      MinimalUnique(c);
    }
  }

  lemma ZeroByte()
    ensures BigEndian([0]) == 0
  {
    assert [0][..0] == [];
  }

  /** A string without leading zeros is the shortest for its value. */
  lemma {:induction false} MinimalUnique(b: seq<byte>)
    requires b != [] && b[0] != 0
    ensures MinimalBytes(BigEndian(b)) == b
  {
    var k := |b| - 1;
    if k == 0 {
      assert b[..0] == [] && b == [b[0]];
    } else {
      MinimalUnique(b[..k]);
      assert b == b[..k] + [b[k]];
    }
  }

  // The format.

  /** The DER sequence of two integers. */
  ghost predicate IsDer(b: seq<byte>, rb: seq<byte>, sb: seq<byte>) {
    && |rb| < 256 && |sb| < 256 && 4 + |rb| + |sb| < 256
    && b == [0x30, (4 + |rb| + |sb|) as byte, 0x02, |rb| as byte] + rb + [0x02, |sb| as byte] + sb
  }

  lemma DerUnique(b: seq<byte>, c: seq<byte>, rb: seq<byte>, sb: seq<byte>)
    requires IsDer(b, rb, sb) && IsDer(c, rb, sb)
    ensures b == c
  {
  }

  lemma DerParts(b: seq<byte>, rb: seq<byte>, sb: seq<byte>)
    requires IsDer(b, rb, sb)
    ensures |b| == 6 + |rb| + |sb| && b[0] == 0x30 && b[1] == |b| - 2 && b[2] == 0x02 && b[3] == |rb|
    ensures b[4..4 + |rb|] == rb && b[4 + |rb|] == 0x02 && b[5 + |rb|] == |sb| && b[6 + |rb|..] == sb
    ensures (rb != [] ==> b[4] == rb[0]) && (|rb| > 1 ==> b[5] == rb[1])
    ensures (sb != [] ==> b[6 + |rb|] == sb[0]) && (|sb| > 1 ==> b[7 + |rb|] == sb[1])
  {
  }

  lemma DerIntro(b: seq<byte>)
    requires |b| >= 4 && b[0] == 0x30 && b[1] == |b| - 2 && b[2] == 0x02
    requires var rLen := b[3] as int; 6 + rLen <= |b| && b[4 + rLen] == 0x02 && 6 + rLen + b[5 + rLen] as int == |b|
    ensures var rLen := b[3] as int; IsDer(b, b[4..4 + rLen], b[6 + rLen..])
  {
    var rLen := b[3] as int;
    var rb, sb := b[4..4 + rLen], b[6 + rLen..];
    assert b == b[..4] + rb + b[4 + rLen..6 + rLen] + sb;
    assert b[..4] == [0x30, b[1], 0x02, b[3]];
    assert b[4 + rLen..6 + rLen] == [0x02, b[5 + rLen]];
  }

  /** The S value that is serialised: the smaller of S and N - S. */
  function LowS(s: int): int {
    if s > HALF_ORDER then N - s else s
  }

  function Abs(n: int): nat {
    if n < 0 then -n else n
  }

  /** The two integers framed, each length in one byte. */
  function Framed(rb: seq<byte>, sb: seq<byte>): seq<byte> {
    [0x30, (4 + |rb| + |sb|) % 256, 0x02, |rb| % 256] + rb + [0x02, |sb| % 256] + sb
  }

  /** Serialize: what is encoded are absolute values, and lengths are truncated to a byte.  For R and S in
  [1, N-1] that is the DER sequence of R and the smaller of S and N - S. */
  method Serialize(sig: Sig) returns (bytes: seq<byte>)
    ensures bytes == Framed(CanonicalInt(Abs(sig.r)), CanonicalInt(Abs(LowS(sig.s))))
    ensures 1 <= sig.r < N && 1 <= sig.s < N ==> IsDer(bytes, CanonicalInt(sig.r), CanonicalInt(LowS(sig.s)))
  {
    hide CanonicalInt, IsDer, LowS;
    var sigS := LowS(sig.s);
    var rb := CanonicalInt(Abs(sig.r));
    var sb := CanonicalInt(Abs(sigS));
    var length := 6 + |rb| + |sb|;
    var b := new byte[length](_ => 0);
    Copy(b, 0, [0x30, (length - 2) % 256, 0x02, |rb| % 256]);
    Copy(b, 4, rb);
    var offset := |rb| + 4;
    Copy(b, offset, [0x02, |sb| % 256]);
    Copy(b, offset + 2, sb);
    bytes := b[..];
    assert b[..length] == bytes;
    if 1 <= sig.r < N && 1 <= sig.s < N {
      LowSRange(sig.s);
      CanonicalIntLength(sig.r);
      CanonicalIntLength(LowS(sig.s));
      FramedIsDer(rb, sb);
    }
  }

  lemma LowSRange(s: int)
    requires 1 <= s < N
    ensures 1 <= LowS(s) < N
  {
  }

  lemma FramedIsDer(rb: seq<byte>, sb: seq<byte>)
    requires 4 + |rb| + |sb| < 256
    ensures IsDer(Framed(rb, sb), rb, sb)
  {
  }

  /** Bytes copied into a buffer whose part before them is done. */
  method Copy(b: array<byte>, at: nat, data: seq<byte>)
    requires at + |data| <= b.Length
    modifies b
    ensures b[..at + |data|] == old(b[..at]) + data
  {
    for i := 0 to |data|
      invariant b[..at + i] == old(b[..at]) + data[..i]
    {
      b[at + i] := data[i];
      assert b[..at + i + 1] == b[..at + i] + [data[i]];
      assert data[..i + 1] == data[..i] + [data[i]];
    }
    assert data[..|data|] == data;
  }

  // The parser.

  /** What the parser accepts: a sequence of two non-empty integers in range, possibly followed by other
  bytes, in canonical form if that is asked for. */
  ghost predicate Accepts(s: seq<byte>, der: bool, rb: seq<byte>, sb: seq<byte>) {
    && rb != [] && sb != [] && 4 + |rb| + |sb| <= 253 && 6 + |rb| + |sb| <= |s|
    && IsDer(s[..6 + |rb| + |sb|], rb, sb)
    && 1 <= BigEndian(rb) < N && 1 <= BigEndian(sb) < N
    && (der ==> Canonical(rb) && Canonical(sb))
  }

  /** parseSig.  The sum of the length byte and 2 wraps at 256. */
  method ParseSig(sigStr: seq<byte>, der: bool, ghost rb: seq<byte>, ghost sb: seq<byte>) returns (r: Option<Sig>)
    ensures Accepts(sigStr, der, rb, sb) ==> r == Some(Sig(BigEndian(rb), BigEndian(sb)))
    ensures r.Some? ==> Reads(sigStr, der, r.value)
  {
    hide BigEndian, Accepts, Reads, IsDer, N;
    if Accepts(sigStr, der, rb, sb) {
      AcceptsParts(sigStr, der, rb, sb);
    }
    if |sigStr| < MIN_SIG_LEN {
      return None;
    }
    if sigStr[0] != 0x30 {
      return None;
    }
    var siglen := sigStr[1] as int;
    var total := (siglen + 2) % 256;
    if total > |sigStr| || total < MIN_SIG_LEN {
      return None;
    }
    var s := sigStr[..total];
    var index := 2;
    if s[index] != 0x02 {
      return None;
    }
    index := index + 1;
    var rLen := s[index] as int;
    index := index + 1;
    if rLen <= 0 || rLen > |s| - index - 3 {
      return None;
    }
    var rBytes := s[index..index + rLen];
    if der && !Canonical(rBytes) {
      return None;
    }
    index := index + rLen;
    if s[index] != 0x02 {
      return None;
    }
    index := index + 1;
    var sLen := s[index] as int;
    index := index + 1;
    if sLen <= 0 || sLen > |s| - index {
      return None;
    }
    var sBytes := s[index..index + sLen];
    if der && !Canonical(sBytes) {
      return None;
    }
    index := index + sLen;
    if index != |s| {
      return None;
    }
    assert sBytes == s[6 + rLen..];
    if BigEndian(rBytes) < 1 || BigEndian(sBytes) < 1 || BigEndian(rBytes) >= N || BigEndian(sBytes) >= N {
      return None;
    }
    DerIntro(s);
    AcceptsIntro(sigStr, der, rBytes, sBytes);
    return Some(Sig(BigEndian(rBytes), BigEndian(sBytes)));
  }

  /** Some pair of integers is accepted and gives the signature. */
  ghost predicate Reads(s: seq<byte>, der: bool, sig: Sig) {
    exists rb, sb :: Accepts(s, der, rb, sb) && sig == Sig(BigEndian(rb), BigEndian(sb))
  }

  lemma AcceptsIntro(s: seq<byte>, der: bool, rb: seq<byte>, sb: seq<byte>)
    requires rb != [] && sb != [] && 4 + |rb| + |sb| <= 253 && 6 + |rb| + |sb| <= |s|
    requires IsDer(s[..6 + |rb| + |sb|], rb, sb)
    requires 1 <= BigEndian(rb) < N && 1 <= BigEndian(sb) < N && (der ==> Canonical(rb) && Canonical(sb))
    ensures Reads(s, der, Sig(BigEndian(rb), BigEndian(sb)))
  {
    hide IsDer, BigEndian;
    assert Accepts(s, der, rb, sb);
  }

  lemma AcceptsParts(s: seq<byte>, der: bool, rb: seq<byte>, sb: seq<byte>)
    requires Accepts(s, der, rb, sb)
    ensures var n := 6 + |rb| + |sb|;
            n <= |s| && rb != [] && sb != [] && var t := s[..n];
            && 8 <= n <= 255 && s[0] == 0x30 && s[1] == n - 2 && t[2] == 0x02 && t[3] == |rb| > 0
            && t[4..4 + |rb|] == rb && t[4 + |rb|] == 0x02 && t[5 + |rb|] == |sb| > 0 && t[6 + |rb|..] == sb
            && 1 <= BigEndian(rb) < N && 1 <= BigEndian(sb) < N && (der ==> Canonical(rb) && Canonical(sb))
  {
    DerParts(s[..6 + |rb| + |sb|], rb, sb);
  }

  // The strict check.

  datatype Strict =
    | Ok | TooShort | TooLong | InvalidSeqID | InvalidDataLen | MissingSTypeID | MissingSLen | InvalidSLen
    | InvalidRIntID | ZeroRLen | NegativeR | TooMuchRPadding | InvalidSIntID | ZeroSLen | NegativeS
    | TooMuchSPadding | HighS

  /** checkSignatureEncoding with some flag set; lowS is the flag for low S values. */
  function StrictCheck(sig: seq<byte>, lowS: bool): Strict {
    var sigLen := |sig|;
    if sigLen < MIN_SIG_LEN then TooShort
    else if sigLen > MAX_SIG_LEN then TooLong
    else if sig[0] != 0x30 then InvalidSeqID
    else if sig[1] as int != sigLen - 2 then InvalidDataLen
    else
      var rLen := sig[3] as int;
      var sTypeOffset := 4 + rLen;
      var sLenOffset := sTypeOffset + 1;
      if sTypeOffset >= sigLen then MissingSTypeID
      else if sLenOffset >= sigLen then MissingSLen
      else
        var sOffset := sLenOffset + 1;
        var sLen := sig[sLenOffset] as int;
        if sOffset + sLen != sigLen then InvalidSLen
        else if sig[2] != 0x02 then InvalidRIntID
        else if rLen == 0 then ZeroRLen
        else if sig[4] >= 128 then NegativeR
        else if rLen > 1 && sig[4] == 0 && sig[5] < 128 then TooMuchRPadding
        else if sig[sTypeOffset] != 0x02 then InvalidSIntID
        else if sLen == 0 then ZeroSLen
        else if sig[sOffset] >= 128 then NegativeS
        else if sLen > 1 && sig[sOffset] == 0 && sig[sOffset + 1] < 128 then TooMuchSPadding
        else if lowS && BigEndian(sig[sOffset..sOffset + sLen]) > HALF_ORDER then HighS
        else Ok
  }

  /** What passes the strict check: a whole sequence of two canonical integers of at most 72 bytes. */
  ghost predicate IsStrict(b: seq<byte>, lowS: bool, rb: seq<byte>, sb: seq<byte>) {
    && IsDer(b, rb, sb) && MIN_SIG_LEN <= |b| <= MAX_SIG_LEN && rb != [] && sb != [] && Canonical(rb) && Canonical(sb)
    && (lowS ==> BigEndian(sb) <= HALF_ORDER)
  }

  lemma StrictAccepts(b: seq<byte>, lowS: bool, rb: seq<byte>, sb: seq<byte>)
    requires IsStrict(b, lowS, rb, sb)
    ensures StrictCheck(b, lowS) == Ok
  {
    DerParts(b, rb, sb);
    hide BigEndian, IsDer;
    assert b[6 + |rb|..6 + |rb| + |sb|] == sb;
  }

  lemma StrictParts(b: seq<byte>, lowS: bool) returns (rb: seq<byte>, sb: seq<byte>)
    requires StrictCheck(b, lowS) == Ok
    ensures IsStrict(b, lowS, rb, sb)
  {
    hide BigEndian;
    var rLen := b[3] as int;
    rb, sb := b[4..4 + rLen], b[6 + rLen..];
    DerIntro(b);
    assert b[6 + rLen..6 + rLen + b[5 + rLen] as int] == sb;
  }

  /** The strict check accepts exactly the strict encodings. */
  lemma StrictExactly(b: seq<byte>, lowS: bool)
    ensures StrictCheck(b, lowS) == Ok <==> exists rb, sb :: IsStrict(b, lowS, rb, sb)
  {
    hide StrictCheck, IsStrict;
    if StrictCheck(b, lowS) == Ok {
      var rb, sb := StrictParts(b, lowS);
    }
    if exists rb, sb :: IsStrict(b, lowS, rb, sb) {
      var rb, sb :| IsStrict(b, lowS, rb, sb);
      StrictAccepts(b, lowS, rb, sb);
    }
  }

  // Round trips.

  /** What is serialised passes the strict check, low S included, and is accepted by the parser. */
  lemma SerializedIsStrict(sig: Sig, b: seq<byte>)
    requires 1 <= sig.r < N && 1 <= sig.s < N && IsDer(b, CanonicalInt(sig.r), CanonicalInt(LowS(sig.s)))
    ensures IsStrict(b, true, CanonicalInt(sig.r), CanonicalInt(LowS(sig.s)))
    ensures Accepts(b, true, CanonicalInt(sig.r), CanonicalInt(LowS(sig.s)))
  {
    hide CanonicalInt, BigEndian, IsDer, Canonical;
    var rb, sb := CanonicalInt(sig.r), CanonicalInt(LowS(sig.s));
    CanonicalIntValue(sig.r);
    CanonicalIntValue(LowS(sig.s));
    CanonicalIntLength(sig.r);
    CanonicalIntLength(LowS(sig.s));
    DerParts(b, rb, sb);
    assert b[..6 + |rb| + |sb|] == b;
  }

  /** Serialising and parsing returns R and the smaller of S and N - S. */
  method SerializeParse(sig: Sig, lowS: bool) returns (strict: Strict, parsed: Option<Sig>)
    requires 1 <= sig.r < N && 1 <= sig.s < N
    ensures strict == Ok && parsed == Some(Sig(sig.r, if sig.s <= N - sig.s then sig.s else N - sig.s))
  {
    hide CanonicalInt, BigEndian, StrictCheck, Accepts, IsStrict, IsDer;
    var b := Serialize(sig);
    ghost var rb, sb := CanonicalInt(sig.r), CanonicalInt(LowS(sig.s));
    SerializedIsStrict(sig, b);
    StrictMonotone(b, lowS, rb, sb);
    StrictAccepts(b, lowS, rb, sb);
    strict := StrictCheck(b, lowS);
    parsed := ParseSig(b, true, rb, sb);
    CanonicalIntValue(sig.r);
    CanonicalIntValue(LowS(sig.s));
    HalfOfOrder();
  }

  lemma StrictMonotone(b: seq<byte>, lowS: bool, rb: seq<byte>, sb: seq<byte>)
    requires IsStrict(b, true, rb, sb)
    ensures IsStrict(b, lowS, rb, sb)
  {
  }

  lemma HalfOfOrder()
    ensures N == 2 * HALF_ORDER + 1
  {
  }

  /** Bytes that pass the strict low-S check and the parser are reproduced by serialising. */
  method ParseSerialize(b: seq<byte>) returns (again: Option<seq<byte>>)
    requires StrictCheck(b, true) == Ok
    ensures again.Some? ==> again.value == b
    ensures again.Some? <==> exists sig :: Reads(b, true, sig)
  {
    hide BigEndian, StrictCheck, CanonicalInt, Canonical, IsDer;
    ghost var rb, sb := StrictParts(b, true);
    var sig := ParseSig(b, true, rb, sb);
    if sig.None? {
      NothingRead(b, rb, sb);
      return None;
    }
    StrictReads(b, rb, sb, sig.value);
    var again' := Serialize(sig.value);
    DerUnique(b, again', rb, sb);
    return Some(again');
  }

  /** Strict bytes are read in one way only. */
  lemma StrictReads(b: seq<byte>, rb: seq<byte>, sb: seq<byte>, sig: Sig)
    requires IsStrict(b, true, rb, sb) && Reads(b, true, sig)
    ensures sig == Sig(BigEndian(rb), BigEndian(sb)) && 1 <= sig.r < N && 1 <= sig.s < N
    ensures CanonicalInt(sig.r) == rb && CanonicalInt(LowS(sig.s)) == sb
  {
    hide BigEndian, CanonicalInt;
    var rc, sc :| Accepts(b, true, rc, sc) && sig == Sig(BigEndian(rc), BigEndian(sc));
    SameParts(b, rb, sb, rc, sc);
    CanonicalUnique(rb);
    CanonicalUnique(sb);
  }

  lemma SameParts(b: seq<byte>, rb: seq<byte>, sb: seq<byte>, rc: seq<byte>, sc: seq<byte>)
    requires IsStrict(b, true, rb, sb) && Accepts(b, true, rc, sc)
    ensures rb == rc && sb == sc
  {
    hide BigEndian, Canonical;
    DerParts(b, rb, sb);
    AcceptsParts(b, true, rc, sc);
    var n := 6 + |rc| + |sc|;
    assert b[..n][1] == b[1] && b[..n][3] == b[3];
    assert n == |b| && b[..n] == b;
  }

  lemma NothingRead(b: seq<byte>, rb: seq<byte>, sb: seq<byte>)
    requires IsStrict(b, true, rb, sb) && !Accepts(b, true, rb, sb)
    ensures !exists sig :: Reads(b, true, sig)
  {
    if exists sig :: Reads(b, true, sig) {
      var sig :| Reads(b, true, sig);
      var rc, sc :| Accepts(b, true, rc, sc) && sig == Sig(BigEndian(rc), BigEndian(sc));
      SameParts(b, rb, sb, rc, sc);
      assert false;
    }
  }
}
