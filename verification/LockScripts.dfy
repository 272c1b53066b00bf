/** Building and reading the time locks, and what spending them takes. */
module LockScripts {
  import opened Bytes
  import opened Wrappers
  import opened ScriptNum
  import opened ScriptStack
  import opened Script
  import opened ScriptBuilder
  import opened ScriptOps
  import opened Conditionals
  import opened ScriptVm
  import opened ScriptRuns
  import opened TimeLocks

  datatype Address =
    | PubKeyAddress(data: Item)
    | PubKeyHashAddress(data: Item)
    | ScriptHashAddress(data: Item)
    | WitnessPubKeyHashAddress(data: Item)
    | WitnessScriptHashAddress(data: Item)
    | OtherAddress

  /** What the constructors of addresses ensure. */
  predicate WellSized(a: Address) {
    match a
    case PubKeyAddress(k) => |k| == 33 || |k| == 65
    case PubKeyHashAddress(h) => |h| == 20
    case ScriptHashAddress(h) => |h| == 20
    case WitnessPubKeyHashAddress(h) => |h| == 20
    case WitnessScriptHashAddress(h) => |h| == 32
    case OtherAddress => true
  }

  const MIN_INT32: int := -0x8000_0000
  const MAX_INT32: int := 0x7fff_ffff

  // Opcodes.

  function AddressPops(a: Address): seq<Pop>
    requires WellSized(a)
  {
    match a
    case PubKeyAddress(k) => [PushPop(k), Op(0xac)]
    case PubKeyHashAddress(h) => [Op(0x76), Op(0xa9), PushPop(h), Op(0x88), Op(0xac)]
    case ScriptHashAddress(h) => [Op(0xa9), PushPop(h), Op(0x87)]
    case WitnessPubKeyHashAddress(h) => [Op(0), PushPop(h)]
    case WitnessScriptHashAddress(h) => [Op(0), PushPop(h)]
    case OtherAddress => []
  }

  function HtlcPops(a: Address, period: int): seq<Pop>
    requires WellSized(a) && MIN_INT32 <= period <= MAX_INT32
  {
    [Op(0xb3), NumberPop(period), Op(0xa0), Op(0x63)] + AddressPops(a) + [Op(0x67), Op(0x6a), Op(0x68)]
  }

  function KeyPops(keys: Items): seq<Pop>
    requires KeySized(keys)
  {
    seq(|keys|, i requires 0 <= i < |keys| => PushPop(keys[i]))
  }

  predicate KeySized(keys: Items) {
    forall i :: 0 <= i < |keys| ==> |keys[i]| == 33 || |keys[i]| == 65
  }

  function LockPops(keys: Items, required: int, refund: Item, period: int): seq<Pop>
    requires KeySized(keys) && KeySized([refund]) && |keys| <= MAX_INT64
    requires MIN_INT64 < required <= MAX_INT64 && MIN_INT32 <= period <= MAX_INT32
  {
    assert KeySized([refund]) && [refund][0] == refund;
    MultiSigLockPops(NumberPop(period), NumberPop(required), KeyPops(keys), NumberPop(|keys|), PushPop(refund))
  }

  // Building.

  /** The bytes of the opcodes, as far as each has bytes. */
  ghost function Size(pops: seq<Pop>): nat {
    if Unparse(pops).Some? then |Unparse(pops).value| else 0
  }

  /** The builder holds the bytes of these opcodes, or failed because they are too many. */
  ghost predicate Built(b: Builder, pops: seq<Pop>)
    reads b
  {
    && Unparse(pops).Some? && (b.failed <==> Size(pops) > MAX_SCRIPT_SIZE)
    && (!b.failed ==> b.script == Unparse(pops).value)
  }

  method EmitOp(b: Builder, op: byte, ghost pops: seq<Pop>)
    requires Built(b, pops) && OpLength(op) == 1
    modifies b
    ensures Built(b, pops + [Op(op)]) && Size(pops + [Op(op)]) == Size(pops) + 1
  {
    hide Unparse;
    b.AddOp(op);
    assert PopBytes(Op(op)) == Some([op]);
    UnparseAppend(pops, Op(op));
  }

  method EmitData(b: Builder, data: Item, ghost pops: seq<Pop>)
    requires Built(b, pops) && |data| <= MAX_SCRIPT_ELEMENT_SIZE
    modifies b
    ensures Built(b, pops + [PushPop(data)]) && Size(pops + [PushPop(data)]) <= Size(pops) + |data| + 5
  {
    hide Unparse, PopBytes, PushPop;
    PushPopPushes(data);
    b.AddData(data);
    UnparseAppend(pops, PushPop(data));
  }

  method EmitNumber(b: Builder, n: int, ghost pops: seq<Pop>)
    requires Built(b, pops) && MIN_INT64 < n <= MAX_INT64
    modifies b
    ensures Built(b, pops + [NumberPop(n)]) && Size(pops + [NumberPop(n)]) <= Size(pops) + 13
  {
    hide Unparse, PopBytes, NumberPop;
    NumberSize(n);
    b.AddInt64(n);
    UnparseAppend(pops, NumberPop(n));
  }

  lemma NumberSize(n: int)
    requires MIN_INT64 < n <= MAX_INT64
    ensures PopBytes(NumberPop(n)).Some? && |PopBytes(NumberPop(n)).value| <= 13
  {
    NumberPopPushes(n);
    EncodeNumLength(n);
    PushPopPushes(EncodeNum(n));
    hide PushPop, EncodeNum;
  }

  method EmitAddress(b: Builder, a: Address, ghost pops: seq<Pop>)
    requires Built(b, pops) && WellSized(a)
    modifies b
    ensures Built(b, pops + AddressPops(a)) && Size(pops + AddressPops(a)) <= Size(pops) + 80
  {
    hide Unparse, PushPop, Size, Built;
    match a
    case PubKeyAddress(k) =>
      EmitData(b, k, pops);
      EmitOp(b, 0xac, pops + [PushPop(k)]);
      assert pops + [PushPop(k)] + [Op(0xac)] == pops + AddressPops(a);
    case PubKeyHashAddress(h) =>
      EmitOp(b, 0x76, pops);
      EmitOp(b, 0xa9, pops + [Op(0x76)]);
      EmitData(b, h, pops + [Op(0x76)] + [Op(0xa9)]);
      EmitOp(b, 0x88, pops + [Op(0x76)] + [Op(0xa9)] + [PushPop(h)]);
      EmitOp(b, 0xac, pops + [Op(0x76)] + [Op(0xa9)] + [PushPop(h)] + [Op(0x88)]);
      assert pops + [Op(0x76)] + [Op(0xa9)] + [PushPop(h)] + [Op(0x88)] + [Op(0xac)] == pops + AddressPops(a);
    case ScriptHashAddress(h) =>
      EmitOp(b, 0xa9, pops);
      EmitData(b, h, pops + [Op(0xa9)]);
      EmitOp(b, 0x87, pops + [Op(0xa9)] + [PushPop(h)]);
      assert pops + [Op(0xa9)] + [PushPop(h)] + [Op(0x87)] == pops + AddressPops(a);
    case WitnessPubKeyHashAddress(h) =>
      EmitOp(b, 0, pops);
      EmitData(b, h, pops + [Op(0)]);
      assert pops + [Op(0)] + [PushPop(h)] == pops + AddressPops(a);
    case WitnessScriptHashAddress(h) =>
      EmitOp(b, 0, pops);
      EmitData(b, h, pops + [Op(0)]);
      assert pops + [Op(0)] + [PushPop(h)] == pops + AddressPops(a);
    case OtherAddress =>
      assert pops + [] == pops;
  }

  function LockHead(period: int, compare: byte): seq<Pop>
    requires MIN_INT32 <= period <= MAX_INT32
  {
    [Op(0xb3), NumberPop(period), Op(compare), Op(0x63)]
  }

  lemma EmptyBuilt()
    ensures Unparse([]) == Some([]) && Size([]) == 0
  {
  }

  /** OP_INPUTAGE <period>, a comparison and OP_IF. */
  method StartLock(period: int, compare: byte) returns (b: Builder)
    requires MIN_INT32 <= period <= MAX_INT32 && OpLength(compare) == 1
    ensures fresh(b) && Built(b, LockHead(period, compare)) && Size(LockHead(period, compare)) <= 16
  {
    hide Unparse, NumberPop, Size;
    b := new Builder();
    EmptyBuilt();
    EmitOp(b, 0xb3, []);
    EmitNumber(b, period, [] + [Op(0xb3)]);
    EmitOp(b, compare, [] + [Op(0xb3)] + [NumberPop(period)]);
    EmitOp(b, 0x63, [] + [Op(0xb3)] + [NumberPop(period)] + [Op(compare)]);
    assert [] + [Op(0xb3)] + [NumberPop(period)] + [Op(compare)] + [Op(0x63)] == LockHead(period, compare);
  }

  /** HTLCScript: the bytes of the opcodes, for every supported address. */
  method HTLCScript(address: Address, lockPeriod: int) returns (script: Option<seq<byte>>)
    requires WellSized(address) && MIN_INT32 <= lockPeriod <= MAX_INT32
    ensures script.None? <==> address.OtherAddress?
    ensures script.Some? ==> script == Unparse(HtlcPops(address, lockPeriod))
  {
    hide Unparse, NumberPop, AddressPops, Size;
    var builder := StartLock(lockPeriod, 0xa0);
    if address.OtherAddress? {
      return None;
    }
    ghost var p := LockHead(lockPeriod, 0xa0);
    EmitAddress(builder, address, p);
    p := p + AddressPops(address);
    EmitOp(builder, 0x67, p);
    EmitOp(builder, 0x6a, p + [Op(0x67)]);
    EmitOp(builder, 0x68, p + [Op(0x67)] + [Op(0x6a)]);
    assert p + [Op(0x67)] + [Op(0x6a)] + [Op(0x68)] == HtlcPops(address, lockPeriod);
    return Some(builder.script);
  }

  method EmitKeys(b: Builder, keys: Items, ghost pops: seq<Pop>)
    requires Built(b, pops) && KeySized(keys)
    modifies b
    ensures Built(b, pops + KeyPops(keys))
  {
    hide Built, PushPop;
    assert pops == pops + KeyPops(keys)[..0];
    for i := 0 to |keys|
      invariant Built(b, pops + KeyPops(keys)[..i])
    {
      EmitData(b, keys[i], pops + KeyPops(keys)[..i]);
      assert pops + KeyPops(keys)[..i] + [PushPop(keys[i])] == pops + KeyPops(keys)[..i + 1];
    }
    assert KeyPops(keys)[..|keys|] == KeyPops(keys);
  }

  /** OP_ELSE <refund> OP_CHECKSIG OP_NIP OP_ENDIF. */
  method EmitRefund(b: Builder, refund: Item, ghost pops: seq<Pop>)
    requires Built(b, pops) && |refund| <= MAX_SCRIPT_ELEMENT_SIZE
    modifies b
    ensures Built(b, pops + [Op(0x67), PushPop(refund), Op(0xac), Op(0x77), Op(0x68)])
  {
    hide Built, PushPop;
    EmitOp(b, 0x67, pops);
    EmitData(b, refund, pops + [Op(0x67)]);
    EmitOp(b, 0xac, pops + [Op(0x67)] + [PushPop(refund)]);
    EmitOp(b, 0x77, pops + [Op(0x67)] + [PushPop(refund)] + [Op(0xac)]);
    EmitOp(b, 0x68, pops + [Op(0x67)] + [PushPop(refund)] + [Op(0xac)] + [Op(0x77)]);
    assert pops + [Op(0x67)] + [PushPop(refund)] + [Op(0xac)] + [Op(0x77)] + [Op(0x68)]
        == pops + [Op(0x67), PushPop(refund), Op(0xac), Op(0x77), Op(0x68)];
  }

  /** MultiSigLockScript, the keys in the order in which they are pushed. */
  method MultiSigLockScript(keys: Items, sigRequired: int, refund: Item, period: int) returns (script: Option<seq<byte>>)
    requires KeySized(keys) && KeySized([refund]) && |keys| <= MAX_INT64
    requires MIN_INT64 < sigRequired <= MAX_INT64 && MIN_INT32 <= period <= MAX_INT32
    ensures script.Some? <==> sigRequired <= |keys| && Size(LockPops(keys, sigRequired, refund, period)) <= MAX_SCRIPT_SIZE
    ensures script.Some? ==> script == Unparse(LockPops(keys, sigRequired, refund, period))
  {
    hide Unparse, NumberPop, PushPop, Size, Built;
    if |keys| < sigRequired {
      return None;
    }
    assert |refund| <= 65 by { assert [refund][0] == refund; }
    var builder := StartLock(period, 0x9f);
    ghost var head := LockHead(period, 0x9f);
    EmitNumber(builder, sigRequired, head);
    ghost var p := head + [NumberPop(sigRequired)];
    EmitKeys(builder, keys, p);
    p := p + KeyPops(keys);
    EmitNumber(builder, |keys|, p);
    p := p + [NumberPop(|keys|)];
    EmitOp(builder, 0xae, p);
    EmitRefund(builder, refund, p + [Op(0xae)]);
    Assembled(keys, sigRequired, refund, period);
    BuiltMeans(builder, LockPops(keys, sigRequired, refund, period));
    if builder.failed {
      return None;
    }
    return Some(builder.script);
  }

  lemma Assembled(keys: Items, required: int, refund: Item, period: int)
    requires KeySized(keys) && KeySized([refund]) && |keys| <= MAX_INT64 && |refund| <= 65
    requires MIN_INT64 < required <= MAX_INT64 && MIN_INT32 <= period <= MAX_INT32
    ensures LockHead(period, 0x9f) + [NumberPop(required)] + KeyPops(keys) + [NumberPop(|keys|)] + [Op(0xae)]
            + [Op(0x67), PushPop(refund), Op(0xac), Op(0x77), Op(0x68)]
            == LockPops(keys, required, refund, period)
  {
    hide NumberPop, PushPop;
  }

  lemma BuiltMeans(b: Builder, pops: seq<Pop>)
    requires Built(b, pops)
    ensures b.failed <==> Size(pops) > MAX_SCRIPT_SIZE
    ensures !b.failed ==> Unparse(pops) == Some(b.script)
  {
  }

  // Spending.

  lemma NumberPushes(n: int)
    requires MIN_INT64 < n <= MAX_INT64
    ensures PushesNumber(NumberPop(n), n)
  {
    NumberPopPushes(n);
    hide NumberPop, Pushed, Value;
  }

  lemma ItemPushes(data: Item)
    requires 2 <= |data| <= 75
    ensures PushesItem(PushPop(data), data)
  {
    PushPopPushes(data);
  }

  /** Where the parts of a hash time lock stand. */
  lemma HtlcLayout(a: Address, period: int)
    requires WellSized(a) && !a.OtherAddress? && MIN_INT32 <= period <= MAX_INT32
    ensures var script := HtlcPops(a, period);
            && IsLock(script, period) && ReturnsElse(script) && |script| == |AddressPops(a)| + 7
            && script[4..4 + |AddressPops(a)|] == AddressPops(a) && script[|script| - 1].op == 0x68
  {
    hide PushPop, NumberPop, Pushed, Value;
    NumberPushes(period);
    if |a.data| <= 75 {
      ItemPushes(a.data);
    }
    var script, inner := HtlcPops(a, period), AddressPops(a);
    forall k | 0 <= k < |inner|
      ensures !Conditional(inner[k].op) && script[4 + k] == inner[k]
    {
    }
  }

  lemma ParsesBack(pops: seq<Pop>, script: seq<byte>)
    requires Unparse(pops) == Some(script) && pops != []
    ensures Parse(script) == (pops, true) && script != []
  {
    ParseUnparse(pops);
  }

  /** No signature script, witness or flags spend a hash time lock up to its period. */
  lemma HtlcLocked(env: Env, sig: seq<byte>, script: seq<byte>, a: Address, period: int)
    requires WellSized(a) && !a.OtherAddress? && MIN_INT32 <= period <= MAX_INT32
    requires Unparse(HtlcPops(a, period)) == Some(script) && env.age <= period
    ensures !Accepts(env, sig, script)
  {
    hide *;
    if Accepts(env, sig, script) {
      HtlcLayout(a, period);
      ParsesBack(HtlcPops(a, period), script);
      var segwit, d := AcceptedRun(env, sig, script);
      LockHolds(env, segwit, HtlcPops(a, period), d, period);
    }
  }

  /** After the period a lock to a key or key hash also takes that key's signature. */
  ghost predicate KeySigned(env: Env, script: seq<Pop>, a: Address) {
    match a
    case PubKeyAddress(k) => SignedBy(env, script, k)
    case PubKeyHashAddress(h) => exists key :: env.ripemd160(env.sha256(key)) == h && SignedBy(env, script, key)
    case _ => true
  }

  lemma NotForwarded(a: Address, period: int)
    requires WellSized(a) && (a.PubKeyAddress? || a.PubKeyHashAddress?) && MIN_INT32 <= period <= MAX_INT32
    ensures var pops := HtlcPops(a, period); !PaysToScriptHash(pops) && !WitnessProgram(pops) && !HtlcWitness(pops)
  {
    hide NumberPop;
    var pops := HtlcPops(a, period);
    if a.PubKeyAddress? {
      assert pops[4] == PushPop(a.data) && pops[5] == Op(0xac) && |pops| == 9;
    } else {
      assert |pops| == 12;
    }
  }

  lemma HtlcSpent(env: Env, sig: seq<byte>, script: seq<byte>, a: Address, period: int)
    requires WellSized(a) && !a.OtherAddress? && MIN_INT32 <= period <= MAX_INT32
    requires Unparse(HtlcPops(a, period)) == Some(script) && Accepts(env, sig, script)
    ensures env.age > period && KeySigned(env, HtlcPops(a, period), a)
  {
    hide Unparse, PushPop, NumberPop, Accepts, FlatRun, IsLock, SignedBy, AsBoolSpec, Pushed, Value, Parse,
         PaysToScriptHash, WitnessProgram, HtlcWitness;
    if env.age <= period {
      HtlcLocked(env, sig, script, a, period);
      assert false;
    }
    if a.PubKeyAddress? || a.PubKeyHashAddress? {
      var pops := HtlcPops(a, period);
      HtlcLayout(a, period);
      ParsesBack(pops, script);
      NotForwarded(a, period);
      ItemPushes(a.data);
      var segwit, d := AcceptedRun(env, sig, script);
      if a.PubKeyAddress? {
        KeyRun(env, pops, d, period, a.data);
      } else {
        var key := KeyHashRun(env, pops, d, period, a.data);
      }
    }
  }

  /** Spending a multisig lock took the required signatures before the period and the refund key's from then on. */
  lemma MultiSigLockSpent(env: Env, sig: seq<byte>, script: seq<byte>, keys: Items, required: int, refund: Item, period: int)
    requires KeySized(keys) && KeySized([refund]) && |keys| <= MAX_INT64
    requires MIN_INT64 < required <= MAX_INT64 && MIN_INT32 <= period <= MAX_INT32
    requires Unparse(LockPops(keys, required, refund, period)) == Some(script) && Accepts(env, sig, script)
    ensures var pops := LockPops(keys, required, refund, period);
            if env.age < period then FullyMatched(env, pops, required, keys) else SignedBy(env, pops, refund)
  {
    hide Unparse, PushPop, NumberPop, Accepts, FlatRun, FullyMatched, SignedBy, AsBoolSpec, Pushed, Value, Parse,
         PaysToScriptHash, WitnessProgram, HtlcWitness, MultiSigLockPops, KeyPops;
    var pops := LockPops(keys, required, refund, period);
    LockPartsHold(keys, required, refund, period);
    LockLayout(NumberPop(period), NumberPop(required), KeyPops(keys), NumberPop(|keys|), PushPop(refund),
               period, required, keys, refund);
    ParsesBack(pops, script);
    var segwit, d := AcceptedRun(env, sig, script);
    LockedRun(env, pops, d, NumberPop(required), KeyPops(keys), NumberPop(|keys|), PushPop(refund), NumberPop(period),
              period, required, keys, refund);
  }

  lemma LockPartsHold(keys: Items, required: int, refund: Item, period: int)
    requires KeySized(keys) && KeySized([refund]) && |keys| <= MAX_INT64
    requires MIN_INT64 < required <= MAX_INT64 && MIN_INT32 <= period <= MAX_INT32
    ensures |refund| <= 65
    ensures LockParts(NumberPop(period), NumberPop(required), KeyPops(keys), NumberPop(|keys|), PushPop(refund),
                      period, required, keys, refund)
  {
    hide PushPop, NumberPop, PushesItem, PushesNumber;
    assert |refund| == 33 || |refund| == 65 by { assert [refund][0] == refund; }
    NumberPushes(period);
    NumberPushes(required);
    NumberPushes(|keys|);
    ItemPushes(refund);
    forall i | 0 <= i < |keys|
      ensures PushesItem(KeyPops(keys)[i], keys[i])
    {
      ItemPushes(keys[i]);
    }
  }

  // Reading the period back.

  function Int32(n: int): int {
    (n + 0x8000_0000) % 0x1_0000_0000 - 0x8000_0000
  }

  function SmallValue(op: byte): int {
    if op == 0 then 0 else op as int - 0x50
  }

  /** ExtractHTLCLockTime of a script with at least two opcodes. */
  method ExtractHTLCLockTime(pkScript: seq<byte>) returns (lockTime: Option<int>)
    requires Parse(pkScript).1 ==> |Parse(pkScript).0| >= 2
    ensures lockTime == if Parse(pkScript).1 then LockTimeOf(Parse(pkScript).0[1]) else None
  {
    hide Value, Minimal, Parse;
    var pops, ok := ParseScript(pkScript);
    if !ok {
      return None;
    }
    if SmallInt(pops[1].op) {
      return Some(SmallValue(pops[1].op));
    }
    var raw := MakeScriptNum(pops[1].data, true, 5);
    match raw
    case Number(n) => return Some(Int32(n));
    case TooBig => return None;
    case NotMinimal => return None;
  }

  function LockTimeOf(pop: Pop): Option<int> {
    if SmallInt(pop.op) then Some(SmallValue(pop.op))
    else if |pop.data| > 5 || !Minimal(pop.data) then None
    else Some(Int32(Value(pop.data)))
  }

  lemma SizeOfInt32(n: int)
    requires MIN_INT32 <= n <= MAX_INT32
    ensures |EncodeNum(n)| <= 5 && (|EncodeNum(n)| <= 4 <==> n != MIN_INT32)
  {
    EncodeNumCorrect(n);
    var v := EncodeNum(n);
    if v != [] {
      MinimalSize(v);
      WeightValues();
      if |v| > 5 {
        WeightMonotone(5, |v| - 1);
      }
    }
  }

  lemma WeightValues()
    ensures Weight(4) == 0x1_0000_0000 && Weight(3) == 0x100_0000 && Weight(5) == 0x100_0000_0000
  {
    assert Weight(2) == 0x10000 by { assert Weight(1) == 256 * Weight(0); }
    assert Weight(3) == 256 * Weight(2);
    assert Weight(4) == 256 * Weight(3);
  }

  /** A number that has no opcode of its own is carried as data. */
  lemma CarriedAsData(n: int)
    requires MIN_INT32 <= n <= MAX_INT32 && !(-1 <= n <= 16)
    ensures var pop := NumberPop(n); var v := EncodeNum(n);
            pop.data == v && 1 <= |v| <= 5 && pop.op == |v| && Minimal(v) && Value(v) == n
  {
    EncodeNumCorrect(n);
    SizeOfInt32(n);
    if |EncodeNum(n)| == 1 {
      OneByte(EncodeNum(n)[0]);
    }
    hide Value, Minimal, EncodeNum;
    assert Value([]) == 0 by { NoBytes(); }
    assert |EncodeNum(n)| == 1 ==> EncodeNum(n) == [EncodeNum(n)[0]];
  }

  lemma NoBytes()
    ensures Value([]) == 0 && Minimal([])
  {
  }

  lemma LargePeriod(n: int)
    requires MIN_INT32 <= n <= MAX_INT32 && !(-1 <= n <= 16)
    ensures LockTimeOf(NumberPop(n)) == Some(n)
  {
    CarriedAsData(n);
    Int32Fits(n);
    hide NumberPop, EncodeNum, Value, Minimal, Int32;
  }

  lemma Int32Fits(n: int)
    requires MIN_INT32 <= n <= MAX_INT32
    ensures Int32(n) == n
  {
  }

  lemma SecondOpcode(a: Address, period: int)
    requires WellSized(a) && MIN_INT32 <= period <= MAX_INT32
    ensures |HtlcPops(a, period)| >= 2 && HtlcPops(a, period)[1] == NumberPop(period)
  {
    hide NumberPop, AddressPops;
  }

  /** The period is read back from a built script, unless it is -1: that is pushed by an opcode without data. */
  lemma LockTimeRoundTrip(a: Address, period: int)
    requires WellSized(a) && MIN_INT32 <= period <= MAX_INT32
    ensures LockTimeOf(HtlcPops(a, period)[1]) == Some(period) <==> period != -1
    ensures period == -1 ==> LockTimeOf(HtlcPops(a, period)[1]) == Some(0)
  {
    hide *;
    SecondOpcode(a, period);
    if -1 <= period <= 16 {
      SmallPeriod(period);
    } else {
      LargePeriod(period);
    }
  }

  lemma SmallPeriod(period: int)
    requires -1 <= period <= 16
    ensures LockTimeOf(NumberPop(period)) == Some(if period == -1 then 0 else period)
  {
    NoBytes();
  }

  function ClassOf(a: Address): ScriptClass {
    match a
    case PubKeyAddress(_) => PubKeyTy
    case PubKeyHashAddress(_) => PubKeyHashTy
    case ScriptHashAddress(_) => ScriptHashTy
    case WitnessPubKeyHashAddress(_) => WitnessPubKeyHashTy
    case WitnessScriptHashAddress(_) => WitnessScriptHashTy
    case OtherAddress => NonStandard
  }

  /** A built lock is recognised, with the class of its address, exactly if the period is pushed as a small
  number or as at most four bytes of data. */
  lemma HtlcRecognised(a: Address, period: int)
    requires WellSized(a) && !a.OtherAddress? && MIN_INT32 <= period <= MAX_INT32
    ensures IsHtlc(HtlcPops(a, period)) == (true, ClassOf(a)) <==> period != -1 && period != MIN_INT32
    ensures period == -1 || period == MIN_INT32 ==> IsHtlc(HtlcPops(a, period)) == (false, NonStandard)
  {
    PeriodIsNumber(period);
    FrameHolds(a, period);
    hide NumberPop, NumberOp, HtlcFrame;
    var pops := HtlcPops(a, period);
    assert pops[4..4 + |AddressPops(a)|] == AddressPops(a);
  }

  lemma FrameHolds(a: Address, period: int)
    requires WellSized(a) && !a.OtherAddress? && MIN_INT32 <= period <= MAX_INT32
    ensures HtlcFrame(HtlcPops(a, period)) <==> NumberOp(NumberPop(period).op)
  {
    hide NumberPop, NumberOp, PushPop;
  }

  lemma PeriodIsNumber(period: int)
    requires MIN_INT32 <= period <= MAX_INT32
    ensures NumberOp(NumberPop(period).op) <==> period != -1 && period != MIN_INT32
  {
    if !(-1 <= period <= 16) {
      CarriedAsData(period);
      SizeOfInt32(period);
      hide NumberPop, EncodeNum, Value, Minimal;
    }
  }

  /** isMultiSig. */
  predicate IsMultiSig(pops: seq<Pop>) {
    var l := |pops|;
    && l >= 4 && SmallInt(pops[0].op) && SmallInt(pops[l - 2].op) && pops[l - 1].op == 0xae
    && l - 3 == SmallValue(pops[l - 2].op)
    && forall i :: 1 <= i < l - 2 ==> |pops[i].data| == 33 || |pops[i].data| == 65
  }

  /** isMultiSigLock. */
  predicate IsMultiSigLock(pops: seq<Pop>) {
    var l := |pops|;
    && l >= 13 && pops[0].op == 0xb3 && NumberOp(pops[1].op) && pops[2].op == 0x9f && pops[3].op == 0x63
    && pops[l - 5].op == 0x67 && (|pops[l - 4].data| == 33 || |pops[l - 4].data| == 65)
    && pops[l - 3].op == 0xac && pops[l - 2].op == 0x77 && pops[l - 1].op == 0x68
    && IsMultiSig(pops[4..l - 5])
  }

  lemma SmallNumberPop(n: int)
    requires MIN_INT64 < n <= MAX_INT64
    ensures SmallInt(NumberPop(n).op) <==> 0 <= n <= 16
    ensures 0 <= n <= 16 ==> SmallValue(NumberPop(n).op) == n
  {
    if !(-1 <= n <= 16) {
      EncodeNumCorrect(n);
      EncodeNumLength(n);
      LargeInteger(EncodeNum(n), n);
      NoBytes();
      if |EncodeNum(n)| == 1 {
        OneByte(EncodeNum(n)[0]);
      }
      hide EncodeNum, Value, Minimal;
    }
  }

  function MultiSigPops(keys: Items, required: int): seq<Pop>
    requires KeySized(keys) && |keys| <= MAX_INT64 && MIN_INT64 < required <= MAX_INT64
  {
    [NumberPop(required)] + KeyPops(keys) + [NumberPop(|keys|), Op(0xae)]
  }

  lemma InnerRecognised(keys: Items, required: int)
    requires KeySized(keys) && MIN_INT64 < required <= |keys| <= MAX_INT64
    ensures IsMultiSig(MultiSigPops(keys, required)) <==> 1 <= |keys| <= 16 && 0 <= required
  {
    SmallNumberPop(required);
    SmallNumberPop(|keys|);
    hide NumberPop, SmallInt, SmallValue;
    var inner := MultiSigPops(keys, required);
    assert inner[|inner| - 2] == NumberPop(|keys|) && inner[|inner| - 1] == Op(0xae);
    forall i | 1 <= i < |inner| - 2
      ensures |inner[i].data| == 33 || |inner[i].data| == 65
    {
      assert inner[i] == PushPop(keys[i - 1]);
    }
  }

  lemma ManyKeys(keys: Items)
    requires KeySized(keys)
    ensures |KeyPops(keys)| == |keys|
  {
  }

  lemma LockSlices(lock: Pop, m: Pop, keys: seq<Pop>, n: Pop, refund: Pop)
    ensures var pops := MultiSigLockPops(lock, m, keys, n, refund); var l := |pops|;
            && l == |keys| + 12 && pops[..4] == [Op(0xb3), lock, Op(0x9f), Op(0x63)]
            && pops[4..l - 5] == [m] + keys + [n, Op(0xae)]
            && pops[l - 5..] == [Op(0x67), refund, Op(0xac), Op(0x77), Op(0x68)]
  {
  }

  /** What surrounds the multisig part. */
  lemma OuterRecognised(pops: seq<Pop>, lock: Pop, inner: seq<Pop>, refund: Pop)
    requires |inner| >= 3 && (|refund.data| == 33 || |refund.data| == 65)
    requires |pops| == |inner| + 9 && pops[..4] == [Op(0xb3), lock, Op(0x9f), Op(0x63)] && pops[4..|pops| - 5] == inner
    requires pops[|pops| - 5..] == [Op(0x67), refund, Op(0xac), Op(0x77), Op(0x68)]
    ensures IsMultiSigLock(pops) <==> |inner| >= 4 && NumberOp(lock.op) && IsMultiSig(inner)
  {
    hide NumberOp, IsMultiSig;
    assert pops[0] == pops[..4][0] && pops[1] == pops[..4][1] && pops[2] == pops[..4][2] && pops[3] == pops[..4][3];
    var tail := pops[|pops| - 5..];
    assert forall i :: 0 <= i < 5 ==> pops[|pops| - 5 + i] == tail[i];
  }

  /** A built multisig lock is recognised exactly if it has 1 to 16 keys, requires no negative number of
  signatures and its period is pushed as a small number or as at most four bytes of data. */
  lemma MultiSigLockRecognised(keys: Items, required: int, refund: Item, period: int)
    requires KeySized(keys) && KeySized([refund]) && MIN_INT64 < required <= |keys| <= MAX_INT64
    requires MIN_INT32 <= period <= MAX_INT32
    ensures IsMultiSigLock(LockPops(keys, required, refund, period))
            <==> 1 <= |keys| <= 16 && 0 <= required && period != -1 && period != MIN_INT32
  {
    assert [refund][0] == refund && |PushPop(refund).data| == |refund|;
    hide NumberPop, PushPop, KeyPops, MultiSigLockPops, IsMultiSigLock, IsMultiSig;
    ManyKeys(keys);
    LockSlices(NumberPop(period), NumberPop(required), KeyPops(keys), NumberPop(|keys|), PushPop(refund));
    OuterRecognised(LockPops(keys, required, refund, period), NumberPop(period), MultiSigPops(keys, required), PushPop(refund));
    InnerRecognised(keys, required);
    PeriodIsNumber(period);
  }
}
