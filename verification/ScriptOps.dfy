/** What the opcodes do to the two stacks.

Each handler of the machine is a function on values; None stands for any script error. */
module ScriptOps {
  import opened Bytes
  import opened Wrappers
  import opened ScriptNum
  import opened ScriptStack
  import opened Script
  import opened ScriptBuilder
  import opened MultiSig
  import opened Signature
  import opened PubKey

  datatype Flag =
    | Bip16 | StrictMultiSig | DiscourageUpgradableNops | CheckLockTimeVerify | CheckSequenceVerify | CleanStack
    | DerSignatures | LowS | MinimalData | NullFail | SigPushOnly | StrictEncoding | VerifyWitness
    | DiscourageUpgradeableWitnessProgram | MinimalIf | WitnessPubKeyType

  /** What a run does not change: the flags, the fields of the transaction and its input that opcodes read,
  the hashes, the parsing of signatures and keys by mode and signed script, and ECDSA verification. */
  datatype Env = Env(
    flags: set<Flag>, age: int, lockTime: nat, sequence: nat, version: int, inputWitness: Items,
    ripemd160: Item -> Item, sha1: Item -> Item, sha256: Item -> Item, hash256: Item -> Item,
    crypto: (bool, seq<Pop>) -> Crypto, verify: (Item, Sig, PublicKey) -> bool)

  /** Where an opcode stands: the script since the last code separator, the offset after the opcode, and
  whether a version 0 witness program is active. */
  datatype Context = Context(subScript: seq<Pop>, off: nat, segwit: bool)

  /** What the unconditional opcodes change. */
  datatype Machine = Machine(ds: Items, alt: Items, numOps: nat, codeSep: nat)

  const MAX_OPS: nat := 201
  const MAX_KEYS: nat := 20
  const LOCK_TIME_THRESHOLD: int := 500_000_000
  const MAX_SEQUENCE: int := 0xffffffff

  // Stack access.

  function Rest(s: Items): Items {
    if s == [] then [] else s[..|s| - 1]
  }

  /** A number of at most len bytes, minimal if the flag asks for it. */
  function AsNumber(env: Env, v: Item, len: nat): Option<int> {
    if |v| > len then None
    else if MinimalData in env.flags && !Minimal(v) then None
    else Some(Value(v))
  }

  function TopNumber(env: Env, s: Items): Option<int> {
    if s == [] then None else AsNumber(env, s[|s| - 1], 4)
  }

  function PushNumber(s: Items, n: int): Items {
    s + [EncodeNum(n)]
  }

  function PushBool(s: Items, v: bool): Items {
    s + [FromBool(v)]
  }

  /** abstractVerify after an opcode that left a boolean. */
  function Verified(s: Option<Items>): Option<Items> {
    if s.None? || s.value == [] || !AsBoolSpec(s.value[|s.value| - 1]) then None else Some(Rest(s.value))
  }

  // Opcodes by group.

  /** Opcodes up to OP_16 push; OP_RESERVED is an error. */
  function ExecPush(pop: Pop, s: Items): Option<Items> {
    match Pushed(pop)
    case None => None
    case Some(v) => Some(s + [v])
  }

  function BoolNumber(b: bool): int {
    if b then 1 else 0
  }

  function Unary(op: byte, m: int): Option<int> {
    if op == 0x8b then Some(m + 1)
    else if op == 0x8c then Some(m - 1)
    else if op == 0x8f then Some(-m)
    else if op == 0x90 then Some(if m < 0 then -m else m)
    else if op == 0x91 then Some(BoolNumber(m == 0))
    else if op == 0x92 then Some(BoolNumber(m != 0))
    else None
  }

  /** v0 is the top, v1 below it. */
  function Binary(op: byte, v0: int, v1: int): Option<int> {
    if op == 0x93 then Some(v0 + v1)
    else if op == 0x94 then Some(v1 - v0)
    else if op == 0x9a then Some(BoolNumber(v0 != 0 && v1 != 0))
    else if op == 0x9b then Some(BoolNumber(v0 != 0 || v1 != 0))
    else if op == 0x9c || op == 0x9d then Some(BoolNumber(v0 == v1))
    else if op == 0x9e then Some(BoolNumber(v0 != v1))
    else if op == 0x9f then Some(BoolNumber(v1 < v0))
    else if op == 0xa0 then Some(BoolNumber(v1 > v0))
    else if op == 0xa1 then Some(BoolNumber(v1 <= v0))
    else if op == 0xa2 then Some(BoolNumber(v1 >= v0))
    else if op == 0xa3 then Some(if v1 < v0 then v1 else v0)
    else if op == 0xa4 then Some(if v1 > v0 then v1 else v0)
    else None
  }

  function ExecUnary(env: Env, op: byte, s: Items): Option<Items> {
    match TopNumber(env, s)
    case None => None
    case Some(m) => if Unary(op, m).None? then None else Some(PushNumber(Rest(s), Unary(op, m).value))
  }

  function ExecBinary(env: Env, op: byte, s: Items): Option<Items> {
    match TopNumber(env, s)
    case None => None
    case Some(v0) =>
      match TopNumber(env, Rest(s))
      case None => None
      case Some(v1) =>
        if Binary(op, v0, v1).None? then None
        else
          var r := Some(PushNumber(Rest(Rest(s)), Binary(op, v0, v1).value));
          if op == 0x9d then Verified(r) else r
  }

  /** OP_WITHIN. */
  function ExecWithin(env: Env, s: Items): Option<Items> {
    match TopNumber(env, s)
    case None => None
    case Some(max) =>
      match TopNumber(env, Rest(s))
      case None => None
      case Some(min) =>
        match TopNumber(env, Rest(Rest(s)))
        case None => None
        case Some(x) => Some(PushNumber(Rest(Rest(Rest(s))), BoolNumber(min <= x < max)))
  }

  function ExecArithmetic(env: Env, op: byte, s: Items): Option<Items> {
    if op == 0xa5 then ExecWithin(env, s)
    else if op <= 0x92 then ExecUnary(env, op, s)
    else ExecBinary(env, op, s)
  }

  /** OP_PICK and OP_ROLL. */
  function ExecPickRoll(env: Env, op: byte, s: Items): Option<Items> {
    match TopNumber(env, s)
    case None => None
    case Some(n) =>
      if op == 0x79 then
        match PeekSpec(Rest(s), n)
        case None => None
        case Some(v) => Some(Rest(s) + [v])
      else
        match NipSpec(Rest(s), n)
        case None => None
        case Some(r) => Some(r.1 + [r.0])
  }

  /** OP_2DROP to OP_TUCK. */
  function ExecStack(env: Env, op: byte, s: Items): Option<Items> {
    if op == 0x6d then DropSpec(s, 2)
    else if op == 0x6e then DupSpec(s, 2)
    else if op == 0x6f then DupSpec(s, 3)
    else if op == 0x70 then OverSpec(s, 2)
    else if op == 0x71 then RotSpec(s, 2)
    else if op == 0x72 then SwapSpec(s, 2)
    else if op == 0x73 then
      if s == [] then None else Some(if AsBoolSpec(s[|s| - 1]) then s + [s[|s| - 1]] else s)
    else if op == 0x74 then Some(PushNumber(s, |s|))
    else if op == 0x75 then DropSpec(s, 1)
    else if op == 0x76 then DupSpec(s, 1)
    else if op == 0x77 then if NipSpec(s, 1).None? then None else Some(NipSpec(s, 1).value.1)
    else if op == 0x78 then OverSpec(s, 1)
    else if op == 0x79 || op == 0x7a then ExecPickRoll(env, op, s)
    else if op == 0x7b then RotSpec(s, 1)
    else if op == 0x7c then SwapSpec(s, 1)
    else TuckSpec(s)
  }

  /** OP_SIZE, OP_EQUAL and OP_EQUALVERIFY. */
  function ExecCompare(op: byte, s: Items): Option<Items> {
    if s == [] then None
    else if op == 0x82 then Some(PushNumber(s, |s[|s| - 1]|))
    else if |s| < 2 then None
    else
      var r := Some(PushBool(s[..|s| - 2], s[|s| - 1] == s[|s| - 2]));
      if op == 0x88 then Verified(r) else r
  }

  function ExecHash(env: Env, op: byte, s: Items): Option<Items> {
    if s == [] then None
    else
      var v := s[|s| - 1];
      Some(Rest(s) + [if op == 0xa6 then env.ripemd160(v)
                      else if op == 0xa7 then env.sha1(v)
                      else if op == 0xa8 then env.sha256(v)
                      else if op == 0xa9 then env.ripemd160(env.sha256(v))
                      else env.hash256(v)])
  }

  // Lock times.

  predicate LockTimeMet(txLockTime: int, threshold: int, lockTime: int) {
    && ((txLockTime < threshold && lockTime < threshold) || (txLockTime >= threshold && lockTime >= threshold))
    && lockTime <= txLockTime
  }

  predicate SequenceDisabled(x: nat) {
    x / 0x8000_0000 % 2 == 1
  }

  function SequenceMasked(x: nat): nat {
    x / 0x40_0000 % 2 * 0x40_0000 + x % 0x10000
  }

  /** OP_CHECKLOCKTIMEVERIFY and OP_CHECKSEQUENCEVERIFY leave the stack alone. */
  predicate LockTimeOk(env: Env, op: byte, s: Items) {
    if op == 0xb1 && CheckLockTimeVerify !in env.flags then DiscourageUpgradableNops !in env.flags
    else if op == 0xb2 && CheckSequenceVerify !in env.flags then DiscourageUpgradableNops !in env.flags
    else
      s != [] &&
      match AsNumber(env, s[|s| - 1], 5)
      case None => false
      case Some(n) =>
        if n < 0 then false
        else if op == 0xb1 then LockTimeMet(env.lockTime, LOCK_TIME_THRESHOLD, n) && env.sequence != MAX_SEQUENCE
        else if SequenceDisabled(n) then true
        else
          && env.version == 2 && !SequenceDisabled(env.sequence)
          && LockTimeMet(SequenceMasked(env.sequence), 0x40_0000, SequenceMasked(n))
  }

  // Signatures.

  predicate FoundAt(hay: Item, needle: Item, i: nat) {
    i + |needle| <= |hay| && hay[i..i + |needle|] == needle
  }

  predicate Contains(hay: Item, needle: Item) {
    exists i :: 0 <= i <= |hay| && FoundAt(hay, needle, i)
  }

  predicate CanonicalPush(pop: Pop) {
    var n := |pop.data|;
    if pop.op > 0x60 then true
    else if 0 < pop.op < 0x4c && n == 1 && pop.data[0] <= 16 then false
    else if pop.op == 0x4c && n < 0x4c then false
    else if pop.op == 0x4d && n <= 0xff then false
    else if pop.op == 0x4e && n <= 0xffff then false
    else true
  }

  /** removeOpcodeByData. */
  function WithoutData(pops: seq<Pop>, data: Item): seq<Pop> {
    if pops == [] then []
    else
      (if !CanonicalPush(pops[0]) || !Contains(pops[0].data, data) then [pops[0]] else [])
      + WithoutData(pops[1..], data)
  }

  function WithoutAll(pops: seq<Pop>, sigs: Items): seq<Pop>
    decreases |sigs|
  {
    if sigs == [] then pops else WithoutAll(WithoutData(pops, sigs[0]), sigs[1..])
  }

  /** The outcome of one signature check; None for an error, including a failed check of a non-empty
  signature when the flag forbids that. */
  function CheckSig(env: Env, c: Crypto, sig: Item, key: Item): Option<bool> {
    if sig == [] then Some(false)
    else if !c.checkSig(sig) || !c.checkKey(key) then None
    else
      var h := c.digest(sig[|sig| - 1]);
      if h.None? then None
      else if c.parseKey(key).None? || c.parseSig(sig).None? then Some(false)
      else
        var valid := c.verify(h.value, c.parseSig(sig).value, c.parseKey(key).value);
        if !valid && NullFail in env.flags && |sig| > 1 then None else Some(valid)
  }

  /** OP_CHECKSIG and OP_CHECKSIGVERIFY. */
  function ExecCheckSig(env: Env, ctx: Context, op: byte, s: Items): Option<Items> {
    if |s| < 2 then None
    else
      var key, sig := s[|s| - 1], s[|s| - 2];
      var c := SigCrypto(env, ctx, [sig]);
      match CheckSig(env, c, sig, key)
      case None => None
      case Some(v) =>
        var r := Some(PushBool(s[..|s| - 2], v));
        if op == 0xad then Verified(r) else r
  }

  /** Outside witness programs the signatures themselves are removed from the signed script. */
  function SigCrypto(env: Env, ctx: Context, sigs: Items): Crypto {
    env.crypto(ctx.segwit, if ctx.segwit then ctx.subScript else WithoutAll(ctx.subScript, sigs)).(verify := env.verify)
  }

  /** The top n items, the top first. */
  function TopItems(s: Items, n: nat): (r: Items)
    requires n <= |s|
    ensures |r| == n
  {
    seq(n, i requires 0 <= i < n => s[|s| - 1 - i])
  }

  /** The arguments of a multisig check: keys and signatures, the topmost first, and what is below. */
  datatype MultiSigArgs = MultiSigArgs(keys: Items, sigs: Items, dummy: Item, below: Items)

  function Arguments(env: Env, s: Items): Option<MultiSigArgs> {
    match TopNumber(env, s)
    case None => None
    case Some(n) =>
      var s1 := Rest(s);
      if n < 0 || n > MAX_KEYS || n > |s1| then None
      else
        var s2 := s1[..|s1| - n];
        match TopNumber(env, s2)
        case None => None
        case Some(m) =>
          var s3 := Rest(s2);
          if m < 0 || m > n || m + 1 > |s3| then None
          else Some(MultiSigArgs(TopItems(s1, n), TopItems(s3, m), s3[|s3| - 1 - m], s3[..|s3| - 1 - m]))
  }

  /** OP_CHECKMULTISIG and OP_CHECKMULTISIGVERIFY; the keys count as operations. */
  function ExecMultiSig(env: Env, ctx: Context, op: byte, d: Machine): Option<Machine> {
    match Arguments(env, d.ds)
    case None => None
    case Some(a) =>
      if d.numOps + |a.keys| > MAX_OPS then None
      else if StrictMultiSig in env.flags && a.dummy != [] then None
      else
        match Greedy(SigCrypto(env, ctx, a.sigs), a.sigs, a.keys)
        case None => None
        case Some(v) =>
          if !v && NullFail in env.flags && (exists i :: 0 <= i < |a.sigs| && a.sigs[i] != []) then None
          else
            var r := Some(PushBool(a.below, v));
            match (if op == 0xaf then Verified(r) else r)
            case None => None
            case Some(ds) => Some(d.(ds := ds, numOps := d.numOps + |a.keys|))
  }

  // All unconditional opcodes.

  function OnStack(d: Machine, s: Option<Items>): Option<Machine> {
    if s.None? then None else Some(d.(ds := s.value))
  }

  /** Opcodes that work on the data stack alone. */
  function ExecData(env: Env, ctx: Context, pop: Pop, s: Items): Option<Items> {
    var op := pop.op;
    if op <= 0x60 then ExecPush(pop, s)
    else if op == 0x61 then Some(s)
    else if op == 0x69 then Verified(Some(s))
    else if 0x6d <= op <= 0x7d then ExecStack(env, op, s)
    else if op == 0x82 || op == 0x87 || op == 0x88 then ExecCompare(op, s)
    else if 0x8b <= op <= 0xa5 then ExecArithmetic(env, op, s)
    else if 0xa6 <= op <= 0xaa then ExecHash(env, op, s)
    else if op == 0xac || op == 0xad then ExecCheckSig(env, ctx, op, s)
    else if op == 0xb1 || op == 0xb2 then if LockTimeOk(env, op, s) then Some(s) else None
    else if op == 0xb3 then Some(PushNumber(s, env.age))
    else if op == 0xb0 || 0xb4 <= op <= 0xb9 then if DiscourageUpgradableNops in env.flags then None else Some(s)
    else None
  }

  function Exec(env: Env, ctx: Context, pop: Pop, d: Machine): Option<Machine> {
    if pop.op == 0x6b then
      if d.ds == [] then None else Some(d.(ds := Rest(d.ds), alt := d.alt + [d.ds[|d.ds| - 1]]))
    else if pop.op == 0x6c then
      if d.alt == [] then None else Some(d.(alt := Rest(d.alt), ds := d.ds + [d.alt[|d.alt| - 1]]))
    else if pop.op == 0xab then Some(d.(codeSep := ctx.off))
    else if pop.op == 0xae || pop.op == 0xaf then ExecMultiSig(env, ctx, pop.op, d)
    else OnStack(d, ExecData(env, ctx, pop, d.ds))
  }
}
