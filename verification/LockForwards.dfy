/** Hash time locks to scripts and witnesses: what stands behind the lock. */
module LockForwards {
  import opened Bytes
  import opened Wrappers
  import opened ScriptStack
  import opened Script
  import opened ScriptBuilder
  import opened ScriptOps
  import MultiSig
  import opened Conditionals
  import opened StackBounds
  import opened ScriptVm
  import opened ScriptEngine
  import opened ScriptRuns
  import opened TimeLocks
  import opened LockScripts

  // Locks to a script hash.

  /** OP_HASH160 <hash> OP_EQUAL in the branch: the item on top was a preimage of the hash. */
  lemma HashRun(env: Env, segwit: bool, script: seq<Pop>, d: Machine, period: int, hash: Item)
    requires GoesOn(env, segwit, script, 0, Run(d, [])) && IsLock(script, period) && env.age > period
    requires |script| == 10 && script[2].op == 0xa0 && script[4].op == 0xa9 && PushesItem(script[5], hash)
    requires script[6].op == 0x87 && script[7].op == 0x67 && script[8].op == 0x6a && script[9].op == 0x68
    requires var s := FlatRun(env, segwit, script, 0, |script|, Run(d, [])).value.d.ds; s != [] && AsBoolSpec(s[|s| - 1])
    ensures d.ds != [] && env.ripemd160(env.sha256(d.ds[|d.ds| - 1])) == hash
  {
    hide StepAt, FlatRun, GoesOn, IsLock, Pushed, AsBoolSpec;
    var r := LockTest(env, segwit, script, Run(d, []), period);
    var r1 := Onward(env, segwit, script, 4, r);
    DataStep(env, segwit, script, 4, r);
    var base, x := Rest(d.ds), env.ripemd160(env.sha256(d.ds[|d.ds| - 1]));
    var r2 := Onward(env, segwit, script, 5, r1);
    PushedStep(env, segwit, script, 5, r1);
    var r3 := Onward(env, segwit, script, 6, r2);
    EqualStep(env, segwit, script, 6, r2, base, x, hash);
    var r4 := Onward(env, segwit, script, 7, r3);
    FlipStep(env, segwit, script, 7, r3);
    var r5 := Onward(env, segwit, script, 8, r4);
    SkipStep(env, segwit, script, 8, r4);
    var r6 := Onward(env, segwit, script, 9, r5);
    CloseStep(env, segwit, script, 9, r5);
    NoStep(env, segwit, script, 10, r6);
    BoolRoundTrip(x == hash);
  }

  lemma EqualStep(env: Env, segwit: bool, script: seq<Pop>, i: nat, r: Run, base: Items, x: Item, y: Item)
    requires i < |script| && script[i].op == 0x87 && Executing(r.cond) && StepAt(env, segwit, script, i, r).Some?
    requires r.d.ds == base + [x] + [y]
    ensures SameBut(r, StepAt(env, segwit, script, i, r).value, base + [FromBool(x == y)])
  {
    DataStep(env, segwit, script, i, r);
    hide StepAt;
    assert r.d.ds[..|r.d.ds| - 2] == base;
  }

  /** The signature script left a preimage of the hash on top. */
  ghost predicate Reveals(env: Env, sig: seq<byte>, hash: Item) {
    exists segwit: bool, ds: Items ::
      HandedOver(env, segwit, Parse(sig).0) == Some(ds) && ds != [] && env.ripemd160(env.sha256(ds[|ds| - 1])) == hash
  }

  /** Spending a lock to a script hash took an age above the period and a preimage of the hash. */
  lemma ScriptHashSpent(env: Env, sig: seq<byte>, script: seq<byte>, hash: Item, period: int)
    requires |hash| == 20 && MIN_INT32 <= period <= MAX_INT32
    requires Unparse(HtlcPops(ScriptHashAddress(hash), period)) == Some(script) && Accepts(env, sig, script)
    ensures env.age > period && Reveals(env, sig, hash)
  {
    hide *;
    ScriptHashLayout(hash, period);
    var pops := HtlcPops(ScriptHashAddress(hash), period);
    HtlcSpent(env, sig, script, ScriptHashAddress(hash), period);
    ParsesBack(pops, script);
    var segwit, d := AcceptedRun(env, sig, script);
    GoesOnFrom(env, segwit, pops, Run(d, []));
    HashRun(env, segwit, pops, d, period, hash);
    Revealed(env, sig, segwit, d.ds, hash);
  }

  lemma ScriptHashLayout(hash: Item, period: int)
    requires |hash| == 20 && MIN_INT32 <= period <= MAX_INT32
    ensures var a := ScriptHashAddress(hash); WellSized(a) && !a.OtherAddress?
    ensures var pops := HtlcPops(ScriptHashAddress(hash), period);
            && IsLock(pops, period) && !WitnessProgram(pops) && !HtlcWitness(pops)
            && |pops| == 10 && pops[2].op == 0xa0 && pops[4].op == 0xa9 && PushesItem(pops[5], hash) && pops[6].op == 0x87
            && pops[7].op == 0x67 && pops[8].op == 0x6a && pops[9].op == 0x68
  {
    hide HtlcPops, IsLock, WitnessProgram, HtlcWitness, PushesItem, PushPop, ReturnsElse, AddressPops;
    HtlcLayout(ScriptHashAddress(hash), period);
    NoWitness(hash, period);
    ItemPushes(hash);
    ScriptHashPlaces(hash, period);
  }

  lemma GoesOnFrom(env: Env, segwit: bool, script: seq<Pop>, r: Run)
    requires FlatRun(env, segwit, script, 0, |script|, r).Some?
    ensures GoesOn(env, segwit, script, 0, r)
  {
    hide FlatRun;
  }

  lemma Revealed(env: Env, sig: seq<byte>, segwit: bool, ds: Items, hash: Item)
    requires HandedOver(env, segwit, Parse(sig).0) == Some(ds) && ds != [] && env.ripemd160(env.sha256(ds[|ds| - 1])) == hash
    ensures Reveals(env, sig, hash)
  {
    hide HandedOver, Parse;
  }

  lemma ScriptHashPlaces(hash: Item, period: int)
    requires |hash| == 20 && MIN_INT32 <= period <= MAX_INT32
    ensures var pops := HtlcPops(ScriptHashAddress(hash), period);
            && |pops| == 10 && pops[2].op == 0xa0 && pops[4].op == 0xa9 && pops[5] == PushPop(hash) && pops[6].op == 0x87
            && pops[7].op == 0x67 && pops[8].op == 0x6a && pops[9].op == 0x68
  {
    hide NumberPop, PushPop;
  }

  lemma NoWitness(hash: Item, period: int)
    requires |hash| == 20 && MIN_INT32 <= period <= MAX_INT32
    ensures var pops := HtlcPops(ScriptHashAddress(hash), period); !WitnessProgram(pops) && !HtlcWitness(pops)
  {
    hide NumberPop, PushPop;
    assert |HtlcPops(ScriptHashAddress(hash), period)| == 10;
  }

  // Locks to a witness program.

  /** The signature hash of a witness script. */
  function WitnessSigned(env: Env, pops: seq<Pop>, sigs: Items): MultiSig.Crypto {
    SigCrypto(env, Context(pops, 0, true), sigs)
  }

  lemma CheckSigWitness(env: Env, script: seq<Pop>, i: nat, r: Run, base: Items, sig: Item, key: Item) returns (v: bool)
    requires i < |script| && script[i].op == 0xac && Executing(r.cond) && StepAt(env, true, script, i, r).Some?
    requires r.d.codeSep == 0 && r.d.ds == base + [sig] + [key]
    ensures SameBut(r, StepAt(env, true, script, i, r).value, base + [FromBool(v)])
    ensures CheckSig(env, WitnessSigned(env, script, [sig]), sig, key) == Some(v)
  {
    DataStep(env, true, script, i, r);
    hide StepAt, CheckSig;
    assert script[0..] == script && r.d.ds[..|r.d.ds| - 2] == base;
    v := CheckSig(env, WitnessSigned(env, script, [sig]), sig, key).value;
  }

  /** OP_DUP OP_HASH160 <hash> OP_EQUALVERIFY OP_CHECKSIG on a signature and a key. */
  lemma KeyHashWitness(env: Env, hash: Item, d: Machine, sig: Item, key: Item)
    requires |hash| == 20 && d == Machine([sig, key], [], 0, 0)
    requires var script := PayToPubKeyHash(hash);
             GoesOn(env, true, script, 0, Run(d, []))
             && var s := FlatRun(env, true, script, 0, |script|, Run(d, [])).value.d.ds; s != [] && AsBoolSpec(s[|s| - 1])
    ensures env.ripemd160(env.sha256(key)) == hash
    ensures CheckSig(env, WitnessSigned(env, PayToPubKeyHash(hash), [sig]), sig, key) == Some(true)
  {
    var script, r := PayToPubKeyHash(hash), Run(d, []);
    hide StepAt, FlatRun, GoesOn, AsBoolSpec, CheckSig, SigCrypto;
    var x := env.ripemd160(env.sha256(key));
    var r1 := Onward(env, true, script, 0, r);
    DataStep(env, true, script, 0, r);
    assert r1.d.ds == [sig, key, key];
    var r2 := Onward(env, true, script, 1, r1);
    DataStep(env, true, script, 1, r1);
    assert r2.d.ds == [sig, key, x];
    var r3 := Onward(env, true, script, 2, r2);
    PushedStep(env, true, script, 2, r2);
    assert r3.d.ds == [sig, key] + [x] + [hash];
    var r4 := Onward(env, true, script, 3, r3);
    EqualVerifyWitness(env, script, 3, r3, [sig, key], x, hash);
    assert r4.d.ds == [] + [sig] + [key];
    var r5 := Onward(env, true, script, 4, r4);
    var v := CheckSigWitness(env, script, 4, r4, [], sig, key);
    NoStep(env, true, script, 5, r5);
    BoolRoundTrip(v);
  }

  lemma EqualVerifyWitness(env: Env, script: seq<Pop>, i: nat, r: Run, base: Items, x: Item, y: Item)
    requires i < |script| && script[i].op == 0x88 && Executing(r.cond) && StepAt(env, true, script, i, r).Some?
    requires r.d.ds == base + [x] + [y]
    ensures x == y && SameBut(r, StepAt(env, true, script, i, r).value, base)
  {
    DataStep(env, true, script, i, r);
    BoolRoundTrip(x == y);
    hide StepAt, AsBoolSpec;
    assert r.d.ds[..|r.d.ds| - 2] == base && Rest(base + [FromBool(x == y)]) == base;
  }

  /** What the witness of a spent lock held: the key with its signature, or the script. */
  ghost predicate WitnessOpens(env: Env, a: Address) {
    var w := env.inputWitness;
    match a
    case WitnessPubKeyHashAddress(h) =>
      && |w| == 2 && env.ripemd160(env.sha256(w[1])) == h
      && CheckSig(env, WitnessSigned(env, PayToPubKeyHash(h), [w[0]]), w[0], w[1]) == Some(true)
    case WitnessScriptHashAddress(h) => w != [] && env.sha256(w[|w| - 1]) == h && Parse(w[|w| - 1]).1
    case _ => true
  }

  lemma InitialWitness(env: Env, sig: seq<byte>, pk: seq<byte>)
    requires Initial(env, sig, pk).Some? && HtlcWitness(Parse(pk).0) && VerifyWitness in env.flags
    ensures var vm := Initial(env, sig, pk).value; var info := ProgramInfo(Parse(pk).0);
            vm.idx == 1 && !vm.bip16 && vm.program == Some(info.1) && vm.version == info.0 && |vm.scripts| == 2
  {
    hide Parse, ProgramInfo, PushOnly, IsWitnessProgram;
  }

  lemma WitnessPlaces(a: Address, period: int)
    requires WellSized(a) && (a.WitnessPubKeyHashAddress? || a.WitnessScriptHashAddress?)
    requires MIN_INT32 <= period <= MAX_INT32 && period != -1 && period != MIN_INT32
    ensures HtlcWitness(HtlcPops(a, period)) && ProgramInfo(HtlcPops(a, period)) == (0, a.data)
  {
    HtlcRecognised(a, period);
    hide NumberPop;
    var pops := HtlcPops(a, period);
    assert |pops| == 9 && pops[4] == Op(0) && pops[5] == PushPop(a.data);
    hide IsHtlc;
  }

  lemma LoadedKeyHash(env: Env, x: Vm, h: Item)
    requires LoadWitness(env, x).Some? && x.program == Some(h) && x.version == 0 && |h| == 20 && |x.scripts| == 2 && x.idx == 2
    requires x.d.alt == [] && x.d.numOps == 0 && x.off == 0 && x.cond == [] && !x.bip16
    ensures |env.inputWitness| == 2
    ensures var n := SkipEmpty(LoadWitness(env, x).value);
            && n.Continue? && n.vm.idx == 2 && |n.vm.scripts| == 3 && n.vm.scripts[2] == PayToPubKeyHash(h) && Segwit(n.vm)
            && n.vm.d == Machine(env.inputWitness, [], 0, 0) && n.vm.cond == [] && n.vm.off == 0 && !n.vm.bip16
  {
  }

  lemma LoadedScriptHash(env: Env, x: Vm, h: Item)
    requires LoadWitness(env, x).Some? && x.program == Some(h) && x.version == 0 && |h| == 32
    ensures var w := env.inputWitness; w != [] && env.sha256(w[|w| - 1]) == h && Parse(w[|w| - 1]).1
  {
    hide Parse;
  }

  lemma KeyHashProgram(env: Env, vm: Vm, h: Item)
    requires Inv(vm) && EnvOk(env) && Runs(env, vm) && vm.idx == 1 && !vm.bip16 && |vm.scripts| == 2
    requires vm.program == Some(h) && vm.version == 0 && |h| == 20
    ensures WitnessOpens(env, WitnessPubKeyHashAddress(h))
  {
    hide Inv, EnvOk, Runs, LoadWitness, SkipEmpty, FlatRun, AsBoolSpec, CheckSig, SigCrypto, PayToPubKeyHash;
    var x := WitnessLoaded(env, vm);
    LoadedKeyHash(env, x, h);
    var v := SkipEmpty(LoadWitness(env, x).value).vm;
    ThirdFlat(env, v);
    var w := env.inputWitness;
    assert w == [w[0], w[1]];
    KeyHashWitness(env, h, v.d, w[0], w[1]);
  }

  lemma ScriptHashProgram(env: Env, vm: Vm, h: Item)
    requires Inv(vm) && EnvOk(env) && Runs(env, vm) && vm.idx == 1 && !vm.bip16
    requires vm.program == Some(h) && vm.version == 0 && |h| == 32
    ensures WitnessOpens(env, WitnessScriptHashAddress(h))
  {
    hide Inv, EnvOk, Runs, LoadWitness, SkipEmpty, Parse;
    var x := WitnessLoaded(env, vm);
    LoadedScriptHash(env, x, h);
  }

  /** Where witnesses are verified, spending a recognised lock to a witness program took an age above the period and a
  witness that opens the program. */
  lemma WitnessSpent(env: Env, sig: seq<byte>, script: seq<byte>, a: Address, period: int)
    requires WellSized(a) && (a.WitnessPubKeyHashAddress? || a.WitnessScriptHashAddress?)
    requires MIN_INT32 <= period <= MAX_INT32 && period != -1 && period != MIN_INT32 && VerifyWitness in env.flags
    requires Unparse(HtlcPops(a, period)) == Some(script) && Accepts(env, sig, script)
    ensures env.age > period && WitnessOpens(env, a)
  {
    hide Unparse, Accepts, Initial, Inv, EnvOk, Runs, Parse, HtlcPops, WitnessOpens, ProgramInfo, HtlcWitness, IsLock, ReturnsElse,
         AddressPops;
    HtlcSpent(env, sig, script, a, period);
    HtlcLayout(a, period);
    ParsesBack(HtlcPops(a, period), script);
    WitnessPlaces(a, period);
    AcceptedStart(env, sig, script);
    InitialWitness(env, sig, script);
    var vm := Initial(env, sig, script).value;
    match a
    case WitnessPubKeyHashAddress(h) => KeyHashProgram(env, vm, h);
    case WitnessScriptHashAddress(h) => ScriptHashProgram(env, vm, h);
  }
}
