/** Scripts locked by the age of the spent output. */
module TimeLocks {
  import opened Bytes
  import opened Wrappers
  import opened ScriptNum
  import opened ScriptStack
  import opened Script
  import opened ScriptBuilder
  import opened MultiSig
  import opened MultiSigOp
  import opened ScriptOps
  import opened Conditionals
  import opened ScriptVm
  import opened ScriptRuns

  // Single opcodes of a run that goes on.

  /** An executed opcode that works on the data stack. */
  predicate DataOp(op: byte) {
    !Conditional(op) && op != 0x6b && op != 0x6c && op != 0xab && op != 0xae && op != 0xaf
  }

  ghost predicate SameBut(r: Run, r': Run, ds: Items) {
    r'.cond == r.cond && r'.d.codeSep == r.d.codeSep && r'.d.ds == ds
  }

  /** The context of the opcode at i. */
  function At(script: seq<Pop>, i: nat, segwit: bool, r: Run): Context {
    ContextAt(script, i, segwit, r.d.codeSep)
  }

  lemma DataStep(env: Env, segwit: bool, script: seq<Pop>, i: nat, r: Run)
    requires i < |script| && DataOp(script[i].op) && Executing(r.cond) && StepAt(env, segwit, script, i, r).Some?
    ensures var s := ExecData(env, At(script, i, segwit, r), script[i], r.d.ds);
            s.Some? && SameBut(r, StepAt(env, segwit, script, i, r).value, s.value)
  {
    hide ExecData, PushOk;
  }

  lemma AgeStep(env: Env, segwit: bool, script: seq<Pop>, i: nat, r: Run)
    requires i < |script| && script[i].op == 0xb3 && Executing(r.cond) && StepAt(env, segwit, script, i, r).Some?
    ensures SameBut(r, StepAt(env, segwit, script, i, r).value, r.d.ds + [EncodeNum(env.age)])
  {
    DataStep(env, segwit, script, i, r);
    hide StepAt, EncodeNum;
  }

  lemma PushedStep(env: Env, segwit: bool, script: seq<Pop>, i: nat, r: Run)
    requires i < |script| && script[i].op <= 0x60 && Executing(r.cond) && StepAt(env, segwit, script, i, r).Some?
    ensures Pushed(script[i]).Some?
    ensures SameBut(r, StepAt(env, segwit, script, i, r).value, r.d.ds + [Pushed(script[i]).value])
  {
    DataStep(env, segwit, script, i, r);
    hide StepAt, Pushed;
  }

  /** What the comparison of a time lock decides. */
  predicate Holds(op: byte, age: int, period: int) {
    if op == 0xa0 then age > period else age < period
  }

  lemma CompareStep(env: Env, segwit: bool, script: seq<Pop>, i: nat, r: Run, base: Items, x: Item, y: Item)
    requires i < |script| && (script[i].op == 0x9f || script[i].op == 0xa0) && Executing(r.cond)
    requires r.d.ds == base + [x] + [y] && StepAt(env, segwit, script, i, r).Some?
    ensures SameBut(r, StepAt(env, segwit, script, i, r).value,
                    base + [EncodeNum(BoolNumber(Holds(script[i].op, Value(x), Value(y))))])
  {
    DataStep(env, segwit, script, i, r);
    hide StepAt, EncodeNum, Value, Minimal;
    assert Rest(r.d.ds) == base + [x] && Rest(base + [x]) == base;
  }

  lemma EncodedBool(b: bool)
    ensures AsBoolSpec(EncodeNum(BoolNumber(b))) == b
  {
    if b {
      assert MagnitudeOf(1) == [1] by { assert MagnitudeOf(0) == []; }
      assert EncodeNum(1)[0] == 1;
    } else {
      assert EncodeNum(0) == [];
    }
  }

  lemma IfStep(env: Env, segwit: bool, script: seq<Pop>, i: nat, r: Run, base: Items, b: Item)
    requires i < |script| && script[i].op == 0x63 && Executing(r.cond) && r.d.ds == base + [b]
    requires StepAt(env, segwit, script, i, r).Some?
    ensures var r' := StepAt(env, segwit, script, i, r).value;
            && r'.cond == r.cond + [if AsBoolSpec(b) then CondTrue else CondFalse]
            && r'.d.codeSep == r.d.codeSep && r'.d.ds == base
  {
    hide AsBoolSpec, PushOk;
    assert Rest(base + [b]) == base;
  }

  lemma SkipStep(env: Env, segwit: bool, script: seq<Pop>, i: nat, r: Run)
    requires i < |script| && !Conditional(script[i].op) && !Executing(r.cond) && StepAt(env, segwit, script, i, r).Some?
    ensures SameBut(r, StepAt(env, segwit, script, i, r).value, r.d.ds)
  {
  }

  lemma FlipStep(env: Env, segwit: bool, script: seq<Pop>, i: nat, r: Run)
    requires i < |script| && script[i].op == 0x67 && |r.cond| == 1 && StepAt(env, segwit, script, i, r).Some?
    ensures SameBut(r.(cond := [Flip(r.cond[0])]), StepAt(env, segwit, script, i, r).value, r.d.ds)
  {
    hide PushOk;
  }

  lemma CloseStep(env: Env, segwit: bool, script: seq<Pop>, i: nat, r: Run)
    requires i < |script| && script[i].op == 0x68 && |r.cond| == 1 && StepAt(env, segwit, script, i, r).Some?
    ensures SameBut(r.(cond := []), StepAt(env, segwit, script, i, r).value, r.d.ds)
  {
    hide PushOk;
  }

  lemma ReturnStep(env: Env, segwit: bool, script: seq<Pop>, i: nat, r: Run)
    requires i < |script| && script[i].op == 0x6a && Executing(r.cond)
    ensures StepAt(env, segwit, script, i, r) == None
  {
  }

  // Parts of a run that goes on to the end.

  /** The run from i on, in state r, reaches the end. */
  ghost predicate GoesOn(env: Env, segwit: bool, script: seq<Pop>, i: nat, r: Run) {
    i <= |script| && FlatRun(env, segwit, script, i, |script|, r).Some?
  }

  /** ... and so does the run from the next opcode on, with the same end. */
  lemma Onward(env: Env, segwit: bool, script: seq<Pop>, i: nat, r: Run) returns (r': Run)
    requires GoesOn(env, segwit, script, i, r) && i < |script|
    ensures StepAt(env, segwit, script, i, r) == Some(r') && GoesOn(env, segwit, script, i + 1, r')
    ensures FlatRun(env, segwit, script, i, |script|, r) == FlatRun(env, segwit, script, i + 1, |script|, r')
  {
    hide StepAt, FlatRun;
    FlatStep(env, segwit, script, i, |script|, r);
    r' := StepAt(env, segwit, script, i, r).value;
  }

  /** The test of the age leaves the stack as it was and chooses the branch. */
  lemma LockTest(env: Env, segwit: bool, script: seq<Pop>, r: Run, period: int) returns (r': Run)
    requires GoesOn(env, segwit, script, 0, r) && r.cond == [] && IsLock(script, period)
    ensures GoesOn(env, segwit, script, 4, r')
    ensures FlatRun(env, segwit, script, 0, |script|, r) == FlatRun(env, segwit, script, 4, |script|, r')
    ensures SameBut(r.(cond := [if Holds(script[2].op, env.age, period) then CondTrue else CondFalse]), r', r.d.ds)
  {
    hide StepAt, FlatRun, GoesOn, EncodeNum, Value, Pushed, AsBoolSpec, Holds;
    var age, lock := EncodeNum(env.age), Pushed(script[1]).value;
    EncodeNumCorrect(env.age);
    var r1 := Onward(env, segwit, script, 0, r);
    AgeStep(env, segwit, script, 0, r);
    var r2 := Onward(env, segwit, script, 1, r1);
    PushedStep(env, segwit, script, 1, r1);
    var r3 := Onward(env, segwit, script, 2, r2);
    CompareStep(env, segwit, script, 2, r2, r.d.ds, age, lock);
    var held := Holds(script[2].op, env.age, period);
    EncodedBool(held);
    r' := Onward(env, segwit, script, 3, r3);
    IfStep(env, segwit, script, 3, r3, r.d.ds, EncodeNum(BoolNumber(held)));
  }

  /** OP_INPUTAGE <period> and a comparison in front of OP_IF. */
  predicate IsLock(script: seq<Pop>, period: int) {
    && |script| >= 4 && script[0].op == 0xb3 && script[3].op == 0x63
    && script[1].op <= 0x60 && Pushed(script[1]).Some? && Value(Pushed(script[1]).value) == period
    && (script[2].op == 0x9f || script[2].op == 0xa0)
  }

  /** A branch that is not taken changes no stack. */
  lemma {:induction false} Skips(env: Env, segwit: bool, script: seq<Pop>, i: nat, j: nat, r: Run) returns (r': Run)
    requires GoesOn(env, segwit, script, i, r) && i <= j <= |script| && !Executing(r.cond)
    requires forall k :: i <= k < j ==> !Conditional(script[k].op)
    ensures GoesOn(env, segwit, script, j, r') && SameBut(r, r', r.d.ds)
    ensures FlatRun(env, segwit, script, i, |script|, r) == FlatRun(env, segwit, script, j, |script|, r')
    decreases j - i
  {
    hide StepAt, FlatRun, GoesOn, Conditional;
    r' := r;
    if i < j {
      r' := Onward(env, segwit, script, i, r);
      SkipStep(env, segwit, script, i, r);
      r' := Skips(env, segwit, script, i + 1, j, r');
    }
  }

  /** What pushes leave. */
  function PushedItems(pops: seq<Pop>): Items {
    if pops == [] then []
    else [if Pushed(pops[0]).Some? then Pushed(pops[0]).value else []] + PushedItems(pops[1..])
  }

  lemma {:induction false} Pushes(env: Env, segwit: bool, script: seq<Pop>, i: nat, j: nat, r: Run) returns (r': Run)
    requires GoesOn(env, segwit, script, i, r) && i <= j <= |script| && Executing(r.cond)
    requires forall k :: i <= k < j ==> script[k].op <= 0x60
    ensures GoesOn(env, segwit, script, j, r') && SameBut(r, r', r.d.ds + PushedItems(script[i..j]))
    ensures FlatRun(env, segwit, script, i, |script|, r) == FlatRun(env, segwit, script, j, |script|, r')
    decreases j - i
  {
    hide StepAt, FlatRun, GoesOn, Pushed;
    r' := r;
    if i < j {
      r' := Onward(env, segwit, script, i, r);
      PushedStep(env, segwit, script, i, r);
      r' := Pushes(env, segwit, script, i + 1, j, r');
      assert script[i..j][1..] == script[i + 1..j];
      assert r.d.ds + [Pushed(script[i]).value] + PushedItems(script[i + 1..j]) == r.d.ds + PushedItems(script[i..j]);
    } else {
      assert r.d.ds + [] == r.d.ds && script[i..j] == [];
    }
  }

  // Hash time locks.

  /** OP_INPUTAGE <period> OP_GREATERTHAN OP_IF ... OP_ELSE OP_RETURN OP_ENDIF, with no conditional inside. */
  predicate ReturnsElse(script: seq<Pop>) {
    var e := |script| - 3;
    && 4 <= e && script[2].op == 0xa0 && script[e].op == 0x67 && script[e + 1].op == 0x6a
    && forall k :: 4 <= k < e ==> !Conditional(script[k].op)
  }

  /** Up to the period nothing runs through such a script. */
  lemma LockHolds(env: Env, segwit: bool, script: seq<Pop>, d: Machine, period: int)
    requires IsLock(script, period) && ReturnsElse(script) && env.age <= period
    ensures FlatRun(env, segwit, script, 0, |script|, Run(d, [])) == None
  {
    hide StepAt, FlatRun, IsLock;
    var r, e := Run(d, []), |script| - 3;
    if GoesOn(env, segwit, script, 0, r) {
      var r1 := LockTest(env, segwit, script, r, period);
      var r2 := Skips(env, segwit, script, 4, e, r1);
      var r3 := Onward(env, segwit, script, e, r2);
      FlipStep(env, segwit, script, e, r2);
      ReturnStep(env, segwit, script, e + 1, r3);
      FlatStep(env, segwit, script, e + 1, |script|, r3);
    }
  }

  // Multisig locks.

  function Op(op: byte): Pop {
    Pop(op, [])
  }

  /** The opcodes of a multisig lock. */
  function MultiSigLockPops(lock: Pop, m: Pop, keys: seq<Pop>, n: Pop, refund: Pop): seq<Pop> {
    [Op(0xb3), lock, Op(0x9f), Op(0x63)] + ([m] + keys + [n]) + [Op(0xae), Op(0x67), refund, Op(0xac), Op(0x77), Op(0x68)]
  }

  /** One push of the number. */
  predicate PushesNumber(pop: Pop, n: int) {
    pop.op <= 0x60 && Pushed(pop).Some? && Value(Pushed(pop).value) == n
  }

  predicate PushesItem(pop: Pop, v: Item) {
    pop.op <= 0x60 && Pushed(pop) == Some(v)
  }

  predicate PushesItems(pops: seq<Pop>, vs: Items) {
    |pops| == |vs| && forall i :: 0 <= i < |pops| ==> PushesItem(pops[i], vs[i])
  }

  /** The parts of a multisig lock push the period, the counts and the keys. */
  predicate LockParts(lock: Pop, m: Pop, keyPops: seq<Pop>, n: Pop, refundPop: Pop,
                      period: int, required: int, keys: Items, refund: Item) {
    && PushesNumber(lock, period) && PushesNumber(m, required) && PushesNumber(n, |keys|)
    && PushesItems(keyPops, keys) && PushesItem(refundPop, refund)
  }

  /** What is checked when a script without witness signs all of its opcodes. */
  function Signed(env: Env, pops: seq<Pop>, sigs: Items): Crypto {
    SigCrypto(env, Context(pops, 0, false), sigs)
  }

  /** As many signatures as required are matched, in order, to different keys that verify them. */
  ghost predicate FullyMatched(env: Env, pops: seq<Pop>, required: int, keys: Items) {
    exists sigs: Items, f :: |sigs| == required && Matching(Signed(env, pops, sigs), sigs, TopItems(keys, |keys|), f)
  }

  /** Some signature is verified with the key. */
  ghost predicate SignedBy(env: Env, pops: seq<Pop>, key: Item) {
    exists sig :: CheckSig(env, Signed(env, pops, [sig]), sig, key) == Some(true)
  }

  lemma {:induction false} PushedKeys(pops: seq<Pop>, vs: Items)
    requires PushesItems(pops, vs)
    ensures PushedItems(pops) == vs
  {
    hide Pushed;
    if pops != [] {
      PushedKeys(pops[1..], vs[1..]);
      assert PushesItem(pops[0], vs[0]);
    }
  }

  lemma {:induction false} PushedConcat(a: seq<Pop>, b: seq<Pop>)
    ensures PushedItems(a + b) == PushedItems(a) + PushedItems(b)
  {
    hide Pushed;
    if a == [] {
      assert a + b == b && [] + PushedItems(b) == PushedItems(b);
    } else {
      assert (a + b)[1..] == a[1..] + b;
      PushedConcat(a[1..], b);
    }
  }

  lemma PushedOne(pop: Pop)
    requires Pushed(pop).Some?
    ensures PushedItems([pop]) == [Pushed(pop).value]
  {
    hide Pushed;
    assert [pop][1..] == [];
  }

  /** The counts and the keys, as they are pushed. */
  lemma PushedArguments(m: Pop, keyPops: seq<Pop>, n: Pop, keys: Items)
    requires Pushed(m).Some? && Pushed(n).Some? && PushesItems(keyPops, keys)
    ensures PushedItems([m] + keyPops + [n]) == [Pushed(m).value] + keys + [Pushed(n).value]
  {
    hide Pushed, PushedItems, PushesItems;
    PushedConcat([m] + keyPops, [n]);
    PushedConcat([m], keyPops);
    PushedKeys(keyPops, keys);
    PushedOne(m);
    PushedOne(n);
  }

  lemma TopOf(base: Items, keys: Items)
    ensures TopItems(base + keys, |keys|) == TopItems(keys, |keys|)
  {
  }

  /** The arguments found on the stack are the pushed counts and keys, and as many signatures below them. */
  lemma ArgumentsFound(env: Env, base: Items, m: Item, keys: Items, n: Item)
    requires Value(n) == |keys| && Arguments(env, base + ([m] + keys + [n])).Some?
    ensures var a := Arguments(env, base + ([m] + keys + [n])).value;
            a.keys == TopItems(keys, |keys|) && |a.sigs| == Value(m)
  {
    hide Value, Minimal, TopItems;
    var s := base + ([m] + keys + [n]);
    var s1 := base + [m] + keys;
    assert Rest(s) == s1 && s1[..|s1| - |keys|] == base + [m];
    TopOf(base + [m], keys);
  }

  lemma MultiSigStep(env: Env, script: seq<Pop>, i: nat, r: Run, base: Items, m: Item, keys: Items, n: Item)
    requires i < |script| && script[i].op == 0xae && Executing(r.cond) && StepAt(env, false, script, i, r).Some?
    requires r.d.ds == base + ([m] + keys + [n]) && Value(n) == |keys| && r.d.codeSep == 0
    ensures var r' := StepAt(env, false, script, i, r).value; var ds := r'.d.ds;
            && r'.cond == r.cond && r'.d.codeSep == 0
            && ds != [] && (AsBoolSpec(ds[|ds| - 1]) ==> FullyMatched(env, script, Value(m), keys))
  {
    hide Value, PushOk, Arguments, Greedy, SigCrypto, Matching, TopItems, AsBoolSpec;
    var ctx := At(script, i, false, r);
    var d1 := Admit(script[i], r.d).value;
    MultiSigExact(env, ctx, d1);
    ArgumentsFound(env, base, m, keys, n);
    var a := Arguments(env, r.d.ds).value;
    SameCrypto(env, script, i, a.sigs);
    BoolRoundTrip(true);
    BoolRoundTrip(false);
  }

  lemma SameCrypto(env: Env, script: seq<Pop>, i: nat, sigs: Items)
    ensures SigCrypto(env, ContextAt(script, i, false, 0), sigs) == Signed(env, script, sigs)
  {
    assert script[0..] == script;
  }

  lemma CheckSigStep(env: Env, script: seq<Pop>, i: nat, r: Run, base: Items, key: Item) returns (v: bool)
    requires i < |script| && script[i].op == 0xac && Executing(r.cond) && StepAt(env, false, script, i, r).Some?
    requires r.d.ds == base + [key] && r.d.codeSep == 0
    ensures base != [] && SameBut(r, StepAt(env, false, script, i, r).value, base[..|base| - 1] + [FromBool(v)])
    ensures v ==> SignedBy(env, script, key)
  {
    DataStep(env, false, script, i, r);
    hide StepAt, CheckSig, SigCrypto;
    var sig := base[|base| - 1];
    SameCrypto(env, script, i, [sig]);
    v := CheckSig(env, Signed(env, script, [sig]), sig, key).value;
    assert r.d.ds[..|r.d.ds| - 2] == base[..|base| - 1];
  }

  lemma NipData(env: Env, ctx: Context, pop: Pop, s: Items)
    requires pop.op == 0x77 && ExecData(env, ctx, pop, s).Some?
    ensures |s| >= 2 && ExecData(env, ctx, pop, s) == Some(s[..|s| - 2] + s[|s| - 1..])
  {
    hide ExecPickRoll, AsBoolSpec, DropSpec, DupSpec, OverSpec, RotSpec, SwapSpec, TuckSpec;
  }

  lemma NipStep(env: Env, segwit: bool, script: seq<Pop>, i: nat, r: Run, v: Item)
    requires i < |script| && script[i].op == 0x77 && Executing(r.cond) && StepAt(env, segwit, script, i, r).Some?
    requires r.d.ds != [] && r.d.ds[|r.d.ds| - 1] == v
    ensures var ds := StepAt(env, segwit, script, i, r).value.d.ds;
            ds != [] && ds[|ds| - 1] == v && SameBut(r, StepAt(env, segwit, script, i, r).value, ds)
  {
    hide StepAt, ExecData, Executing, At;
    DataStep(env, segwit, script, i, r);
    NipData(env, At(script, i, segwit, r), script[i], r.d.ds);
  }

  /** The end of a run that left a true item outside conditionals. */
  ghost predicate EndsTrue(env: Env, script: seq<Pop>, i: nat, r: Run) {
    && GoesOn(env, false, script, i, r)
    && var s := FlatRun(env, false, script, i, |script|, r).value.d.ds; s != [] && AsBoolSpec(s[|s| - 1])
  }

  lemma OnwardTrue(env: Env, script: seq<Pop>, i: nat, r: Run) returns (r': Run)
    requires EndsTrue(env, script, i, r) && i < |script|
    ensures StepAt(env, false, script, i, r) == Some(r') && EndsTrue(env, script, i + 1, r')
  {
    hide StepAt, FlatRun, AsBoolSpec, GoesOn;
    r' := Onward(env, false, script, i, r);
  }

  lemma AtTheEnd(env: Env, script: seq<Pop>, r: Run)
    requires EndsTrue(env, script, |script|, r)
    ensures r.d.ds != [] && AsBoolSpec(r.d.ds[|r.d.ds| - 1])
  {
    NoStep(env, false, script, |script|, r);
    hide FlatRun, AsBoolSpec;
  }

  /** Before the period the required signatures were matched. */
  lemma MultiSigBranch(env: Env, script: seq<Pop>, e: nat, r: Run, base: Items, m: Item, keys: Items, n: Item)
    requires e + 5 == |script| && 4 < e && EndsTrue(env, script, e - 1, r)
    requires script[e - 1].op == 0xae && script[e].op == 0x67 && script[e + 4].op == 0x68
    requires forall k :: e < k < e + 4 ==> !Conditional(script[k].op)
    requires r.cond == [CondTrue] && r.d.codeSep == 0 && r.d.ds == base + ([m] + keys + [n]) && Value(n) == |keys|
    ensures FullyMatched(env, script, Value(m), keys)
  {
    hide StepAt, FlatRun, GoesOn, FullyMatched, AsBoolSpec, Value, Conditional;
    var r1 := OnwardTrue(env, script, e - 1, r);
    MultiSigStep(env, script, e - 1, r, base, m, keys, n);
    var r2 := OnwardTrue(env, script, e, r1);
    FlipStep(env, false, script, e, r1);
    var r3 := Skips(env, false, script, e + 1, e + 4, r2);
    var r4 := OnwardTrue(env, script, e + 4, r3);
    CloseStep(env, false, script, e + 4, r3);
    AtTheEnd(env, script, r4);
  }

  /** From the period on the refund key signed. */
  lemma RefundBranch(env: Env, script: seq<Pop>, e: nat, r: Run, refund: Item)
    requires EndsTrue(env, script, e, r) && e + 5 == |script|
    requires script[e].op == 0x67 && PushesItem(script[e + 1], refund) && script[e + 2].op == 0xac
    requires script[e + 3].op == 0x77 && script[e + 4].op == 0x68
    requires r.cond == [CondFalse] && r.d.codeSep == 0
    ensures SignedBy(env, script, refund)
  {
    hide StepAt, FlatRun, GoesOn, SignedBy, AsBoolSpec, Pushed, EndsTrue;
    var r1 := OnwardTrue(env, script, e, r);
    FlipStep(env, false, script, e, r);
    var r2 := OnwardTrue(env, script, e + 1, r1);
    PushedStep(env, false, script, e + 1, r1);
    var r3 := OnwardTrue(env, script, e + 2, r2);
    var v := CheckSigStep(env, script, e + 2, r2, r.d.ds, refund);
    var r4 := OnwardTrue(env, script, e + 3, r3);
    NipStep(env, false, script, e + 3, r3, FromBool(v));
    var r5 := OnwardTrue(env, script, e + 4, r4);
    CloseStep(env, false, script, e + 4, r4);
    AtTheEnd(env, script, r5);
    BoolRoundTrip(v);
  }

  /** Where the parts of a multisig lock stand. */
  lemma LockLayout(lock: Pop, m: Pop, keyPops: seq<Pop>, n: Pop, refundPop: Pop, period: int, required: int, keys: Items,
                   refund: Item)
    requires LockParts(lock, m, keyPops, n, refundPop, period, required, keys, refund)
    ensures var script := MultiSigLockPops(lock, m, keyPops, n, refundPop); var e := |script| - 5;
            && e == |keys| + 7 && IsLock(script, period) && script[2].op == 0x9f
            && script[e - 1].op == 0xae && script[e].op == 0x67 && script[e + 1] == refundPop && script[e + 2].op == 0xac
            && script[e + 3].op == 0x77 && script[e + 4].op == 0x68 && script[4..e - 1] == [m] + keyPops + [n]
            && (forall k :: 4 <= k < e - 1 ==> script[k].op <= 0x60)
            && (forall k :: 4 <= k < |script| - 1 && k != e ==> !Conditional(script[k].op))
            && !PaysToScriptHash(script) && !WitnessProgram(script) && !HtlcWitness(script)
  {
    hide Pushed, Value;
    var script := MultiSigLockPops(lock, m, keyPops, n, refundPop);
    var body := [m] + keyPops + [n];
    assert |script| == |body| + 10 && script[4..4 + |body|] == body;
    forall k | 0 <= k < |body|
      ensures body[k].op <= 0x60 && script[4 + k] == body[k]
    {
      if 1 <= k <= |keyPops| {
        assert body[k] == keyPops[k - 1] && PushesItem(keyPops[k - 1], keys[k - 1]);
      }
    }
  }

  lemma LockedRun(env: Env, script: seq<Pop>, d: Machine, m: Pop, keyPops: seq<Pop>, n: Pop, refundPop: Pop, lock: Pop,
                  period: int, required: int, keys: Items, refund: Item)
    requires LockParts(lock, m, keyPops, n, refundPop, period, required, keys, refund)
    requires script == MultiSigLockPops(lock, m, keyPops, n, refundPop)
    requires EndsTrue(env, script, 0, Run(d, [])) && d.codeSep == 0
    ensures if env.age < period then FullyMatched(env, script, required, keys) else SignedBy(env, script, refund)
  {
    LockLayout(lock, m, keyPops, n, refundPop, period, required, keys, refund);
    PushedArguments(m, keyPops, n, keys);
    hide StepAt, FlatRun, GoesOn, IsLock, MultiSigLockPops, FullyMatched, SignedBy, AsBoolSpec, Pushed, PushedItems, Value,
         Conditional, PaysToScriptHash, WitnessProgram, HtlcWitness, PushesItem;
    var e := |script| - 5;
    var r := LockTest(env, false, script, Run(d, []), period);
    if env.age < period {
      var r1 := Pushes(env, false, script, 4, e - 1, r);
      MultiSigBranch(env, script, e, r1, d.ds, Pushed(m).value, keys, Pushed(n).value);
    } else {
      var r1 := Skips(env, false, script, 4, e, r);
      RefundBranch(env, script, e, r1, refund);
    }
  }

  // The branches of a hash time lock that name a key.

  lemma DupHashStep(env: Env, script: seq<Pop>, i: nat, r: Run) returns (r': Run, key: Item)
    requires EndsTrue(env, script, i, r) && i + 2 <= |script| && Executing(r.cond)
    requires script[i].op == 0x76 && script[i + 1].op == 0xa9
    ensures EndsTrue(env, script, i + 2, r') && r.d.ds != [] && key == r.d.ds[|r.d.ds| - 1]
    ensures SameBut(r, r', r.d.ds + [env.ripemd160(env.sha256(key))])
  {
    hide StepAt, FlatRun, GoesOn, EndsTrue, AsBoolSpec;
    var r1 := OnwardTrue(env, script, i, r);
    DataStep(env, false, script, i, r);
    key := r.d.ds[|r.d.ds| - 1];
    assert r1.d.ds == r.d.ds + [key];
    r' := OnwardTrue(env, script, i + 1, r1);
    DataStep(env, false, script, i + 1, r1);
    assert Rest(r1.d.ds) == r.d.ds;
  }

  lemma EqualVerifyStep(env: Env, script: seq<Pop>, i: nat, r: Run, base: Items, x: Item, y: Item)
    requires i < |script| && script[i].op == 0x88 && Executing(r.cond) && StepAt(env, false, script, i, r).Some?
    requires r.d.ds == base + [x] + [y]
    ensures x == y && SameBut(r, StepAt(env, false, script, i, r).value, base)
  {
    DataStep(env, false, script, i, r);
    BoolRoundTrip(x == y);
    hide StepAt, AsBoolSpec;
    assert r.d.ds[..|r.d.ds| - 2] == base && Rest(base + [FromBool(x == y)]) == base;
  }

  /** OP_CHECKSIG OP_ELSE OP_RETURN OP_ENDIF at the end of the taken branch. */
  lemma CheckedBranch(env: Env, script: seq<Pop>, e: nat, r: Run, base: Items, key: Item)
    requires e + 3 == |script| && 1 <= e && EndsTrue(env, script, e - 1, r)
    requires script[e - 1].op == 0xac && script[e].op == 0x67 && script[e + 1].op == 0x6a && script[e + 2].op == 0x68
    requires r.cond == [CondTrue] && r.d.codeSep == 0 && r.d.ds == base + [key]
    ensures SignedBy(env, script, key)
  {
    hide StepAt, FlatRun, GoesOn, SignedBy, AsBoolSpec, EndsTrue;
    var r1 := OnwardTrue(env, script, e - 1, r);
    var v := CheckSigStep(env, script, e - 1, r, base, key);
    var r2 := OnwardTrue(env, script, e, r1);
    FlipStep(env, false, script, e, r1);
    var r3 := OnwardTrue(env, script, e + 1, r2);
    SkipStep(env, false, script, e + 1, r2);
    var r4 := OnwardTrue(env, script, e + 2, r3);
    CloseStep(env, false, script, e + 2, r3);
    AtTheEnd(env, script, r4);
    BoolRoundTrip(v);
  }

  lemma OpensTrue(env: Env, script: seq<Pop>, d: Machine, period: int) returns (r: Run)
    requires EndsTrue(env, script, 0, Run(d, [])) && d.codeSep == 0 && IsLock(script, period)
    ensures EndsTrue(env, script, 4, r)
    ensures SameBut(Run(d, [if Holds(script[2].op, env.age, period) then CondTrue else CondFalse]), r, d.ds)
  {
    hide FlatRun, AsBoolSpec, Holds, IsLock, StepAt;
    r := LockTest(env, false, script, Run(d, []), period);
  }

  /** <key> OP_CHECKSIG in the branch. */
  lemma KeyRun(env: Env, script: seq<Pop>, d: Machine, period: int, key: Item)
    requires EndsTrue(env, script, 0, Run(d, [])) && d.codeSep == 0 && IsLock(script, period) && env.age > period
    requires |script| == 9 && script[2].op == 0xa0 && PushesItem(script[4], key) && script[5].op == 0xac
    requires script[6].op == 0x67 && script[7].op == 0x6a && script[8].op == 0x68
    ensures SignedBy(env, script, key)
  {
    hide StepAt, SignedBy, EndsTrue, IsLock, Pushed;
    var r := OpensTrue(env, script, d, period);
    var r1 := OnwardTrue(env, script, 4, r);
    PushedStep(env, false, script, 4, r);
    CheckedBranch(env, script, 6, r1, d.ds, key);
  }

  /** OP_DUP OP_HASH160 <hash> OP_EQUALVERIFY OP_CHECKSIG in the branch. */
  lemma KeyHashRun(env: Env, script: seq<Pop>, d: Machine, period: int, hash: Item) returns (key: Item)
    requires EndsTrue(env, script, 0, Run(d, [])) && d.codeSep == 0 && IsLock(script, period) && env.age > period
    requires |script| == 12 && script[2].op == 0xa0 && script[4].op == 0x76 && script[5].op == 0xa9
    requires PushesItem(script[6], hash) && script[7].op == 0x88 && script[8].op == 0xac
    requires script[9].op == 0x67 && script[10].op == 0x6a && script[11].op == 0x68
    ensures env.ripemd160(env.sha256(key)) == hash && SignedBy(env, script, key)
  {
    hide StepAt, SignedBy, EndsTrue, IsLock, Pushed;
    var r := OpensTrue(env, script, d, period);
    var r1;
    r1, key := DupHashStep(env, script, 4, r);
    var r2 := OnwardTrue(env, script, 6, r1);
    PushedStep(env, false, script, 6, r1);
    var r3 := OnwardTrue(env, script, 7, r2);
    EqualVerifyStep(env, script, 7, r2, d.ds, env.ripemd160(env.sha256(key)), hash);
    assert d.ds == d.ds[..|d.ds| - 1] + [key];
    CheckedBranch(env, script, 9, r3, d.ds[..|d.ds| - 1], key);
  }
}
