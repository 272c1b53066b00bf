/** Exactly when an input opens a time lock. */
module LockExact {
  import opened Bytes
  import opened Wrappers
  import opened ScriptNum
  import opened ScriptStack
  import opened Script
  import opened ScriptBuilder
  import opened ScriptOps
  import opened MultiSig
  import opened Conditionals
  import opened StackBounds
  import opened ScriptVm
  import opened ScriptEngine
  import opened ScriptRuns
  import opened TimeLocks
  import opened LockScripts

  /** The state after an opcode that cannot fail: the data stack and the count have changed. */
  function Moved(r: Run, ds: Items, ops: nat): Run {
    Run(r.d.(ds := ds, numOps := r.d.numOps + ops), r.cond)
  }

  /** The stacks are within their limit, and one more operation is allowed. */
  predicate Roomy(r: Run) {
    Height(r.d) <= MAX_STACK && r.d.numOps < MAX_OPS
  }

  /** The test of the stack size. */
  function Fit(r: Run): Option<Run> {
    if Height(r.d) <= MAX_STACK then Some(r) else None
  }

  // Opcodes that go on.

  lemma AgeRuns(env: Env, script: seq<Pop>, i: nat, r: Run)
    requires i < |script| && script[i] == Op(0xb3) && Executing(r.cond) && Roomy(r)
    ensures StepAt(env, false, script, i, r) == Fit(Moved(r, r.d.ds + [EncodeNum(env.age)], 1))
  {
    hide EncodeNum;
  }

  lemma PushRuns(env: Env, script: seq<Pop>, i: nat, r: Run, v: Item)
    requires i < |script| && PushesItem(script[i], v) && |script[i].data| <= MAX_SCRIPT_ELEMENT_SIZE
    requires PushOk(env, script[i]) && Executing(r.cond)
    ensures StepAt(env, false, script, i, r) == Fit(Moved(r, r.d.ds + [v], 0))
  {
    hide PushOk, Pushed;
  }

  /** A number the machine reads, whatever the flags. */
  predicate Readable(v: Item) {
    |v| <= 4 && Minimal(v)
  }

  lemma CompareStack(env: Env, op: byte, base: Items, x: Item, y: Item)
    requires (op == 0x9f || op == 0xa0) && Minimal(x) && Minimal(y)
    ensures ExecArithmetic(env, op, base + [x] + [y])
            == if Readable(x) && Readable(y) then Some(base + [EncodeNum(BoolNumber(Holds(op, Value(x), Value(y))))])
               else None
  {
    hide EncodeNum, Value, Minimal;
    var s := base + [x] + [y];
    assert Rest(s) == base + [x] && Rest(base + [x]) == base;
    assert TopNumber(env, s) == if |y| <= 4 then Some(Value(y)) else None;
    assert TopNumber(env, base + [x]) == if |x| <= 4 then Some(Value(x)) else None;
    hide TopNumber;
  }

  lemma ArithmeticExec(env: Env, ctx: Context, pop: Pop, d: Machine)
    requires pop == Op(0x9f) || pop == Op(0xa0)
    ensures Exec(env, ctx, pop, d) == OnStack(d, ExecArithmetic(env, pop.op, d.ds))
  {
    hide ExecArithmetic;
  }

  /** Opcodes of the locks that neither push nor branch. */
  predicate Works(pop: Pop) {
    pop.data == [] && pop.op in {0x76, 0x88, 0x9f, 0xa0, 0xa9, 0xae}
  }

  /** Such an opcode in a branch that is taken. */
  lemma WorkRuns(env: Env, script: seq<Pop>, i: nat, r: Run)
    requires i < |script| && Works(script[i]) && Executing(r.cond) && r.d.numOps < MAX_OPS
    ensures var t := Exec(env, ContextAt(script, i, false, r.d.codeSep), script[i], r.d.(numOps := r.d.numOps + 1));
            StepAt(env, false, script, i, r) == if t.None? then None else Fit(Run(t.value, r.cond))
  {
    hide Admit, PushOk, Conditional, Exec, Executing, ContextAt, Works;
    WorkAdmitted(env, script[i], r.d);
  }

  lemma WorkAdmitted(env: Env, pop: Pop, d: Machine)
    requires Works(pop) && d.numOps < MAX_OPS
    ensures Admit(pop, d) == Some(d.(numOps := d.numOps + 1)) && PushOk(env, pop) && !Conditional(pop.op)
  {
  }

  lemma ArithmeticRuns(env: Env, script: seq<Pop>, i: nat, r: Run)
    requires i < |script| && (script[i] == Op(0x9f) || script[i] == Op(0xa0)) && Executing(r.cond) && Roomy(r)
    ensures script[i].op == 0x9f || script[i].op == 0xa0
    ensures var t := ExecArithmetic(env, script[i].op, r.d.ds);
            && (t.None? ==> StepAt(env, false, script, i, r) == None)
            && (t.Some? && |t.value| <= |r.d.ds| ==> StepAt(env, false, script, i, r) == Some(Moved(r, t.value, 1)))
  {
    hide StepAt, Exec, ExecArithmetic;
    WorkRuns(env, script, i, r);
    ArithmeticExec(env, ContextAt(script, i, false, r.d.codeSep), script[i], r.d.(numOps := r.d.numOps + 1));
  }

  lemma CompareRuns(env: Env, script: seq<Pop>, i: nat, r: Run, base: Items, x: Item, y: Item)
    requires i < |script| && (script[i] == Op(0x9f) || script[i] == Op(0xa0)) && Executing(r.cond) && Roomy(r)
    requires r.d.ds == base + [x] + [y] && Minimal(x) && Minimal(y)
    ensures StepAt(env, false, script, i, r)
            == if Readable(x) && Readable(y)
               then Some(Moved(r, base + [EncodeNum(BoolNumber(Holds(script[i].op, Value(x), Value(y))))], 1))
               else None
  {
    hide *;
    ArithmeticRuns(env, script, i, r);
    CompareStack(env, script[i].op, base, x, y);
  }

  lemma IfRuns(env: Env, script: seq<Pop>, i: nat, r: Run, base: Items, held: bool)
    requires i < |script| && script[i] == Op(0x63) && r.cond == [] && Roomy(r)
    requires r.d.ds == base + [EncodeNum(BoolNumber(held))]
    ensures StepAt(env, false, script, i, r)
            == Some(Moved(r, base, 1).(cond := [if held then CondTrue else CondFalse]))
  {
    EncodedBool(held);
    hide EncodeNum, AsBoolSpec;
    assert Rest(r.d.ds) == base;
    var c := if held then CondTrue else CondFalse;
    assert r.cond + [c] == [c];
  }

  /** A push that counts as no operation. */
  predicate Idle(pop: Pop) {
    pop.op <= 0x60 && |pop.data| <= MAX_SCRIPT_ELEMENT_SIZE
  }

  /** Pushes in a branch that is not taken. */
  lemma {:induction false} SkipPushes(env: Env, script: seq<Pop>, i: nat, j: nat, r: Run)
    requires i <= j <= |script| && !Executing(r.cond) && Height(r.d) <= MAX_STACK
    requires forall k :: i <= k < j ==> Idle(script[k])
    ensures FlatRun(env, false, script, i, |script|, r) == FlatRun(env, false, script, j, |script|, r)
    decreases j - i
  {
    if i < j {
      assert StepAt(env, false, script, i, r) == Some(r);
      hide StepAt, FlatRun;
      FlatStep(env, false, script, i, |script|, r);
      SkipPushes(env, script, i + 1, j, r);
    }
  }

  lemma SkipOne(env: Env, script: seq<Pop>, i: nat, r: Run)
    requires i < |script| && script[i] in [Op(0xae), Op(0xac), Op(0x6a), Op(0x77)] && !Executing(r.cond)
    requires Height(r.d) <= MAX_STACK && r.d.numOps < MAX_OPS
    ensures StepAt(env, false, script, i, r) == Some(Moved(r, r.d.ds, 1))
  {
  }

  lemma FlipRuns(env: Env, script: seq<Pop>, i: nat, r: Run)
    requires i < |script| && script[i] == Op(0x67) && |r.cond| == 1 && Height(r.d) <= MAX_STACK && r.d.numOps < MAX_OPS
    ensures StepAt(env, false, script, i, r) == Some(Moved(r, r.d.ds, 1).(cond := [Flip(r.cond[0])]))
  {
    assert r.cond[..0] + [Flip(r.cond[0])] == [Flip(r.cond[0])];
  }

  lemma CloseRuns(env: Env, script: seq<Pop>, i: nat, r: Run)
    requires i < |script| && script[i] == Op(0x68) && |r.cond| == 1 && Height(r.d) <= MAX_STACK && r.d.numOps < MAX_OPS
    ensures StepAt(env, false, script, i, r) == Some(Moved(r, r.d.ds, 1).(cond := []))
  {
  }

  lemma CheckSigRuns(env: Env, script: seq<Pop>, i: nat, r: Run, base: Items, key: Item)
    requires i < |script| && script[i] == Op(0xac) && Executing(r.cond) && Roomy(r) && r.d.codeSep == 0
    requires r.d.ds == base + [key]
    ensures StepAt(env, false, script, i, r)
            == if base == [] then None
               else
                 var v := CheckSig(env, Signed(env, script, [base[|base| - 1]]), base[|base| - 1], key);
                 if v.None? then None else Some(Moved(r, base[..|base| - 1] + [FromBool(v.value)], 1))
  {
    hide CheckSig, SigCrypto;
    if base != [] {
      SameCrypto(env, script, i, [base[|base| - 1]]);
      assert r.d.ds[..|r.d.ds| - 2] == base[..|base| - 1];
    }
  }

  lemma NipRuns(env: Env, script: seq<Pop>, i: nat, r: Run, base: Items, v: Item)
    requires i < |script| && script[i] == Op(0x77) && Executing(r.cond) && Roomy(r) && r.d.ds == base + [v]
    ensures StepAt(env, false, script, i, r) == if base == [] then None else Some(Moved(r, base[..|base| - 1] + [v], 1))
  {
    if base != [] {
      assert r.d.ds[..|r.d.ds| - 2] + r.d.ds[|r.d.ds| - 1..] == base[..|base| - 1] + [v];
    }
  }

  // The test of the age.

  /** The start of a locking script on the stack ds. */
  function Start(ds: Items): Run {
    Run(Machine(ds, [], 0, 0), [])
  }

  /** Both the age and the period fit the four bytes of a number, and both find room on the stack. */
  predicate Comparable(age: int, period: int, ds: Items) {
    MIN_INT32 < age && MIN_INT32 < period && |ds| + 2 <= MAX_STACK
  }

  /** The state in the branch that the test has chosen. */
  function Tested(ds: Items, held: bool): Run {
    Run(Machine(ds, [], 3, 0), [if held then CondTrue else CondFalse])
  }

  lemma AgeReadable(n: int)
    requires MIN_INT32 <= n <= MAX_INT32
    ensures Minimal(EncodeNum(n)) && Value(EncodeNum(n)) == n && (Readable(EncodeNum(n)) <==> MIN_INT32 < n)
  {
    EncodeNumCorrect(n);
    SizeOfInt32(n);
  }

  /** The push of a number passes the test of minimal pushes. */
  lemma NumberPush(env: Env, n: int)
    requires MIN_INT64 < n <= MAX_INT64
    ensures PushesItem(NumberPop(n), EncodeNum(n)) && PushOk(env, NumberPop(n)) && Idle(NumberPop(n))
  {
    NumberPopPushes(n);
    EncodeNumCorrect(n);
    MinimalUnique(Pushed(NumberPop(n)).value, EncodeNum(n));
    EncodeNumLength(n);
    hide EncodeNum, Value, Minimal;
  }

  /** The first four opcodes succeed exactly if both numbers can be compared, and choose the branch. */
  lemma OpensExactly(env: Env, script: seq<Pop>, ds: Items, period: int, compare: byte)
    requires MIN_INT32 <= period <= MAX_INT32 && MIN_INT32 <= env.age <= MAX_INT32
    requires |script| >= 4 && script[..4] == LockHead(period, compare) && (compare == 0x9f || compare == 0xa0)
    ensures FlatRun(env, false, script, 0, |script|, Start(ds))
            == if Comparable(env.age, period, ds)
               then FlatRun(env, false, script, 4, |script|, Tested(ds, Holds(compare, env.age, period)))
               else None
  {
    hide StepAt, FlatRun, NumberPop, EncodeNum, Value, Minimal, Pushed, PushOk;
    var head := LockHead(period, compare);
    assert script[0] == head[0] && script[1] == head[1] && script[2] == head[2] && script[3] == head[3];
    var x, y, r := EncodeNum(env.age), EncodeNum(period), Start(ds);
    AgeReadable(env.age);
    AgeReadable(period);
    NumberPush(env, period);
    if |ds| <= MAX_STACK {
      FlatStep(env, false, script, 0, |script|, r);
      AgeRuns(env, script, 0, r);
      var r1 := Moved(r, ds + [x], 1);
      if |ds| + 1 <= MAX_STACK {
        FlatStep(env, false, script, 1, |script|, r1);
        PushRuns(env, script, 1, r1, y);
        if |ds| + 2 <= MAX_STACK {
          ComparedExactly(env, script, ds, period, compare);
        }
      }
    } else {
      TooHigh(env, script, 0, r);
    }
  }

  lemma TooHigh(env: Env, script: seq<Pop>, i: nat, r: Run)
    requires i < |script| && script[i] == Op(0xb3) && r.cond == [] && Height(r.d) > MAX_STACK
    ensures FlatRun(env, false, script, i, |script|, r) == None
  {
    hide EncodeNum;
  }

  lemma ComparedExactly(env: Env, script: seq<Pop>, ds: Items, period: int, compare: byte)
    requires MIN_INT32 <= period <= MAX_INT32 && MIN_INT32 <= env.age <= MAX_INT32 && |ds| + 2 <= MAX_STACK
    requires |script| >= 4 && script[2] == Op(compare) && script[3] == Op(0x63) && (compare == 0x9f || compare == 0xa0)
    ensures var r := Moved(Moved(Start(ds), ds + [EncodeNum(env.age)], 1), ds + [EncodeNum(env.age)] + [EncodeNum(period)], 0);
            FlatRun(env, false, script, 2, |script|, r)
            == if Comparable(env.age, period, ds)
               then FlatRun(env, false, script, 4, |script|, Tested(ds, Holds(compare, env.age, period)))
               else None
  {
    hide StepAt, FlatRun, EncodeNum, Value, Minimal, Holds;
    var x, y := EncodeNum(env.age), EncodeNum(period);
    var r := Moved(Moved(Start(ds), ds + [x], 1), ds + [x] + [y], 0);
    AgeReadable(env.age);
    AgeReadable(period);
    FlatStep(env, false, script, 2, |script|, r);
    CompareRuns(env, script, 2, r, ds, x, y);
    if Comparable(env.age, period, ds) {
      var held := Holds(compare, env.age, period);
      var r1 := Moved(r, ds + [EncodeNum(BoolNumber(held))], 1);
      FlatStep(env, false, script, 3, |script|, r1);
      IfRuns(env, script, 3, r1, ds, held);
    }
  }

  // Following a run.

  /** The rest of the locking script ends well. */
  ghost predicate Ends(env: Env, script: seq<Pop>, i: nat, r: Run)
    requires i <= |script|
  {
    EndsWell(env, FlatRun(env, false, script, i, |script|, r))
  }

  /** A clean stack holds nothing but the result. */
  predicate Clean(env: Env, below: Items) {
    CleanStack in env.flags ==> below == []
  }

  lemma EndTrue(env: Env, script: seq<Pop>, r: Run, base: Items, v: bool)
    requires r.cond == [] && r.d.ds == base + [FromBool(v)]
    ensures Ends(env, script, |script|, r) <==> v && Clean(env, base)
  {
    NoStep(env, false, script, |script|, r);
    BoolRoundTrip(v);
    hide FlatRun, AsBoolSpec;
  }

  lemma EndsAlike(env: Env, script: seq<Pop>, i: nat, r: Run, j: nat, s: Run)
    requires i <= |script| && j <= |script|
    requires FlatRun(env, false, script, i, |script|, r) == FlatRun(env, false, script, j, |script|, s)
    ensures Ends(env, script, i, r) <==> Ends(env, script, j, s)
  {
    hide FlatRun, EndsWell;
  }

  lemma EndsNever(env: Env, script: seq<Pop>, i: nat, r: Run)
    requires i <= |script| && FlatRun(env, false, script, i, |script|, r) == None
    ensures !Ends(env, script, i, r)
  {
    hide FlatRun;
  }

  /** One opcode of the run. */
  lemma Through(env: Env, script: seq<Pop>, i: nat, r: Run)
    requires i < |script|
    ensures var s := StepAt(env, false, script, i, r);
            if s.Some? then Ends(env, script, i, r) <==> Ends(env, script, i + 1, s.value) else !Ends(env, script, i, r)
  {
    hide FlatRun, StepAt, Ends;
    FlatStep(env, false, script, i, |script|, r);
    var s := StepAt(env, false, script, i, r);
    if s.Some? {
      EndsAlike(env, script, i, r, i + 1, s.value);
    } else {
      EndsNever(env, script, i, r);
    }
  }

  /** An opcode that pushes the item under every flag. */
  ghost predicate Loads(env: Env, pop: Pop, v: Item) {
    PushesItem(pop, v) && PushOk(env, pop) && Idle(pop)
  }

  lemma Loaded(env: Env, script: seq<Pop>, i: nat, r: Run, v: Item)
    requires i < |script| && Loads(env, script[i], v) && Executing(r.cond)
    ensures StepAt(env, false, script, i, r) == Fit(Moved(r, r.d.ds + [v], 0))
  {
    hide StepAt, PushesItem, PushOk, Executing;
    PushRuns(env, script, i, r, v);
  }

  /** Several pushes, one after the other. */
  lemma {:induction false} LoadAll(env: Env, script: seq<Pop>, i: nat, vs: Items, r: Run)
    requires i + |vs| <= |script| && Executing(r.cond) && Height(r.d) <= MAX_STACK
    requires forall k :: 0 <= k < |vs| ==> Loads(env, script[i + k], vs[k])
    ensures FlatRun(env, false, script, i, |script|, r)
            == if Height(r.d) + |vs| <= MAX_STACK
               then FlatRun(env, false, script, i + |vs|, |script|, Moved(r, r.d.ds + vs, 0))
               else None
    decreases |vs|
  {
    hide StepAt, FlatRun, Loads, Executing;
    if vs == [] {
      assert r.d.ds + vs == r.d.ds;
    } else {
      assert Loads(env, script[i + 0], vs[0]);
      FlatStep(env, false, script, i, |script|, r);
      Loaded(env, script, i, r, vs[0]);
      var s := Moved(r, r.d.ds + [vs[0]], 0);
      if Height(s.d) <= MAX_STACK {
        forall k | 0 <= k < |vs| - 1
          ensures Loads(env, script[i + 1 + k], vs[1..][k])
        {
          assert Loads(env, script[i + (k + 1)], vs[k + 1]);
        }
        LoadAll(env, script, i + 1, vs[1..], s);
        assert r.d.ds + [vs[0]] + vs[1..] == r.d.ds + vs;
      }
    }
  }

  lemma KeyPush(env: Env, key: Item)
    requires |key| == 33 || |key| == 65 || |key| == 20
    ensures Loads(env, PushPop(key), key)
  {
    ItemPushes(key);
  }

  // The refund branch.

  /** The top of the stack is a signature that checks with the key. */
  ghost predicate TopSigned(env: Env, script: seq<Pop>, ds: Items, key: Item) {
    ds != [] && CheckSig(env, Signed(env, script, [ds[|ds| - 1]]), ds[|ds| - 1], key) == Some(true)
  }

  /** <refund> OP_CHECKSIG OP_NIP OP_ENDIF. */
  lemma RefundTail(env: Env, script: seq<Pop>, i: nat, r: Run, key: Item)
    requires i + 4 == |script| && Loads(env, script[i], key)
    requires script[i + 1] == Op(0xac) && script[i + 2] == Op(0x77) && script[i + 3] == Op(0x68)
    requires r.cond == [CondTrue] && r.d.codeSep == 0 && r.d.numOps + 3 <= MAX_OPS && Height(r.d) < MAX_STACK
    ensures Ends(env, script, i, r)
            <==> |r.d.ds| >= 2 && TopSigned(env, script, r.d.ds, key) && Clean(env, r.d.ds[..|r.d.ds| - 2])
  {
    hide StepAt, Ends, Loads, CheckSig, Clean;
    var ds := r.d.ds;
    Through(env, script, i, r);
    Loaded(env, script, i, r, key);
    var r1 := Moved(r, ds + [key], 0);
    Through(env, script, i + 1, r1);
    CheckSigRuns(env, script, i + 1, r1, ds, key);
    if ds != [] {
      var k := |ds| - 1;
      var v := CheckSig(env, Signed(env, script, [ds[k]]), ds[k], key);
      if v.Some? {
        var r2 := Moved(r1, ds[..k] + [FromBool(v.value)], 1);
        Through(env, script, i + 2, r2);
        NipRuns(env, script, i + 2, r2, ds[..k], FromBool(v.value));
        if k > 0 {
          assert ds[..k][..k - 1] == ds[..k - 1];
          var r3 := Moved(r2, ds[..k - 1] + [FromBool(v.value)], 1);
          Through(env, script, i + 3, r3);
          CloseRuns(env, script, i + 3, r3);
          EndTrue(env, script, Moved(r3, r3.d.ds, 1).(cond := []), ds[..k - 1], v.value);
        }
      }
    }
  }

  // The multisig branch.

  /** Below the extra item stand the required signatures, and without an encoding error they can be matched, in
  order, to keys that verify them. */
  ghost predicate MultiSigned(env: Env, script: seq<Pop>, ds: Items, required: int, keys: Items) {
    && |keys| <= MAX_KEYS && 0 <= required <= |keys| && required < |ds|
    && (StrictMultiSig in env.flags ==> ds[|ds| - 1 - required] == [])
    && var sigs := TopItems(ds, required); var c := Signed(env, script, sigs);
       Greedy(c, sigs, TopItems(keys, |keys|)).Some? && exists f :: Matching(c, sigs, TopItems(keys, |keys|), f)
  }

  lemma CountReadable(env: Env, n: nat, s: Items)
    ensures n <= MAX_KEYS ==> TopNumber(env, s + [EncodeNum(n)]) == Some(n)
  {
    if n <= MAX_KEYS {
      AgeReadable(n);
      hide EncodeNum, Value, Minimal;
    }
  }

  lemma NumberReadable(env: Env, n: int, s: Items)
    ensures TopNumber(env, s + [EncodeNum(n)]).Some? ==> TopNumber(env, s + [EncodeNum(n)]) == Some(n)
  {
    EncodeNumCorrect(n);
    hide EncodeNum, Value, Minimal;
  }

  /** The arguments found on top of ds. */
  lemma ArgumentsExactly(env: Env, ds: Items, required: int, keys: Items)
    ensures Arguments(env, ds + ([EncodeNum(required)] + keys + [EncodeNum(|keys|)]))
            == if |keys| <= MAX_KEYS && 0 <= required <= |keys| && required < |ds|
               then Some(MultiSigArgs(TopItems(keys, |keys|), TopItems(ds, required), ds[|ds| - 1 - required],
                                      ds[..|ds| - 1 - required]))
               else None
  {
    hide EncodeNum, TopNumber, TopItems;
    var m, n := EncodeNum(required), EncodeNum(|keys|);
    var s, s1 := ds + ([m] + keys + [n]), ds + [m] + keys;
    assert s == s1 + [n] && Rest(s) == s1 && s1[..|s1| - |keys|] == ds + [m] && Rest(ds + [m]) == ds;
    CountReadable(env, |keys|, s1);
    NumberReadable(env, |keys|, s1);
    NumberReadable(env, required, ds);
    if 0 <= required <= |keys| <= MAX_KEYS {
      CountReadable(env, required, ds);
    }
    TopOf(ds + [m], keys);
  }

  lemma MultiSigStack(env: Env, ctx: Context, d: Machine, a: MultiSigArgs)
    requires Arguments(env, d.ds) == Some(a) && d.numOps + |a.keys| <= MAX_OPS
    ensures var c := SigCrypto(env, ctx, a.sigs); var m := ExecMultiSig(env, ctx, 0xae, d);
            if (StrictMultiSig in env.flags && a.dummy != []) || Greedy(c, a.sigs, a.keys).None? then m == None
            else if exists f :: Matching(c, a.sigs, a.keys, f)
            then m == Some(d.(ds := a.below + [FromBool(true)], numOps := d.numOps + |a.keys|))
            else m.None? || m == Some(d.(ds := a.below + [FromBool(false)], numOps := d.numOps + |a.keys|))
  {
    hide Arguments, SigCrypto, Greedy, Matching;
    var c := SigCrypto(env, ctx, a.sigs);
    if Greedy(c, a.sigs, a.keys).Some? {
      GreedyExact(c, a.sigs, a.keys);
    }
  }

  lemma MultiSigRuns(env: Env, script: seq<Pop>, i: nat, r: Run)
    requires i < |script| && script[i] == Op(0xae) && Executing(r.cond) && r.d.numOps < MAX_OPS
    ensures var d := r.d.(numOps := r.d.numOps + 1);
            var m := ExecMultiSig(env, ContextAt(script, i, false, r.d.codeSep), 0xae, d);
            StepAt(env, false, script, i, r) == if m.None? then None else Fit(Run(m.value, r.cond))
  {
    hide StepAt, ExecMultiSig, ContextAt, Executing;
    WorkRuns(env, script, i, r);
  }

  lemma SkipTwo(env: Env, script: seq<Pop>, i: nat, r: Run)
    requires i + 4 == |script| && Idle(script[i])
    requires script[i + 1] == Op(0xac) && script[i + 2] == Op(0x77) && script[i + 3] == Op(0x68)
    requires r.cond == [CondFalse] && r.d.numOps + 3 <= MAX_OPS && Height(r.d) <= MAX_STACK
    ensures Ends(env, script, i, r) <==> Ends(env, script, |script|, Moved(r, r.d.ds, 3).(cond := []))
  {
    hide StepAt, FlatRun, Ends, Idle;
    SkipPushes(env, script, i, i + 1, r);
    EndsAlike(env, script, i, r, i + 1, r);
    Through(env, script, i + 1, r);
    SkipOne(env, script, i + 1, r);
    var r1 := Moved(r, r.d.ds, 1);
    Through(env, script, i + 2, r1);
    SkipOne(env, script, i + 2, r1);
    var r2 := Moved(r1, r.d.ds, 1);
    Through(env, script, i + 3, r2);
    CloseRuns(env, script, i + 3, r2);
  }

  /** OP_CHECKMULTISIG OP_ELSE <refund> OP_CHECKSIG OP_NIP OP_ENDIF, on pushed arguments. */
  lemma MultiSigTail(env: Env, script: seq<Pop>, i: nat, r: Run, ds: Items, required: int, keys: Items)
    requires i + 6 == |script| && script[i] == Op(0xae) && script[i + 1] == Op(0x67) && Idle(script[i + 2])
    requires script[i + 3] == Op(0xac) && script[i + 4] == Op(0x77) && script[i + 5] == Op(0x68)
    requires r == Run(Machine(ds + ([EncodeNum(required)] + keys + [EncodeNum(|keys|)]), [], 3, 0), [CondTrue])
    requires Height(r.d) <= MAX_STACK
    ensures Ends(env, script, i, r)
            <==> MultiSigned(env, script, ds, required, keys) && Clean(env, ds[..|ds| - 1 - required])
  {
    hide StepAt, FlatRun, Ends, Idle, EncodeNum, TopItems, Greedy, Matching, SigCrypto, ExecMultiSig, Arguments, Clean;
    var d := r.d.(numOps := 4);
    var ctx := ContextAt(script, i, false, 0);
    Through(env, script, i, r);
    MultiSigRuns(env, script, i, r);
    ArgumentsExactly(env, ds, required, keys);
    if |keys| <= MAX_KEYS && 0 <= required <= |keys| && required < |ds| {
      var a := Arguments(env, d.ds).value;
      MultiSigStack(env, ctx, d, a);
      SameCrypto(env, script, i, a.sigs);
      var m := ExecMultiSig(env, ctx, 0xae, d);
      if m.Some? {
        var r1 := Run(m.value, r.cond);
        Through(env, script, i + 1, r1);
        FlipRuns(env, script, i + 1, r1);
        var r2 := Moved(r1, r1.d.ds, 1).(cond := [CondFalse]);
        SkipTwo(env, script, i + 2, r2);
        var matched := exists f :: Matching(Signed(env, script, a.sigs), a.sigs, a.keys, f);
        EndTrue(env, script, Moved(r2, r2.d.ds, 3).(cond := []), a.below, matched);
      }
    } else {
      NoArguments(env, ctx, d);
    }
  }

  lemma NoArguments(env: Env, ctx: Context, d: Machine)
    requires Arguments(env, d.ds) == None
    ensures ExecMultiSig(env, ctx, 0xae, d) == None
  {
    hide Arguments;
  }

  // Whole locks.

  /** What stands where in a multisig lock. */
  lemma LockPlaces(lock: Pop, m: Pop, keys: seq<Pop>, n: Pop, refund: Pop)
    requires Idle(m) && Idle(n) && forall k :: 0 <= k < |keys| ==> Idle(keys[k])
    ensures var script := MultiSigLockPops(lock, m, keys, n, refund); var e := |keys| + 7;
            && |script| == e + 5 && script[..4] == [Op(0xb3), lock, Op(0x9f), Op(0x63)]
            && script[e - 1] == Op(0xae) && script[e] == Op(0x67) && script[e + 1] == refund
            && script[e + 2] == Op(0xac) && script[e + 3] == Op(0x77) && script[e + 4] == Op(0x68)
            && forall k :: 4 <= k < e - 1 ==> Idle(script[k])
  {
    LockSlices(lock, m, keys, n, refund);
    hide MultiSigLockPops, Idle;
    var script := MultiSigLockPops(lock, m, keys, n, refund);
    var inner, tail := script[4..|keys| + 7], script[|keys| + 7..];
    assert inner[|keys| + 2] == script[|keys| + 6];
    assert tail[0] == script[|keys| + 7] && tail[1] == script[|keys| + 8] && tail[2] == script[|keys| + 9]
        && tail[3] == script[|keys| + 10] && tail[4] == script[|keys| + 11];
    forall k | 4 <= k < |keys| + 6
      ensures Idle(script[k])
    {
      assert script[k] == inner[k - 4];
    }
  }

  lemma LockLoads(env: Env, keys: Items, required: int)
    requires KeySized(keys) && |keys| <= MAX_INT64 && MIN_INT64 < required <= MAX_INT64
    ensures var pops := [NumberPop(required)] + KeyPops(keys) + [NumberPop(|keys|)];
            var vs := [EncodeNum(required)] + keys + [EncodeNum(|keys|)];
            |KeyPops(keys)| == |keys| && |pops| == |vs| && forall k :: 0 <= k < |vs| ==> Loads(env, pops[k], vs[k])
  {
    NumberPush(env, required);
    NumberPush(env, |keys|);
    forall k | 0 <= k < |keys|
      ensures Loads(env, KeyPops(keys)[k], keys[k])
    {
      KeyPush(env, keys[k]);
    }
    hide Loads, NumberPop, EncodeNum;
  }

  /** Exactly when the stack ds opens a multisig lock: below the period the signatures are matched, from the period
  on the refund key has signed; the numbers can be compared and everything finds room. */
  ghost predicate LockOpens(env: Env, script: seq<Pop>, ds: Items, keys: Items, required: int, refund: Item, period: int) {
    && Comparable(env.age, period, ds)
    && if env.age < period
       then
         && |ds| + |keys| + 2 <= MAX_STACK && MultiSigned(env, script, ds, required, keys)
         && Clean(env, ds[..|ds| - 1 - required])
       else |ds| >= 2 && TopSigned(env, script, ds, refund) && Clean(env, ds[..|ds| - 2])
  }

  /** What stands in the lock, as the branches need it. */
  ghost predicate LockShape(env: Env, script: seq<Pop>, keys: Items, required: int, refund: Item, period: int)
    requires MIN_INT32 <= period <= MAX_INT32
  {
    var e := |keys| + 7; var vs := [EncodeNum(required)] + keys + [EncodeNum(|keys|)];
    && |script| == e + 5 && script[..4] == LockHead(period, 0x9f)
    && script[e - 1] == Op(0xae) && script[e] == Op(0x67) && Loads(env, script[e + 1], refund)
    && script[e + 2] == Op(0xac) && script[e + 3] == Op(0x77) && script[e + 4] == Op(0x68)
    && (forall k :: 0 <= k < |vs| ==> Loads(env, script[4 + k], vs[k]))
    && (forall k :: 4 <= k < e - 1 ==> Idle(script[k]))
  }

  lemma ShapeOf(env: Env, lock: Pop, m: Pop, keyPops: seq<Pop>, n: Pop, refundPop: Pop, keys: Items, required: int, refund: Item,
                period: int)
    requires MIN_INT32 <= period <= MAX_INT32 && [Op(0xb3), lock, Op(0x9f), Op(0x63)] == LockHead(period, 0x9f)
    requires |keyPops| == |keys| && Loads(env, refundPop, refund)
    requires var pops, vs := [m] + keyPops + [n], [EncodeNum(required)] + keys + [EncodeNum(|keys|)];
             forall k :: 0 <= k < |vs| ==> Loads(env, pops[k], vs[k])
    ensures LockShape(env, MultiSigLockPops(lock, m, keyPops, n, refundPop), keys, required, refund, period)
  {
    var pops, vs := [m] + keyPops + [n], [EncodeNum(required)] + keys + [EncodeNum(|keys|)];
    hide EncodeNum, PushesItem, PushOk, MultiSigLockPops, LockHead, Idle;
    forall k | 0 <= k < |vs|
      ensures Idle(pops[k])
    {
      LoadedIdle(env, pops[k], vs[k]);
    }
    hide Loads;
    assert pops[0] == m && pops[|keys| + 1] == n && forall k :: 0 <= k < |keys| ==> pops[1 + k] == keyPops[k];
    LockPlaces(lock, m, keyPops, n, refundPop);
    LockSlices(lock, m, keyPops, n, refundPop);
    var script := MultiSigLockPops(lock, m, keyPops, n, refundPop);
    forall k | 0 <= k < |vs|
      ensures script[4 + k] == pops[k]
    {
      assert script[4..|keys| + 7][k] == script[4 + k];
    }
  }

  lemma LockHasShape(env: Env, keys: Items, required: int, refund: Item, period: int)
    requires KeySized(keys) && KeySized([refund]) && |keys| <= MAX_INT64
    requires MIN_INT64 < required <= MAX_INT64 && MIN_INT32 <= period <= MAX_INT32
    ensures LockShape(env, LockPops(keys, required, refund, period), keys, required, refund, period)
  {
    assert [refund][0] == refund;
    KeyPush(env, refund);
    LockLoads(env, keys, required);
    hide NumberPop, PushPop, KeyPops, EncodeNum, Loads, MultiSigLockPops, LockShape;
    ShapeOf(env, NumberPop(period), NumberPop(required), KeyPops(keys), NumberPop(|keys|), PushPop(refund),
            keys, required, refund, period);
  }

  lemma LockExactly(env: Env, script: seq<Pop>, ds: Items, keys: Items, required: int, refund: Item, period: int)
    requires MIN_INT32 <= period <= MAX_INT32 && MIN_INT32 <= env.age <= MAX_INT32
    requires LockShape(env, script, keys, required, refund, period)
    ensures Ends(env, script, 0, Start(ds)) <==> LockOpens(env, script, ds, keys, required, refund, period)
  {
    hide StepAt, FlatRun, Ends, TopSigned, MultiSigned, Clean, Loads, Idle, EncodeNum, LockHead;
    var e := |keys| + 7;
    OpensExactly(env, script, ds, period, 0x9f);
    if !Comparable(env.age, period, ds) {
      EndsNever(env, script, 0, Start(ds));
    } else if env.age < period {
      var vs, r := [EncodeNum(required)] + keys + [EncodeNum(|keys|)], Tested(ds, true);
      EndsAlike(env, script, 0, Start(ds), 4, r);
      LoadAll(env, script, 4, vs, r);
      if |ds| + |keys| + 2 <= MAX_STACK {
        var r1 := Moved(r, ds + vs, 0);
        EndsAlike(env, script, 4, r, e - 1, r1);
        LoadedIdle(env, script[e + 1], refund);
        MultiSigTail(env, script, e - 1, r1, ds, required, keys);
      } else {
        EndsNever(env, script, 4, r);
      }
    } else {
      var r1 := Tested(ds, false);
      SkipPushes(env, script, 4, e - 1, r1);
      EndsAlike(env, script, 0, Start(ds), e - 1, r1);
      Through(env, script, e - 1, r1);
      SkipOne(env, script, e - 1, r1);
      var r2 := Moved(r1, ds, 1);
      Through(env, script, e, r2);
      FlipRuns(env, script, e, r2);
      RefundTail(env, script, e + 1, Moved(r2, ds, 1).(cond := [CondTrue]), refund);
    }
  }

  lemma LoadedIdle(env: Env, pop: Pop, v: Item)
    requires Loads(env, pop, v)
    ensures Idle(pop)
  {
  }

  /** An input opens a multisig lock exactly if it is admitted and its signature script leaves a stack that does. */
  lemma LockAccepted(env: Env, sig: seq<byte>, script: seq<byte>, keys: Items, required: int, refund: Item, period: int)
    requires KeySized(keys) && KeySized([refund]) && |keys| <= MAX_INT64
    requires MIN_INT64 < required <= MAX_INT64 && MIN_INT32 <= period <= MAX_INT32
    requires Unparse(LockPops(keys, required, refund, period)) == Some(script)
    ensures Accepts(env, sig, script)
            <==> && EnvOk(env) && Initial(env, sig, script).Some? && HandedOver(env, false, Parse(sig).0).Some?
                 && LockOpens(env, LockPops(keys, required, refund, period), HandedOver(env, false, Parse(sig).0).value,
                              keys, required, refund, period)
  {
    var pops := LockPops(keys, required, refund, period);
    LockIsPlain(keys, required, refund, period);
    ParsesBack(pops, script);
    LockHasShape(env, keys, required, refund, period);
    hide *;
    AcceptsExactly(env, sig, script);
    if EnvOk(env) && HandedOver(env, false, Parse(sig).0).Some? {
      var ds := HandedOver(env, false, Parse(sig).0).value;
      AgeInRange(env);
      LockExactly(env, pops, ds, keys, required, refund, period);
      EndsIs(env, pops, ds);
    }
  }

  lemma LockIsPlain(keys: Items, required: int, refund: Item, period: int)
    requires KeySized(keys) && KeySized([refund]) && |keys| <= MAX_INT64
    requires MIN_INT64 < required <= MAX_INT64 && MIN_INT32 <= period <= MAX_INT32
    ensures Unforwarded(LockPops(keys, required, refund, period)) && LockPops(keys, required, refund, period) != []
  {
    hide PushPop, NumberPop, KeyPops, MultiSigLockPops, PaysToScriptHash, WitnessProgram, HtlcWitness;
    LockPartsHold(keys, required, refund, period);
    LockLayout(NumberPop(period), NumberPop(required), KeyPops(keys), NumberPop(|keys|), PushPop(refund),
               period, required, keys, refund);
  }

  lemma AgeInRange(env: Env)
    requires EnvOk(env)
    ensures MIN_INT32 <= env.age <= MAX_INT32
  {
  }

  lemma EndsIs(env: Env, script: seq<Pop>, ds: Items)
    ensures Ends(env, script, 0, Start(ds))
            <==> EndsWell(env, FlatRun(env, false, script, 0, |script|, Run(Machine(ds, [], 0, 0), [])))
  {
    hide FlatRun, EndsWell;
  }

  // The comment on the refund branch.

  /** A signature script of two pushes hands over what it pushes. */
  lemma TwoPushes(env: Env, sig: seq<Pop>, x: Item, y: Item)
    requires |sig| == 2 && Loads(env, sig[0], x) && Loads(env, sig[1], y)
    ensures HandedOver(env, false, sig) == Some([x, y])
  {
    hide StepAt, FlatRun, Loads;
    var r := Run(Machine([], [], 0, 0), []);
    var vs := [x, y];
    LoadAll(env, sig, 0, vs, r);
    assert [] + vs == vs;
    NoStep(env, false, sig, 2, Moved(r, vs, 0));
  }

  lemma RefundOpens(env: Env, script: seq<Pop>, x: Item, signature: Item, keys: Items, required: int, refund: Item, period: int)
    requires MIN_INT32 < period == env.age
    requires CheckSig(env, Signed(env, script, [signature]), signature, refund) == Some(true)
    ensures LockOpens(env, script, [x, signature], keys, required, refund, period)
  {
    hide CheckSig, SigCrypto;
  }

  /** Although the comment asks for an age greater than the period, the input <x> <signature> of the refund key opens
  the lock at the period itself. */
  lemma RefundAtPeriod(env: Env, sig: seq<byte>, script: seq<byte>, keys: Items, required: int, refund: Item, period: int,
                       x: Item, signature: Item)
    requires KeySized(keys) && KeySized([refund]) && |keys| <= MAX_INT64
    requires MIN_INT64 < required <= MAX_INT64 && MIN_INT32 < period <= MAX_INT32
    requires Unparse(LockPops(keys, required, refund, period)) == Some(script)
    requires EnvOk(env) && Initial(env, sig, script).Some? && env.age == period
    requires var pops := Parse(sig).0; |pops| == 2 && Loads(env, pops[0], x) && Loads(env, pops[1], signature)
    requires CheckSig(env, Signed(env, LockPops(keys, required, refund, period), [signature]), signature, refund) == Some(true)
    ensures Accepts(env, sig, script)
  {
    hide *;
    TwoPushes(env, Parse(sig).0, x, signature);
    RefundOpens(env, LockPops(keys, required, refund, period), x, signature, keys, required, refund, period);
    LockAccepted(env, sig, script, keys, required, refund, period);
  }

  // Hash time locks to keys and key hashes.

  lemma ReturnStops(env: Env, script: seq<Pop>, i: nat, r: Run)
    requires i < |script| && script[i] == Op(0x6a) && Executing(r.cond)
    ensures StepAt(env, false, script, i, r) == None
  {
  }

  /** OP_CHECKSIG OP_ELSE OP_RETURN OP_ENDIF, on a pushed key. */
  lemma SignedTail(env: Env, script: seq<Pop>, i: nat, r: Run, ds: Items, key: Item)
    requires i + 4 == |script|
    requires script[i] == Op(0xac) && script[i + 1] == Op(0x67) && script[i + 2] == Op(0x6a) && script[i + 3] == Op(0x68)
    requires r.cond == [CondTrue] && r.d.codeSep == 0 && r.d.numOps + 4 <= MAX_OPS && Height(r.d) <= MAX_STACK
    requires r.d.ds == ds + [key]
    ensures Ends(env, script, i, r) <==> TopSigned(env, script, ds, key) && Clean(env, ds[..|ds| - 1])
  {
    hide StepAt, Ends, CheckSig, Clean;
    Through(env, script, i, r);
    CheckSigRuns(env, script, i, r, ds, key);
    if ds != [] {
      var k := |ds| - 1;
      var v := CheckSig(env, Signed(env, script, [ds[k]]), ds[k], key);
      if v.Some? {
        var r2 := Moved(r, ds[..k] + [FromBool(v.value)], 1);
        Through(env, script, i + 1, r2);
        FlipRuns(env, script, i + 1, r2);
        var r3 := Moved(r2, r2.d.ds, 1).(cond := [CondFalse]);
        Through(env, script, i + 2, r3);
        SkipOne(env, script, i + 2, r3);
        var r4 := Moved(r3, r3.d.ds, 1);
        Through(env, script, i + 3, r4);
        CloseRuns(env, script, i + 3, r4);
        EndTrue(env, script, Moved(r4, r4.d.ds, 1).(cond := []), ds[..k], v.value);
      }
    }
  }

  /** OP_ELSE OP_RETURN after a branch that was not taken. */
  lemma ReturnTail(env: Env, script: seq<Pop>, i: nat, r: Run)
    requires i + 3 == |script| && script[i] == Op(0x67) && script[i + 1] == Op(0x6a)
    requires r.cond == [CondFalse] && Roomy(r)
    ensures !Ends(env, script, i, r)
  {
    hide StepAt, FlatRun, Ends;
    Through(env, script, i, r);
    FlipRuns(env, script, i, r);
    var r1 := Moved(r, r.d.ds, 1).(cond := [CondTrue]);
    Through(env, script, i + 1, r1);
    ReturnStops(env, script, i + 1, r1);
  }

  /** Opcodes and pushes in a branch that is not taken. */
  lemma {:induction false} SkipAll(env: Env, script: seq<Pop>, i: nat, j: nat, r: Run)
    requires i <= j <= |script| && r.cond == [CondFalse] && Height(r.d) <= MAX_STACK && r.d.numOps + (j - i) <= MAX_OPS
    requires forall k :: i <= k < j ==> Idle(script[k]) || Works(script[k]) || script[k] == Op(0xac)
    ensures exists ops :: r.d.numOps <= ops <= r.d.numOps + (j - i)
                          && FlatRun(env, false, script, i, |script|, r)
                             == FlatRun(env, false, script, j, |script|, r.(d := r.d.(numOps := ops)))
    decreases j - i
  {
    hide FlatRun, StepAt, Idle, Works;
    if i < j {
      FlatStep(env, false, script, i, |script|, r);
      var s := SkipAny(env, script, i, r);
      SkipAll(env, script, i + 1, j, s);
    } else {
      assert r == r.(d := r.d.(numOps := r.d.numOps));
    }
  }

  lemma SkipAny(env: Env, script: seq<Pop>, i: nat, r: Run) returns (s: Run)
    requires i < |script| && r.cond == [CondFalse] && Roomy(r)
    requires Idle(script[i]) || Works(script[i]) || script[i] == Op(0xac)
    ensures StepAt(env, false, script, i, r) == Some(s)
    ensures s == r || s == r.(d := r.d.(numOps := r.d.numOps + 1))
  {
    s := StepAt(env, false, script, i, r).value;
  }

  lemma DupRuns(env: Env, script: seq<Pop>, i: nat, r: Run)
    requires i < |script| && script[i] == Op(0x76) && Executing(r.cond) && r.d.numOps < MAX_OPS
    ensures StepAt(env, false, script, i, r)
            == if r.d.ds == [] then None else Fit(Moved(r, r.d.ds + [r.d.ds[|r.d.ds| - 1]], 1))
  {
    WorkRuns(env, script, i, r);
    hide StepAt, Executing;
    var s := r.d.ds;
    assert s != [] ==> s[|s| - 1..] == [s[|s| - 1]];
  }

  lemma HashRuns(env: Env, script: seq<Pop>, i: nat, r: Run, base: Items, v: Item)
    requires i < |script| && script[i] == Op(0xa9) && Executing(r.cond) && Roomy(r) && r.d.ds == base + [v]
    ensures StepAt(env, false, script, i, r) == Some(Moved(r, base + [env.ripemd160(env.sha256(v))], 1))
  {
    WorkRuns(env, script, i, r);
    hide StepAt, Executing;
    assert Rest(r.d.ds) == base;
  }

  lemma EqualVerifyRuns(env: Env, script: seq<Pop>, i: nat, r: Run, base: Items, x: Item, y: Item)
    requires i < |script| && script[i] == Op(0x88) && Executing(r.cond) && Roomy(r) && r.d.ds == base + [x] + [y]
    ensures StepAt(env, false, script, i, r) == if x == y then Some(Moved(r, base, 1)) else None
  {
    WorkRuns(env, script, i, r);
    BoolRoundTrip(x == y);
    hide StepAt, Executing, AsBoolSpec;
    assert r.d.ds[..|r.d.ds| - 2] == base;
    assert Rest(PushBool(base, y == x)) == base;
  }

  /** The stack opens a lock to a key, or to the hash of a key. */
  ghost predicate KeyOpens(env: Env, script: seq<Pop>, ds: Items, a: Address) {
    if a.PubKeyAddress? then TopSigned(env, script, ds, a.data) && Clean(env, ds[..|ds| - 1])
    else
      && |ds| >= 2 && a.PubKeyHashAddress? && env.ripemd160(env.sha256(ds[|ds| - 1])) == a.data
      && TopSigned(env, script, ds[..|ds| - 1], ds[|ds| - 1]) && Clean(env, ds[..|ds| - 2])
  }

  /** OP_DUP OP_HASH160 <hash> OP_EQUALVERIFY OP_CHECKSIG OP_ELSE OP_RETURN OP_ENDIF. */
  lemma KeyHashTail(env: Env, script: seq<Pop>, i: nat, r: Run, h: Item)
    requires i + 8 == |script| && script[i] == Op(0x76) && script[i + 1] == Op(0xa9) && Loads(env, script[i + 2], h)
    requires script[i + 3] == Op(0x88) && script[i + 4] == Op(0xac) && script[i + 5] == Op(0x67)
    requires script[i + 6] == Op(0x6a) && script[i + 7] == Op(0x68)
    requires r.cond == [CondTrue] && r.d.codeSep == 0 && r.d.numOps + 7 <= MAX_OPS && Height(r.d) + 2 <= MAX_STACK
    ensures Ends(env, script, i, r) <==> KeyOpens(env, script, r.d.ds, PubKeyHashAddress(h))
  {
    hide StepAt, Ends, Loads, Clean, TopSigned;
    var ds := r.d.ds;
    Through(env, script, i, r);
    DupRuns(env, script, i, r);
    if ds != [] {
      var k := |ds| - 1;
      var key := ds[k];
      var r1 := Moved(r, ds + [key], 1);
      Through(env, script, i + 1, r1);
      HashRuns(env, script, i + 1, r1, ds, key);
      var x := env.ripemd160(env.sha256(key));
      var r2 := Moved(r1, ds + [x], 1);
      Through(env, script, i + 2, r2);
      Loaded(env, script, i + 2, r2, h);
      var r3 := Moved(r2, ds + [x] + [h], 0);
      Through(env, script, i + 3, r3);
      EqualVerifyRuns(env, script, i + 3, r3, ds, x, h);
      if x == h {
        assert ds == ds[..k] + [key];
        SignedTail(env, script, i + 4, Moved(r3, ds, 1), ds[..k], key);
        NotSigned(env, script, ds[..k], key);
        assert k > 0 ==> ds[..k][..k - 1] == ds[..|ds| - 2];
      }
    }
  }

  lemma NotSigned(env: Env, script: seq<Pop>, ds: Items, key: Item)
    ensures ds == [] ==> !TopSigned(env, script, ds, key)
  {
  }

  /** What stands where in a lock to a key or key hash. */
  ghost predicate HtlcShape(env: Env, script: seq<Pop>, a: Address, period: int)
    requires MIN_INT32 <= period <= MAX_INT32
  {
    var e := |script| - 3;
    && 4 < e && script[..4] == LockHead(period, 0xa0)
    && script[e] == Op(0x67) && script[e + 1] == Op(0x6a) && script[e + 2] == Op(0x68) && script[e - 1] == Op(0xac)
    && (forall k :: 4 <= k < e ==> Idle(script[k]) || Works(script[k]) || script[k] == Op(0xac))
    && if a.PubKeyAddress? then e == 6 && Loads(env, script[4], a.data)
       else
         && a.PubKeyHashAddress? && e == 9 && script[4] == Op(0x76) && script[5] == Op(0xa9)
         && Loads(env, script[6], a.data) && script[7] == Op(0x88)
  }

  lemma HtlcHasShape(env: Env, a: Address, period: int)
    requires WellSized(a) && (a.PubKeyAddress? || a.PubKeyHashAddress?) && MIN_INT32 <= period <= MAX_INT32
    ensures HtlcShape(env, HtlcPops(a, period), a, period)
  {
    KeyPush(env, a.data);
    hide NumberPop, PushPop, PushesItem, PushOk;
    LoadedIdle(env, PushPop(a.data), a.data);
    hide Loads, Idle;
    var script := HtlcPops(a, period);
    assert script[..4] == LockHead(period, 0xa0);
  }

  lemma HtlcExactly(env: Env, script: seq<Pop>, ds: Items, a: Address, period: int)
    requires MIN_INT32 <= period <= MAX_INT32 && MIN_INT32 <= env.age <= MAX_INT32
    requires (a.PubKeyAddress? || a.PubKeyHashAddress?) && HtlcShape(env, script, a, period)
    ensures Ends(env, script, 0, Start(ds))
            <==> Comparable(env.age, period, ds) && env.age > period && KeyOpens(env, script, ds, a)
  {
    hide StepAt, FlatRun, Ends, KeyOpens, Loads, Idle, Works, LockHead;
    var e := |script| - 3;
    OpensExactly(env, script, ds, period, 0xa0);
    if !Comparable(env.age, period, ds) {
      EndsNever(env, script, 0, Start(ds));
    } else {
      var r := Tested(ds, env.age > period);
      EndsAlike(env, script, 0, Start(ds), 4, r);
      if env.age <= period {
        SkipAll(env, script, 4, e, r);
        var ops :| r.d.numOps <= ops <= r.d.numOps + (e - 4)
                   && FlatRun(env, false, script, 4, |script|, r)
                      == FlatRun(env, false, script, e, |script|, r.(d := r.d.(numOps := ops)));
        EndsAlike(env, script, 4, r, e, r.(d := r.d.(numOps := ops)));
        ReturnTail(env, script, e, r.(d := r.d.(numOps := ops)));
      } else if a.PubKeyAddress? {
        KeyTail(env, script, r, ds, a);
      } else {
        KeyHashTail(env, script, 4, r, a.data);
        SameHashAddress(a);
      }
    }
  }

  lemma SameHashAddress(a: Address)
    requires a.PubKeyHashAddress?
    ensures a == PubKeyHashAddress(a.data)
  {
  }

  lemma KeyTail(env: Env, script: seq<Pop>, r: Run, ds: Items, a: Address)
    requires a.PubKeyAddress? && |script| == 9 && Loads(env, script[4], a.data) && script[5] == Op(0xac)
    requires script[6] == Op(0x67) && script[7] == Op(0x6a) && script[8] == Op(0x68)
    requires r == Tested(ds, true) && |ds| + 2 <= MAX_STACK
    ensures Ends(env, script, 4, r) <==> KeyOpens(env, script, ds, a)
  {
    hide StepAt, Ends, Loads, Clean, TopSigned;
    Through(env, script, 4, r);
    Loaded(env, script, 4, r, a.data);
    SignedTail(env, script, 5, Moved(r, ds + [a.data], 0), ds, a.data);
  }

  /** An input opens a lock to a key or key hash exactly if it is admitted, the age is over the period, and its
  signature script leaves a stack with that key's signature. */
  lemma HtlcAccepted(env: Env, sig: seq<byte>, script: seq<byte>, a: Address, period: int)
    requires WellSized(a) && (a.PubKeyAddress? || a.PubKeyHashAddress?) && MIN_INT32 <= period <= MAX_INT32
    requires Unparse(HtlcPops(a, period)) == Some(script)
    ensures Accepts(env, sig, script)
            <==> && EnvOk(env) && Initial(env, sig, script).Some? && HandedOver(env, false, Parse(sig).0).Some?
                 && var ds := HandedOver(env, false, Parse(sig).0).value;
                    env.age > period && Comparable(env.age, period, ds) && KeyOpens(env, HtlcPops(a, period), ds, a)
  {
    var pops := HtlcPops(a, period);
    HtlcIsPlain(a, period);
    ParsesBack(pops, script);
    HtlcHasShape(env, a, period);
    hide *;
    AcceptsExactly(env, sig, script);
    if EnvOk(env) && HandedOver(env, false, Parse(sig).0).Some? {
      var ds := HandedOver(env, false, Parse(sig).0).value;
      AgeInRange(env);
      HtlcExactly(env, pops, ds, a, period);
      EndsIs(env, pops, ds);
    }
  }

  lemma HtlcIsPlain(a: Address, period: int)
    requires WellSized(a) && (a.PubKeyAddress? || a.PubKeyHashAddress?) && MIN_INT32 <= period <= MAX_INT32
    ensures Unforwarded(HtlcPops(a, period)) && HtlcPops(a, period) != []
  {
    NotForwarded(a, period);
    hide NumberPop, PushPop, PaysToScriptHash, WitnessProgram, HtlcWitness;
  }
}
