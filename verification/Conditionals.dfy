/** Conditional execution: the machine's flat run of opcodes and a recursive evaluator. */
module Conditionals {
  import opened Bytes
  import opened Wrappers
  import opened ScriptStack
  import opened Script
  import opened ScriptBuilder
  import opened ScriptOps

  datatype Cond = CondTrue | CondFalse | CondSkip

  /** The data part of the machine and the conditional stack. */
  datatype Run = Run(d: Machine, cond: seq<Cond>)

  const OP_IF: int := 0x63
  const OP_NOTIF: int := 0x64
  const OP_ELSE: int := 0x67
  const OP_ENDIF: int := 0x68
  const MAX_STACK: nat := 1000

  predicate Disabled(op: byte) {
    0x7e <= op <= 0x81 || 0x83 <= op <= 0x86 || op == 0x8d || op == 0x8e || 0x95 <= op <= 0x99
  }

  predicate AlwaysIllegal(op: byte) {
    op == 0x65 || op == 0x66
  }

  predicate Conditional(op: byte) {
    op == OP_IF || op == OP_NOTIF || op == OP_ELSE || op == OP_ENDIF
  }

  /** isBranchExecuting looks at the top only. */
  predicate Executing(cond: seq<Cond>) {
    cond == [] || cond[|cond| - 1] == CondTrue
  }

  /** popIfBool. */
  function PopIfBool(env: Env, segwit: bool, s: Items): Option<bool> {
    if s == [] then None
    else
      var v := s[|s| - 1];
      if !segwit || MinimalIf !in env.flags then Some(AsBoolSpec(v))
      else if |v| > 1 || (|v| == 1 && v[0] != 1) then None
      else Some(AsBoolSpec(v))
  }

  /** The four conditional opcodes. */
  function ExecCond(env: Env, segwit: bool, op: byte, r: Run): Option<Run> {
    if op == OP_IF || op == OP_NOTIF then
      if !Executing(r.cond) then Some(r.(cond := r.cond + [CondSkip]))
      else
        match PopIfBool(env, segwit, r.d.ds)
        case None => None
        case Some(v) =>
          Some(Run(r.d.(ds := Rest(r.d.ds)), r.cond + [if v == (op == OP_IF) then CondTrue else CondFalse]))
    else if r.cond == [] then None
    else if op == OP_ELSE then Some(r.(cond := r.cond[..|r.cond| - 1] + [Flip(r.cond[|r.cond| - 1])]))
    else Some(r.(cond := r.cond[..|r.cond| - 1]))
  }

  function Flip(c: Cond): Cond {
    match c
    case CondTrue => CondFalse
    case CondFalse => CondTrue
    case CondSkip => CondSkip
  }

  /** The tests that also apply to opcodes that are not executed, and the operation count. */
  function Admit(pop: Pop, d: Machine): Option<Machine> {
    if Disabled(pop.op) || AlwaysIllegal(pop.op) then None
    else if pop.op > 0x60 then if d.numOps + 1 > MAX_OPS then None else Some(d.(numOps := d.numOps + 1))
    else if |pop.data| > MAX_SCRIPT_ELEMENT_SIZE then None
    else Some(d)
  }

  predicate PushOk(env: Env, pop: Pop) {
    MinimalData in env.flags && pop.op <= 0x4e ==> MinimalPush(pop)
  }

  /** executeOpcode. */
  function ExecuteOpcode(env: Env, ctx: Context, pop: Pop, r: Run): Option<Run> {
    match Admit(pop, r.d)
    case None => None
    case Some(d) =>
      if !Executing(r.cond) && !Conditional(pop.op) then Some(Run(d, r.cond))
      else if Executing(r.cond) && !PushOk(env, pop) then None
      else if Conditional(pop.op) then ExecCond(env, ctx.segwit, pop.op, Run(d, r.cond))
      else
        match Exec(env, ctx, pop, d)
        case None => None
        case Some(d') => Some(Run(d', r.cond))
  }

  function ContextAt(script: seq<Pop>, i: nat, segwit: bool, codeSep: nat): Context {
    Context(if codeSep <= |script| then script[codeSep..] else [], i + 1, segwit)
  }

  function Height(d: Machine): nat {
    |d.ds| + |d.alt|
  }

  /** One opcode of a script, with the test of the stack size. */
  function StepAt(env: Env, segwit: bool, script: seq<Pop>, i: nat, r: Run): Option<Run>
    requires i < |script|
  {
    match ExecuteOpcode(env, ContextAt(script, i, segwit, r.d.codeSep), script[i], r)
    case None => None
    case Some(r') => if Height(r'.d) > MAX_STACK then None else Some(r')
  }

  /** The opcodes from i up to j, one after the other. */
  function FlatRun(env: Env, segwit: bool, script: seq<Pop>, i: nat, j: nat, r: Run): Option<Run>
    requires i <= j <= |script|
    decreases j - i
  {
    if i == j then Some(r)
    else
      match StepAt(env, segwit, script, i, r)
      case None => None
      case Some(r') => FlatRun(env, segwit, script, i + 1, j, r')
  }

  lemma {:induction false} FlatRunSplit(env: Env, segwit: bool, script: seq<Pop>, i: nat, k: nat, j: nat, r: Run)
    requires i <= k <= j <= |script|
    ensures FlatRun(env, segwit, script, i, j, r)
            == match FlatRun(env, segwit, script, i, k, r)
               case None => None
               case Some(r') => FlatRun(env, segwit, script, k, j, r')
    decreases k - i
  {
    hide StepAt;
    if i < k {
      match StepAt(env, segwit, script, i, r)
      case None =>
      case Some(r') => FlatRunSplit(env, segwit, script, i + 1, k, j, r');
    }
  }

  // The conditional stack.

  ghost predicate AllTrue(cond: seq<Cond>) {
    forall i :: 0 <= i < |cond| ==> cond[i] == CondTrue
  }

  /** Above a branch that is not taken, and only there, everything is skipped. */
  ghost predicate Proper(cond: seq<Cond>) {
    forall j :: 0 <= j < |cond| ==> (cond[j] == CondSkip <==> !AllTrue(cond[..j]))
  }

  /** Then the top alone tells whether every enclosing conditional is taken. */
  lemma TopTells(cond: seq<Cond>)
    requires Proper(cond)
    ensures Executing(cond) <==> AllTrue(cond)
  {
    if cond != [] {
      var k := |cond| - 1;
      assert cond[k] == CondTrue ==> AllTrue(cond[..k]);
      assert cond == cond[..k] + [cond[k]];
    }
  }

  lemma ProperPush(cond: seq<Cond>, c: Cond)
    requires Proper(cond) && (c == CondSkip <==> !AllTrue(cond))
    ensures Proper(cond + [c])
  {
    var next := cond + [c];
    forall j | 0 <= j < |next|
      ensures next[j] == CondSkip <==> !AllTrue(next[..j])
    {
      assert next[..j] == if j < |cond| then cond[..j] else cond;
    }
  }

  lemma ProperPop(cond: seq<Cond>)
    requires Proper(cond) && cond != []
    ensures Proper(cond[..|cond| - 1])
  {
    var next := cond[..|cond| - 1];
    forall j | 0 <= j < |next|
      ensures next[j] == CondSkip <==> !AllTrue(next[..j])
    {
      assert next[..j] == cond[..j];
    }
  }

  /** Every opcode keeps the conditional stack proper, so the test of the top is right in every state. */
  lemma OpcodeKeepsProper(env: Env, ctx: Context, pop: Pop, r: Run)
    requires Proper(r.cond) && ExecuteOpcode(env, ctx, pop, r).Some?
    ensures Proper(ExecuteOpcode(env, ctx, pop, r).value.cond)
  {
    hide Exec, Admit, PopIfBool, Proper, AllTrue;
    var cond := r.cond;
    TopTells(cond);
    if Conditional(pop.op) {
      if pop.op == OP_IF || pop.op == OP_NOTIF {
        ProperPush(cond, ExecuteOpcode(env, ctx, pop, r).value.cond[|cond|]);
      } else {
        var k := |cond| - 1;
        ProperPop(cond);
        if pop.op == OP_ELSE {
          ProperTop(cond);
          ProperPush(cond[..k], Flip(cond[k]));
        }
      }
    }
  }

  /** In every state of a run, started outside conditionals or in any proper state, the test of the top is right. */
  lemma {:induction false} RunKeepsProper(env: Env, segwit: bool, script: seq<Pop>, i: nat, j: nat, r: Run)
    requires i <= j <= |script| && Proper(r.cond) && FlatRun(env, segwit, script, i, j, r).Some?
    ensures var cond := FlatRun(env, segwit, script, i, j, r).value.cond; Proper(cond) && (Executing(cond) <==> AllTrue(cond))
    decreases j - i
  {
    hide Proper, AllTrue, ExecuteOpcode;
    if i < j {
      OpcodeKeepsProper(env, ContextAt(script, i, segwit, r.d.codeSep), script[i], r);
      RunKeepsProper(env, segwit, script, i + 1, j, StepAt(env, segwit, script, i, r).value);
    } else {
      TopTells(r.cond);
    }
  }

  lemma ProperTop(cond: seq<Cond>)
    requires Proper(cond) && cond != []
    ensures cond[|cond| - 1] == CondSkip <==> !AllTrue(cond[..|cond| - 1])
  {
  }

  /** An opcode outside every taken branch leaves both data stacks alone. */
  lemma SkippedLeavesStacks(env: Env, ctx: Context, pop: Pop, r: Run)
    requires Proper(r.cond) && !AllTrue(r.cond) && ExecuteOpcode(env, ctx, pop, r).Some?
    ensures var d := ExecuteOpcode(env, ctx, pop, r).value.d; d.ds == r.d.ds && d.alt == r.d.alt && d.codeSep == r.d.codeSep
  {
    hide Exec, PopIfBool, Proper, AllTrue;
    TopTells(r.cond);
  }

  // Nested blocks.

  /** A sequence of plain opcodes and conditionals, by their positions in the script. */
  datatype Block = Done | Then(head: Node, tail: Block)
  datatype Node = Plain(pc: nat) | Branch(pc: nat, arms: Arms)

  /** The statements up to OP_ENDIF, separated by any number of OP_ELSE. */
  datatype Arms = Last(body: Block, endif: nat) | More(body: Block, els: nat, next: Arms)

  /** The block is what stands between positions i and j. */
  ghost predicate CoversBlock(script: seq<Pop>, b: Block, i: nat, j: nat) {
    match b
    case Done => i == j <= |script|
    case Then(n, t) => exists m :: CoversNode(script, n, i, m) && CoversBlock(script, t, m, j)
  }

  ghost predicate CoversNode(script: seq<Pop>, n: Node, i: nat, j: nat) {
    match n
    case Plain(pc) => pc == i < |script| && j == i + 1 && !Conditional(script[i].op)
    case Branch(pc, arms) =>
      pc == i < |script| && (script[i].op == OP_IF || script[i].op == OP_NOTIF) && CoversArms(script, arms, i + 1, j)
  }

  ghost predicate CoversArms(script: seq<Pop>, a: Arms, i: nat, j: nat) {
    match a
    case Last(body, e) => CoversBlock(script, body, i, e) && e < |script| && script[e].op == OP_ENDIF && j == e + 1
    case More(body, e, next) =>
      CoversBlock(script, body, i, e) && e < |script| && script[e].op == OP_ELSE && CoversArms(script, next, e + 1, j)
  }

  lemma CoversInOrder(script: seq<Pop>, b: Block, i: nat, j: nat)
    requires CoversBlock(script, b, i, j)
    ensures i <= j <= |script|
    decreases b
  {
    match b
    case Done =>
    case Then(n, t) =>
      var m :| CoversNode(script, n, i, m) && CoversBlock(script, t, m, j);
      NodeInOrder(script, n, i, m);
      CoversInOrder(script, t, m, j);
  }

  lemma NodeInOrder(script: seq<Pop>, n: Node, i: nat, j: nat)
    requires CoversNode(script, n, i, j)
    ensures i < j <= |script|
    decreases n
  {
    if n.Branch? {
      ArmsInOrder(script, n.arms, i + 1, j);
    }
  }

  lemma ArmsInOrder(script: seq<Pop>, a: Arms, i: nat, j: nat)
    requires CoversArms(script, a, i, j)
    ensures i < j <= |script|
    decreases a
  {
    match a
    case Last(body, e) => CoversInOrder(script, body, i, e);
    case More(body, e, next) =>
      CoversInOrder(script, body, i, e);
      ArmsInOrder(script, next, e + 1, j);
  }

  // The recursive evaluator, without a conditional stack.

  function Sized(d: Option<Machine>): Option<Machine> {
    if d.None? || Height(d.value) > MAX_STACK then None else d
  }

  /** A conditional opcode that only counts. */
  function Tick(script: seq<Pop>, pc: nat, d: Machine): Option<Machine> {
    if pc < |script| then Sized(Admit(script[pc], d)) else None
  }

  function EvalPlain(env: Env, segwit: bool, script: seq<Pop>, pc: nat, taken: bool, d: Machine): Option<Machine> {
    if pc >= |script| then None
    else
      match Admit(script[pc], d)
      case None => None
      case Some(d1) =>
        if !taken then Sized(Some(d1))
        else if !PushOk(env, script[pc]) then None
        else Sized(Exec(env, ContextAt(script, pc, segwit, d.codeSep), script[pc], d1))
  }

  /** The condition is popped only if the conditional itself is executed; then it chooses the first arm. */
  function EvalCondition(env: Env, segwit: bool, script: seq<Pop>, pc: nat, taken: bool, d: Machine): Option<(bool, Machine)> {
    if pc >= |script| then None
    else
      match Admit(script[pc], d)
      case None => None
      case Some(d1) =>
        if !taken then if Height(d1) > MAX_STACK then None else Some((false, d1))
        else
          match PopIfBool(env, segwit, d1.ds)
          case None => None
          case Some(v) =>
            var d2 := d1.(ds := Rest(d1.ds));
            if Height(d2) > MAX_STACK then None else Some((v == (script[pc].op == OP_IF), d2))
  }

  function EvalBlock(env: Env, segwit: bool, script: seq<Pop>, b: Block, taken: bool, d: Machine): Option<Machine> {
    match b
    case Done => Some(d)
    case Then(n, t) =>
      match EvalNode(env, segwit, script, n, taken, d)
      case None => None
      case Some(d') => EvalBlock(env, segwit, script, t, taken, d')
  }

  function EvalNode(env: Env, segwit: bool, script: seq<Pop>, n: Node, taken: bool, d: Machine): Option<Machine> {
    match n
    case Plain(pc) => EvalPlain(env, segwit, script, pc, taken, d)
    case Branch(pc, arms) =>
      match EvalCondition(env, segwit, script, pc, taken, d)
      case None => None
      case Some((first, d')) => EvalArms(env, segwit, script, arms, taken, first, d')
  }

  /** The arms alternate; none is taken unless the conditional is executed. */
  function EvalArms(env: Env, segwit: bool, script: seq<Pop>, a: Arms, taken: bool, arm: bool, d: Machine): Option<Machine> {
    match a
    case Last(body, e) =>
      (match EvalBlock(env, segwit, script, body, taken && arm, d)
       case None => None
       case Some(d') => Tick(script, e, d'))
    case More(body, e, next) =>
      match EvalBlock(env, segwit, script, body, taken && arm, d)
      case None => None
      case Some(d') =>
        match Tick(script, e, d')
        case None => None
        case Some(d'') => EvalArms(env, segwit, script, next, taken, !arm, d'')
  }

  // The two agree.

  function Lift(d: Option<Machine>, cond: seq<Cond>): Option<Run> {
    if d.None? then None else Some(Run(d.value, cond))
  }

  lemma OneStep(env: Env, segwit: bool, script: seq<Pop>, i: nat, r: Run)
    requires i < |script|
    ensures FlatRun(env, segwit, script, i, i + 1, r) == StepAt(env, segwit, script, i, r)
  {
    hide StepAt;
    match StepAt(env, segwit, script, i, r)
    case None =>
    case Some(r') => assert FlatRun(env, segwit, script, i + 1, i + 1, r') == Some(r');
  }

  lemma PlainStep(env: Env, segwit: bool, script: seq<Pop>, i: nat, r: Run)
    requires i < |script| && !Conditional(script[i].op) && Proper(r.cond)
    ensures StepAt(env, segwit, script, i, r) == Lift(EvalPlain(env, segwit, script, i, AllTrue(r.cond), r.d), r.cond)
  {
    hide Exec, Admit, PushOk, Proper, AllTrue;
    TopTells(r.cond);
  }

  lemma ConditionStep(env: Env, segwit: bool, script: seq<Pop>, i: nat, r: Run)
    requires i < |script| && (script[i].op == OP_IF || script[i].op == OP_NOTIF) && Proper(r.cond)
    ensures var e := EvalCondition(env, segwit, script, i, AllTrue(r.cond), r.d);
            StepAt(env, segwit, script, i, r)
            == if e.None? then None else Some(Run(e.value.1, r.cond + [ArmCond(AllTrue(r.cond), e.value.0)]))
  {
    hide Exec, Admit, PopIfBool, Proper, AllTrue;
    TopTells(r.cond);
  }

  /** The entry of the conditional stack for an arm. */
  function ArmCond(taken: bool, arm: bool): Cond {
    if !taken then CondSkip else if arm then CondTrue else CondFalse
  }

  lemma ElseStep(env: Env, segwit: bool, script: seq<Pop>, i: nat, r: Run, base: seq<Cond>, taken: bool, arm: bool)
    requires i < |script| && script[i].op == OP_ELSE && r.cond == base + [ArmCond(taken, arm)]
    ensures StepAt(env, segwit, script, i, r) == Lift(Tick(script, i, r.d), base + [ArmCond(taken, !arm)])
  {
    hide Exec, Admit, PopIfBool;
    assert (base + [ArmCond(taken, arm)])[..|base|] == base;
  }

  lemma EndifStep(env: Env, segwit: bool, script: seq<Pop>, i: nat, r: Run, base: seq<Cond>, c: Cond)
    requires i < |script| && script[i].op == OP_ENDIF && r.cond == base + [c]
    ensures StepAt(env, segwit, script, i, r) == Lift(Tick(script, i, r.d), base)
  {
    hide Exec, Admit, PopIfBool;
    assert (base + [c])[..|base|] == base;
  }

  lemma ArmProper(base: seq<Cond>, arm: bool)
    requires Proper(base)
    ensures var cond := base + [ArmCond(AllTrue(base), arm)]; Proper(cond) && (AllTrue(cond) <==> AllTrue(base) && arm)
  {
    var c := ArmCond(AllTrue(base), arm);
    ProperPush(base, c);
    var cond := base + [c];
    assert cond[|base|] == c;
    assert forall i :: 0 <= i < |base| ==> cond[i] == base[i];
  }

  /** Running the opcodes of a balanced block one after the other is evaluating the block. */
  lemma {:induction false} BlockAgrees(env: Env, segwit: bool, script: seq<Pop>, b: Block, i: nat, j: nat, r: Run)
    requires CoversBlock(script, b, i, j) && Proper(r.cond)
    ensures i <= j <= |script|
    ensures FlatRun(env, segwit, script, i, j, r) == Lift(EvalBlock(env, segwit, script, b, AllTrue(r.cond), r.d), r.cond)
    decreases b
  {
    hide FlatRun, EvalNode, Proper, AllTrue;
    CoversInOrder(script, b, i, j);
    match b
    case Done => NoStep(env, segwit, script, i, r);
    case Then(n, t) =>
      var m :| CoversNode(script, n, i, m) && CoversBlock(script, t, m, j);
      NodeInOrder(script, n, i, m);
      CoversInOrder(script, t, m, j);
      FlatRunSplit(env, segwit, script, i, m, j, r);
      NodeAgrees(env, segwit, script, n, i, m, r);
      var d := EvalNode(env, segwit, script, n, AllTrue(r.cond), r.d);
      if d.Some? {
        BlockAgrees(env, segwit, script, t, m, j, Run(d.value, r.cond));
      }
  }

  lemma NoStep(env: Env, segwit: bool, script: seq<Pop>, i: nat, r: Run)
    requires i <= |script|
    ensures FlatRun(env, segwit, script, i, i, r) == Some(r)
  {
  }

  lemma {:induction false} NodeAgrees(env: Env, segwit: bool, script: seq<Pop>, n: Node, i: nat, j: nat, r: Run)
    requires CoversNode(script, n, i, j) && i < j <= |script| && Proper(r.cond)
    ensures FlatRun(env, segwit, script, i, j, r) == Lift(EvalNode(env, segwit, script, n, AllTrue(r.cond), r.d), r.cond)
    decreases n
  {
    hide FlatRun, StepAt, EvalPlain, EvalCondition, EvalArms, Proper, AllTrue;
    OneStep(env, segwit, script, i, r);
    match n
    case Plain(pc) => PlainStep(env, segwit, script, i, r);
    case Branch(pc, arms) =>
      ConditionStep(env, segwit, script, i, r);
      FlatRunSplit(env, segwit, script, i, i + 1, j, r);
      var e := EvalCondition(env, segwit, script, i, AllTrue(r.cond), r.d);
      if e.Some? {
        ArmsAgree(env, segwit, script, arms, i + 1, j, r.cond, e.value.0, e.value.1);
      }
  }

  lemma {:induction false} ArmsAgree(env: Env, segwit: bool, script: seq<Pop>, a: Arms, i: nat, j: nat,
                                     base: seq<Cond>, arm: bool, d: Machine)
    requires CoversArms(script, a, i, j) && Proper(base)
    ensures i <= j <= |script|
    ensures FlatRun(env, segwit, script, i, j, Run(d, base + [ArmCond(AllTrue(base), arm)]))
            == Lift(EvalArms(env, segwit, script, a, AllTrue(base), arm, d), base)
    decreases a
  {
    hide FlatRun, StepAt, EvalBlock, Tick, Proper, AllTrue, ArmCond;
    ArmsInOrder(script, a, i, j);
    ArmProper(base, arm);
    var taken := AllTrue(base);
    var r := Run(d, base + [ArmCond(taken, arm)]);
    var body, e := a.body, if a.Last? then a.endif else a.els;
    if a.More? {
      ArmsInOrder(script, a.next, e + 1, j);
    }
    BlockAgrees(env, segwit, script, body, i, e, r);
    FlatRunSplit(env, segwit, script, i, e, j, r);
    var d1 := EvalBlock(env, segwit, script, body, taken && arm, d);
    if d1.Some? {
      var r1 := Run(d1.value, r.cond);
      OneStep(env, segwit, script, e, r1);
      if a.Last? {
        EndifStep(env, segwit, script, e, r1, base, ArmCond(taken, arm));
      } else {
        ElseStep(env, segwit, script, e, r1, base, taken, arm);
        FlatRunSplit(env, segwit, script, e, e + 1, j, r1);
        var d2 := Tick(script, e, d1.value);
        if d2.Some? {
          ArmsAgree(env, segwit, script, a.next, e + 1, j, base, !arm, d2.value);
        }
      }
    }
  }

  /** A balanced script, run from the start, is the evaluation of its blocks and ends outside conditionals. */
  lemma ScriptAgrees(env: Env, segwit: bool, script: seq<Pop>, b: Block, d: Machine)
    requires CoversBlock(script, b, 0, |script|)
    ensures FlatRun(env, segwit, script, 0, |script|, Run(d, [])) == Lift(EvalBlock(env, segwit, script, b, true, d), [])
  {
    hide FlatRun, EvalBlock, CoversBlock;
    BlockAgrees(env, segwit, script, b, 0, |script|, Run(d, []));
  }

  // Which scripts are balanced.

  /** From i on, with the given number of open conditionals, every OP_ELSE and OP_ENDIF has its conditional
  and all are closed at the end. */
  predicate Balanced(script: seq<Pop>, i: nat, depth: nat)
    requires i <= |script|
    decreases |script| - i
  {
    if i == |script| then depth == 0
    else if script[i].op == OP_IF || script[i].op == OP_NOTIF then Balanced(script, i + 1, depth + 1)
    else if script[i].op == OP_ELSE then depth > 0 && Balanced(script, i + 1, depth)
    else if script[i].op == OP_ENDIF then depth > 0 && Balanced(script, i + 1, depth - 1)
    else Balanced(script, i + 1, depth)
  }

  /** Nests what stands before the end of the innermost open conditional. */
  lemma {:induction false} Nest(script: seq<Pop>, i: nat, depth: nat) returns (b: Block, e: nat)
    requires i <= |script| && Balanced(script, i, depth)
    ensures CoversBlock(script, b, i, e) && i <= e <= |script| && Balanced(script, e, depth)
    ensures e == |script| || script[e].op == OP_ELSE || script[e].op == OP_ENDIF
    decreases |script| - i, 1
  {
    if i == |script| || script[i].op == OP_ELSE || script[i].op == OP_ENDIF {
      b, e := Done, i;
    } else {
      var n, m := NestOne(script, i, depth);
      var t;
      t, e := Nest(script, m, depth);
      b := Then(n, t);
      assert CoversNode(script, n, i, m) && CoversBlock(script, t, m, e);
    }
  }

  lemma {:induction false} NestOne(script: seq<Pop>, i: nat, depth: nat) returns (n: Node, m: nat)
    requires i < |script| && Balanced(script, i, depth) && script[i].op != OP_ELSE && script[i].op != OP_ENDIF
    ensures CoversNode(script, n, i, m) && i < m <= |script| && Balanced(script, m, depth)
    decreases |script| - i, 0
  {
    if Conditional(script[i].op) {
      var arms;
      arms, m := NestArms(script, i + 1, depth + 1);
      n := Branch(i, arms);
    } else {
      n, m := Plain(i), i + 1;
    }
  }

  lemma {:induction false} NestArms(script: seq<Pop>, i: nat, depth: nat) returns (a: Arms, m: nat)
    requires i <= |script| && depth > 0 && Balanced(script, i, depth)
    ensures CoversArms(script, a, i, m) && i < m <= |script| && Balanced(script, m, depth - 1)
    decreases |script| - i, 2
  {
    var body, e := Nest(script, i, depth);
    if script[e].op == OP_ENDIF {
      a, m := Last(body, e), e + 1;
    } else {
      var next;
      next, m := NestArms(script, e + 1, depth);
      a := More(body, e, next);
    }
  }

  lemma {:induction false} Unnest(script: seq<Pop>, b: Block, i: nat, j: nat, depth: nat)
    requires CoversBlock(script, b, i, j) && i <= j <= |script| && Balanced(script, j, depth)
    ensures Balanced(script, i, depth)
    decreases b
  {
    match b
    case Done =>
    case Then(n, t) =>
      var m :| CoversNode(script, n, i, m) && CoversBlock(script, t, m, j);
      CoversInOrder(script, t, m, j);
      NodeInOrder(script, n, i, m);
      Unnest(script, t, m, j, depth);
      if n.Branch? {
        UnnestArms(script, n.arms, i + 1, m, depth);
      }
  }

  lemma {:induction false} UnnestArms(script: seq<Pop>, a: Arms, i: nat, j: nat, depth: nat)
    requires CoversArms(script, a, i, j) && i <= j <= |script| && Balanced(script, j, depth)
    ensures Balanced(script, i, depth + 1)
    decreases a
  {
    match a
    case Last(body, e) =>
      CoversInOrder(script, body, i, e);
      Unnest(script, body, i, e, depth + 1);
    case More(body, e, next) =>
      CoversInOrder(script, body, i, e);
      ArmsInOrder(script, next, e + 1, j);
      UnnestArms(script, next, e + 1, j, depth);
      Unnest(script, body, i, e, depth + 1);
  }

  /** A script is balanced exactly if it is a block. */
  lemma BalancedIsBlock(script: seq<Pop>)
    ensures Balanced(script, 0, 0) <==> exists b :: CoversBlock(script, b, 0, |script|)
  {
    if Balanced(script, 0, 0) {
      var b, e := Nest(script, 0, 0);
      assert Balanced(script, e, 0);
      assert CoversBlock(script, b, 0, |script|);
    }
    if b :| CoversBlock(script, b, 0, |script|) {
      Unnest(script, b, 0, |script|, 0);
    }
  }

  lemma StepDepth(env: Env, segwit: bool, script: seq<Pop>, i: nat, r: Run)
    requires i < |script| && StepAt(env, segwit, script, i, r).Some?
    ensures var op, c, c' := script[i].op, |r.cond|, |StepAt(env, segwit, script, i, r).value.cond|;
            && (op == OP_IF || op == OP_NOTIF ==> c' == c + 1)
            && (op == OP_ELSE ==> c' == c > 0) && (op == OP_ENDIF ==> c' == c - 1) && (!Conditional(op) ==> c' == c)
  {
    hide Exec, Admit, PopIfBool, PushOk;
  }

  /** Only balanced scripts run to their end and leave no conditional open. */
  lemma {:induction false} FinishedIsBalanced(env: Env, segwit: bool, script: seq<Pop>, i: nat, r: Run)
    requires i <= |script| && FlatRun(env, segwit, script, i, |script|, r).Some?
    requires FlatRun(env, segwit, script, i, |script|, r).value.cond == []
    ensures Balanced(script, i, |r.cond|)
    decreases |script| - i
  {
    hide StepAt;
    if i < |script| {
      StepDepth(env, segwit, script, i, r);
      FinishedIsBalanced(env, segwit, script, i + 1, StepAt(env, segwit, script, i, r).value);
    }
  }
}
