/** The script machine over several scripts: program counter, pay-to-script-hash and witness programs. */
module ScriptVm {
  import opened Bytes
  import opened Wrappers
  import opened ScriptNum
  import opened ScriptStack
  import opened Script
  import opened ScriptBuilder
  import opened ScriptOps
  import opened Conditionals
  import opened StackBounds

  datatype Vm = Vm(
    scripts: seq<seq<Pop>>, idx: nat, off: nat, d: Machine, cond: seq<Cond>,
    bip16: bool, saved: Items, version: int, program: Option<Item>)

  /** A step fails, goes on, or ends the last script.  Panic stands for an index out of range. */
  datatype StepResult = Failed | Continue(vm: Vm) | Finished(vm: Vm) | Panic

  predicate Segwit(vm: Vm) {
    vm.program.Some? && vm.version == 0
  }

  // Templates.

  predicate SmallInt(op: byte) {
    op == 0 || 0x51 <= op <= 0x60
  }

  predicate NumberOp(op: byte) {
    SmallInt(op) || 1 <= op <= 4
  }

  predicate ScriptHashPart(pops: seq<Pop>) {
    |pops| == 3 && pops[0].op == 0xa9 && pops[1].op == 20 && pops[2].op == 0x87
  }

  /** OP_INPUTAGE <number> OP_GREATERTHAN OP_IF ... OP_ELSE OP_RETURN OP_ENDIF. */
  predicate HtlcFrame(pops: seq<Pop>) {
    var l := |pops|;
    && (l == 9 || l == 10 || l == 12)
    && pops[0].op == 0xb3 && NumberOp(pops[1].op) && pops[2].op == 0xa0 && pops[3].op == 0x63
    && pops[l - 3].op == 0x67 && pops[l - 2].op == 0x6a && pops[l - 1].op == 0x68
  }

  datatype ScriptClass = NonStandard | PubKeyTy | PubKeyHashTy | ScriptHashTy | WitnessPubKeyHashTy | WitnessScriptHashTy

  /** isHTLC. */
  function IsHtlc(pops: seq<Pop>): (bool, ScriptClass) {
    if !HtlcFrame(pops) then (false, NonStandard)
    else if |pops| == 9 then
      if (|pops[4].data| == 33 || |pops[4].data| == 65) && pops[5].op == 0xac then (true, PubKeyTy)
      else if pops[4].op == 0 && |pops[5].data| == 20 then (true, WitnessPubKeyHashTy)
      else if pops[4].op == 0 && |pops[5].data| == 32 then (true, WitnessScriptHashTy)
      else (false, NonStandard)
    else if |pops| == 10 then
      if pops[4].op == 0xa9 && pops[5].op == 20 && pops[6].op == 0x87 then (true, ScriptHashTy) else (false, NonStandard)
    else if pops[4].op == 0x76 && pops[5].op == 0xa9 && pops[6].op == 20 && pops[7].op == 0x88 && pops[8].op == 0xac
    then (true, PubKeyHashTy)
    else (false, NonStandard)
  }

  /** isHTLCWithScriptHash. */
  predicate HtlcScriptHash(pops: seq<Pop>) {
    IsHtlc(pops).1 == ScriptHashTy
  }

  /** isHTLCWitnessScript. */
  predicate HtlcWitness(pops: seq<Pop>) {
    IsHtlc(pops).1 == WitnessPubKeyHashTy || IsHtlc(pops).1 == WitnessScriptHashTy
  }

  predicate WitnessProgram(pops: seq<Pop>) {
    |pops| == 2 && SmallInt(pops[0].op) && CanonicalPush(pops[1]) && 2 <= |pops[1].data| <= 40
  }

  predicate PaysToScriptHash(pops: seq<Pop>) {
    ScriptHashPart(pops) || HtlcScriptHash(pops)
  }

  predicate PushOnly(pops: seq<Pop>) {
    forall i :: 0 <= i < |pops| ==> pops[i].op <= 0x60
  }

  // Between scripts.

  function PayToPubKeyHash(hash: Item): seq<Pop> {
    [Pop(0x76, []), Pop(0xa9, []), Pop(0x14, hash), Pop(0x88, []), Pop(0xac, [])]
  }

  predicate ItemsFit(s: Items) {
    forall i :: 0 <= i < |s| ==> |s[i]| <= MAX_SCRIPT_ELEMENT_SIZE
  }

  /** verifyWitnessProgram: loads the witness and the script it stands for. */
  function LoadWitness(env: Env, vm: Vm): Option<Vm> {
    if Segwit(vm) then
      var w := env.inputWitness;
      if |vm.program.value| == 20 then
        if |w| != 2 || !ItemsFit(w) then None
        else Some(vm.(scripts := vm.scripts + [PayToPubKeyHash(vm.program.value)], d := vm.d.(ds := w)))
      else if |vm.program.value| == 32 then
        if w == [] then None
        else
          var script, items := w[|w| - 1], w[..|w| - 1];
          if |script| > MAX_SCRIPT_SIZE || env.sha256(script) != vm.program.value || !Parse(script).1 || !ItemsFit(items)
          then None
          else Some(vm.(scripts := vm.scripts + [Parse(script).0], d := vm.d.(ds := items)))
      else None
    else if DiscourageUpgradeableWitnessProgram in env.flags then None
    else Some(vm.(program := None))
  }

  /** The redeem script is the last item of the first script's stack. */
  function LoadRedeemScript(vm: Vm): StepResult {
    if vm.d.ds == [] || !AsBoolSpec(vm.d.ds[|vm.d.ds| - 1]) then Failed
    else if vm.saved == [] then Panic
    else
      var k := |vm.saved| - 1;
      var parsed := Parse(vm.saved[k]);
      if !parsed.1 then Failed
      else Continue(vm.(idx := 2, scripts := vm.scripts + [parsed.0], d := vm.d.(ds := vm.saved[..k])))
  }

  /** What follows the last opcode of a script: the alt stack and the count are reset, and further scripts
  may be appended. */
  function NextScript(env: Env, vm: Vm): StepResult {
    if vm.idx == 0 && vm.bip16 then Continue(vm.(idx := 1, saved := vm.d.ds))
    else if vm.idx == 1 && vm.bip16 then LoadRedeemScript(vm)
    else if vm.program.Some? && (vm.idx == 1 || (vm.idx == 2 && vm.bip16)) then
      match LoadWitness(env, vm.(idx := vm.idx + 1))
      case None => Failed
      case Some(v) => Continue(v)
    else Continue(vm.(idx := vm.idx + 1))
  }

  /** An empty script is passed over; the machine is done when there is no further script. */
  function SkipEmpty(vm: Vm): StepResult {
    var idx := if vm.idx < |vm.scripts| && |vm.scripts[vm.idx]| == 0 then vm.idx + 1 else vm.idx;
    var v := vm.(idx := idx, d := vm.d.(codeSep := 0));
    if idx >= |vm.scripts| then Finished(v) else Continue(v)
  }

  function EndScript(env: Env, vm: Vm): StepResult {
    if vm.cond != [] then Failed
    else
      match NextScript(env, vm.(off := 0, d := vm.d.(alt := [], numOps := 0)))
      case Failed => Failed
      case Panic => Panic
      case Finished(v) => Finished(v)
      case Continue(v) => SkipEmpty(v)
  }

  /** Step. */
  function Step(env: Env, vm: Vm): StepResult {
    if vm.idx >= |vm.scripts| || vm.off >= |vm.scripts[vm.idx]| then Failed
    else
      match StepAt(env, Segwit(vm), vm.scripts[vm.idx], vm.off, Run(vm.d, vm.cond))
      case None => Failed
      case Some(r) =>
        var v := vm.(off := vm.off + 1, d := r.d, cond := r.cond);
        if v.off >= |v.scripts[v.idx]| then EndScript(env, v) else Continue(v)
  }

  /** CheckErrorCondition at the end of all scripts. */
  predicate Succeeded(env: Env, vm: Vm) {
    && vm.idx >= |vm.scripts|
    && (Segwit(vm) ==> |vm.d.ds| == 1)
    && (CleanStack in env.flags ==> |vm.d.ds| == 1)
    && vm.d.ds != [] && AsBoolSpec(vm.d.ds[|vm.d.ds| - 1])
  }

  // What every state keeps.

  /** A pay-to-script-hash script started on an empty stack cannot reach its end. */
  ghost predicate Doomed(script: seq<Pop>, off: nat, r: Run) {
    if ScriptHashPart(script) then off == 0 && r.d.ds == [] && r.cond == []
    else
      && off <= 8
      && (off <= 3 ==> r.cond == [] && |r.d.ds| == (if off == 3 then 1 else off))
      && (off >= 4 ==> r.d.ds == [])
      && (off == 4 ==> r.cond == [CondTrue] || r.cond == [CondFalse])
      && (5 <= off <= 7 ==> r.cond == [CondFalse])
      && (off == 8 ==> r.cond == [CondTrue])
  }

  /** At most two scripts are ever appended, each when the counter is about to reach it. */
  ghost predicate Placed(vm: Vm) {
    && 2 <= |vm.scripts| <= 4 && (vm.idx <= 1 ==> |vm.scripts| == 2) && (vm.idx == 2 ==> |vm.scripts| <= 3)
    && vm.idx < |vm.scripts| && vm.off < |vm.scripts[vm.idx]|
  }

  ghost predicate Inv(vm: Vm) {
    && Placed(vm)
    && Bounded(vm.d, vm.off) && |vm.d.ds| < INT32 && Proper(vm.cond)
    && AllSmall(vm.saved) && |vm.saved| <= MAX_STACK
    && (vm.bip16 ==> PaysToScriptHash(vm.scripts[1]))
    && (vm.bip16 && vm.idx == 0 ==> PushOnly(vm.scripts[0]) && vm.cond == [] && |vm.d.ds| == vm.off)
    && (vm.bip16 && vm.idx == 1 && vm.saved == [] ==> Doomed(vm.scripts[1], vm.off, Run(vm.d, vm.cond)))
  }

  /** A push leaves one more item. */
  lemma PushStep(env: Env, segwit: bool, script: seq<Pop>, i: nat, r: Run)
    requires i < |script| && script[i].op <= 0x60 && r.cond == [] && StepAt(env, segwit, script, i, r).Some?
    ensures var r' := StepAt(env, segwit, script, i, r).value; r'.cond == [] && |r'.d.ds| == |r.d.ds| + 1
  {
    hide MinimalPush;
  }

  lemma DoomedStep(env: Env, segwit: bool, script: seq<Pop>, i: nat, r: Run)
    requires PaysToScriptHash(script) && i < |script| && Doomed(script, i, r) && StepAt(env, segwit, script, i, r).Some?
    ensures i + 1 < |script| && Doomed(script, i + 1, StepAt(env, segwit, script, i, r).value)
  {
    if ScriptHashPart(script) {
      EmptyHash(env, segwit, script, i, r);
    } else {
      HtlcOpcodes(script);
      if i <= 3 {
        DoomedTest(env, segwit, script, i, r);
      } else {
        DoomedBranch(env, segwit, script, i, r);
      }
    }
  }

  lemma HtlcOpcodes(script: seq<Pop>)
    requires HtlcScriptHash(script)
    ensures |script| == 10 && script[0].op == 0xb3 && NumberOp(script[1].op) && script[2].op == 0xa0 && script[3].op == 0x63
    ensures script[4].op == 0xa9 && script[5].op == 20 && script[6].op == 0x87 && script[7].op == 0x67 && script[8].op == 0x6a
  {
  }

  lemma EmptyHash(env: Env, segwit: bool, script: seq<Pop>, i: nat, r: Run)
    requires i < |script| && script[i].op == 0xa9 && r.d.ds == [] && Executing(r.cond)
    ensures StepAt(env, segwit, script, i, r) == None
  {
  }

  lemma DoomedTest(env: Env, segwit: bool, script: seq<Pop>, i: nat, r: Run)
    requires |script| == 10 && i <= 3 && !ScriptHashPart(script) && Doomed(script, i, r)
    requires script[0].op == 0xb3 && NumberOp(script[1].op) && script[2].op == 0xa0 && script[3].op == 0x63
    requires StepAt(env, segwit, script, i, r).Some?
    ensures Doomed(script, i + 1, StepAt(env, segwit, script, i, r).value)
  {
    hide EncodeNum, AsNumber, MinimalPush, AsBoolSpec;
    if i == 1 {
      PushStep(env, segwit, script, i, r);
    }
  }

  lemma DoomedBranch(env: Env, segwit: bool, script: seq<Pop>, i: nat, r: Run)
    requires |script| == 10 && 4 <= i <= 8 && !ScriptHashPart(script) && Doomed(script, i, r)
    requires script[4].op == 0xa9 && script[5].op == 20 && script[6].op == 0x87 && script[7].op == 0x67 && script[8].op == 0x6a
    requires StepAt(env, segwit, script, i, r).Some?
    ensures i < 8 && Doomed(script, i + 1, StepAt(env, segwit, script, i, r).value)
  {
    if i == 4 && r.cond == [CondTrue] {
      EmptyHash(env, segwit, script, i, r);
    }
  }

  /** One opcode keeps the bounds and leaves at most 1000 items. */
  lemma OpcodeKeeps(env: Env, vm: Vm)
    requires Inv(vm) && EnvOk(env)
    requires StepAt(env, Segwit(vm), vm.scripts[vm.idx], vm.off, Run(vm.d, vm.cond)).Some?
    ensures var r := StepAt(env, Segwit(vm), vm.scripts[vm.idx], vm.off, Run(vm.d, vm.cond)).value;
            && Bounded(r.d, vm.off + 1) && Proper(r.cond) && Height(r.d) <= MAX_STACK
            && (vm.bip16 && vm.idx == 0 ==> r.cond == [] && |r.d.ds| == vm.off + 1)
            && (vm.bip16 && vm.idx == 1 && vm.saved == [] ==>
                  vm.off + 1 < |vm.scripts[1]| && Doomed(vm.scripts[1], vm.off + 1, r))
  {
    var script, i, r := vm.scripts[vm.idx], vm.off, Run(vm.d, vm.cond);
    if vm.bip16 && vm.idx == 0 {
      PushStep(env, Segwit(vm), script, i, r);
    }
    if vm.bip16 && vm.idx == 1 && vm.saved == [] {
      DoomedStep(env, Segwit(vm), script, i, r);
    }
    hide ExecuteOpcode, Proper, EnvOk, AllSmall, Doomed, PaysToScriptHash, Segwit;
    var ctx := ContextAt(script, i, Segwit(vm), r.d.codeSep);
    OpcodeBounded(env, ctx, script[i], r);
    OpcodeKeepsProper(env, ctx, script[i], r);
  }

  /** The state after the last opcode of a script, before it is decided what comes next. */
  ghost predicate AtEnd(vm: Vm) {
    && 2 <= |vm.scripts| <= 4 && (vm.idx <= 1 ==> |vm.scripts| == 2) && (vm.idx == 2 ==> |vm.scripts| <= 3)
    && vm.idx < |vm.scripts|
    && AllSmall(vm.d.ds) && Height(vm.d) <= MAX_STACK && vm.d.alt == [] && vm.d.numOps == 0 && vm.off == 0 && vm.cond == []
    && AllSmall(vm.saved) && |vm.saved| <= MAX_STACK
    && (vm.bip16 ==> PaysToScriptHash(vm.scripts[1]))
    && (vm.bip16 && vm.idx == 0 ==> vm.d.ds != [])
    && (vm.bip16 && vm.idx == 1 ==> vm.saved != [])
  }

  /** The state at the beginning of a script, which may be empty or missing. */
  ghost predicate AtStart(vm: Vm) {
    && 2 <= |vm.scripts| <= 4 && 1 <= vm.idx <= |vm.scripts| && (vm.idx <= 1 ==> |vm.scripts| == 2)
    && |vm.scripts| <= vm.idx + 1
    && AllSmall(vm.d.ds) && |vm.d.ds| < INT32 && vm.d.alt == [] && vm.d.numOps == 0 && vm.off == 0 && vm.cond == []
    && AllSmall(vm.saved) && |vm.saved| <= MAX_STACK
    && (vm.bip16 ==> PaysToScriptHash(vm.scripts[1]))
    && (vm.bip16 && vm.idx == 1 ==> vm.saved != [])
  }

  /** Loading a witness is the only way to more than 1000 items. */
  ghost predicate LoadsWitness(vm: Vm) {
    vm.program.Some? && ((vm.idx == 1 && !vm.bip16) || (vm.idx == 2 && vm.bip16))
  }

  lemma NextScriptKeeps(env: Env, vm: Vm)
    requires AtEnd(vm) && EnvOk(env)
    ensures var n := NextScript(env, vm);
            n.Failed? || (n.Continue? && AtStart(n.vm) && n.vm.idx > vm.idx && (!LoadsWitness(vm) ==> Height(n.vm.d) <= MAX_STACK))
  {
    hide PaysToScriptHash, AsBoolSpec;
    if vm.idx == 1 && vm.bip16 {
      SmallPrefix(vm.saved, |vm.saved| - 1);
    } else if vm.program.Some? && (vm.idx == 1 || (vm.idx == 2 && vm.bip16)) {
      WitnessKeeps(env, vm);
    }
  }

  lemma WitnessKeeps(env: Env, vm: Vm)
    requires AtEnd(vm) && EnvOk(env) && vm.program.Some? && 1 <= vm.idx <= 2 && (vm.bip16 ==> vm.idx == 2)
    ensures var v := LoadWitness(env, vm.(idx := vm.idx + 1));
            v.Some? ==> AtStart(v.value) && v.value.idx > vm.idx
  {
    hide PaysToScriptHash, PayToPubKeyHash, Parse;
  }

  lemma SkipEmptyKeeps(vm: Vm)
    requires AtStart(vm)
    ensures var n := SkipEmpty(vm);
            && (n.Continue? || n.Finished?) && n.vm.d.ds == vm.d.ds && n.vm.d.alt == [] && n.vm.d.numOps == 0
            && n.vm.idx >= vm.idx && (n.Continue? ==> Inv(n.vm) && n.vm.idx <= 4)
  {
    hide PaysToScriptHash, Doomed;
  }

  /** What a step promises. */
  ghost predicate Kept(vm: Vm, n: StepResult) {
    match n
    case Failed => true
    case Panic => false
    case Continue(v) =>
      && Inv(v) && (Height(v.d) <= MAX_STACK || LoadsWitness(vm))
      && v.idx <= 4 && (v.idx > vm.idx || (v.idx == vm.idx && v.scripts == vm.scripts && v.off == vm.off + 1))
    case Finished(v) =>
      AllSmall(v.d.ds) && AllSmall(v.d.alt) && v.d.numOps <= MAX_OPS && (Height(v.d) <= MAX_STACK || LoadsWitness(vm))
  }

  lemma EndScriptKeeps(env: Env, vm: Vm, was: Vm)
    requires AtEnd(vm.(off := 0, d := vm.d.(alt := [], numOps := 0), cond := [])) && EnvOk(env)
    requires was.idx == vm.idx && was.bip16 == vm.bip16 && was.program == vm.program
    ensures Kept(was, EndScript(env, vm))
  {
    hide AtEnd, NextScript, SkipEmpty, AtStart, Inv, EnvOk, AllSmall;
    if vm.cond == [] {
      var v := vm.(off := 0, d := vm.d.(alt := [], numOps := 0));
      NextScriptKeeps(env, v);
      var n := NextScript(env, v);
      if n.Continue? {
        StartParts(n.vm);
        SkipEmptyKeeps(n.vm);
      }
    }
  }

  lemma StartParts(vm: Vm)
    requires AtStart(vm)
    ensures AllSmall(vm.d.ds) && vm.d.alt == [] && |vm.scripts| <= 4 && AllSmall([])
  {
  }

  /** Every step of an accepted machine keeps the invariant, never indexes out of range, and moves on. */
  lemma StepKeeps(env: Env, vm: Vm)
    requires Inv(vm) && EnvOk(env)
    ensures Kept(vm, Step(env, vm))
  {
    var script := vm.scripts[vm.idx];
    var s := StepAt(env, Segwit(vm), script, vm.off, Run(vm.d, vm.cond));
    if s.Some? {
      OpcodeKeeps(env, vm);
      hide StepAt, EndScript, Doomed, PaysToScriptHash, Proper, EnvOk, AllSmall, Segwit, PushOnly;
      var v := vm.(off := vm.off + 1, d := s.value.d, cond := s.value.cond);
      if v.off >= |script| {
        SmallNothing();
        EndScriptKeeps(env, v, vm);
      }
    }
  }

  lemma SmallNothing()
    ensures AllSmall([])
  {
  }

  // Whole runs.

  /** Execute, as a function of the initial state. */
  ghost predicate Runs(env: Env, vm: Vm)
    requires Inv(vm) && EnvOk(env)
    decreases 5 - vm.idx, |vm.scripts[vm.idx]| - vm.off
  {
    StepKeeps(env, vm);
    match Step(env, vm)
    case Failed => false
    case Panic => false
    case Finished(v) => Succeeded(env, v)
    case Continue(v) => Runs(env, v)
  }

  lemma RunStep(env: Env, vm: Vm)
    requires Inv(vm) && EnvOk(env)
    ensures var n := Step(env, vm);
            && !n.Panic? && (n.Failed? ==> !Runs(env, vm)) && (n.Finished? ==> Runs(env, vm) == Succeeded(env, n.vm))
            && (n.Continue? ==> Inv(n.vm) && Runs(env, vm) == Runs(env, n.vm))
  {
    StepKeeps(env, vm);
    hide Step, EnvOk;
  }

  /** In every such state the test of the top alone tells whether all enclosing conditionals are taken. */
  lemma BranchTest(vm: Vm)
    requires Inv(vm)
    ensures Executing(vm.cond) <==> AllTrue(vm.cond)
  {
    TopTells(vm.cond);
  }

  lemma InvPlaced(vm: Vm)
    requires Inv(vm)
    ensures vm.idx < |vm.scripts| && vm.idx <= 4 && vm.off < |vm.scripts[vm.idx]|
  {
  }
}
