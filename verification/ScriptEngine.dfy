/** The engine object: its construction, Step and Execute, updating its fields in place. */
module ScriptEngine {
  import opened Bytes
  import opened Wrappers
  import opened ScriptStack
  import opened Script
  import opened ScriptBuilder
  import opened ScriptOps
  import opened Conditionals
  import opened StackBounds
  import opened ScriptVm

  // Accepting an input.

  /** The witness version and program of a script, from its two opcodes or those inside a time lock. */
  function ProgramInfo(pops: seq<Pop>): (int, Item)
    requires WitnessProgram(pops) || HtlcWitness(pops)
  {
    var version, program := if |pops| == 9 then pops[4] else pops[0], if |pops| == 9 then pops[5] else pops[1];
    (if version.op == 0 then 0 else version.op as int - 0x50, program.data)
  }

  predicate IsWitnessProgram(script: seq<byte>) {
    4 <= |script| <= 42 && Parse(script).1 && (WitnessProgram(Parse(script).0) || HtlcWitness(Parse(script).0))
  }

  /** The witness program of the input; None inside for no program, None outside for an error. */
  function FindProgram(env: Env, sig: seq<byte>, sigPops: seq<Pop>, pkPops: seq<Pop>, bip16: bool)
    : Option<Option<(int, Item)>>
  {
    if VerifyWitness !in env.flags then Some(None)
    else if Bip16 !in env.flags then None
    else if WitnessProgram(pkPops) || HtlcWitness(pkPops) then
      if sig != [] then None else Some(Some(ProgramInfo(pkPops)))
    else if env.inputWitness != [] && bip16 then
      if |sigPops| == 1 && CanonicalPush(sigPops[0]) && IsWitnessProgram(sigPops[0].data)
      then Some(Some(ProgramInfo(Parse(sigPops[0].data).0)))
      else None
    else if env.inputWitness != [] then None
    else Some(None)
  }

  /** The initial state, if the scripts and flags are accepted. */
  function Initial(env: Env, sig: seq<byte>, pk: seq<byte>): Option<Vm> {
    var sigPops, pkPops := Parse(sig), Parse(pk);
    if sig == [] && pk == [] then None
    else if CleanStack in env.flags && Bip16 !in env.flags && VerifyWitness !in env.flags then None
    else if SigPushOnly in env.flags && !(sigPops.1 && PushOnly(sigPops.0)) then None
    else if |sig| > MAX_SCRIPT_SIZE || |pk| > MAX_SCRIPT_SIZE || !sigPops.1 || !pkPops.1 then None
    else
      var bip16 := Bip16 in env.flags && PaysToScriptHash(pkPops.0);
      if bip16 && !PushOnly(sigPops.0) then None
      else
        match FindProgram(env, sig, sigPops.0, pkPops.0, bip16)
        case None => None
        case Some(program) =>
          Some(Vm([sigPops.0, pkPops.0], if sig == [] then 1 else 0, 0, Machine([], [], 0, 0), [], bip16, [],
                  if program.Some? then program.value.0 else 0, if program.Some? then Some(program.value.1) else None))
  }

  lemma ParsedNonempty(s: seq<byte>)
    requires s != [] && Parse(s).1
    ensures Parse(s).0 != []
  {
    ParsesFirst(s);
    ParseStep(s);
    hide First, Parse;
  }

  /** Every accepted input starts in a state that satisfies the invariant. */
  lemma InitialKeeps(env: Env, sig: seq<byte>, pk: seq<byte>)
    requires Initial(env, sig, pk).Some?
    ensures Inv(Initial(env, sig, pk).value)
  {
    hide Parse, FindProgram, PaysToScriptHash;
    if sig != [] {
      ParsedNonempty(sig);
    } else {
      ParsedNonempty(pk);
    }
  }

  lemma SegwitKept(script: seq<Pop>, i: nat, segwit: bool, codeSep: nat)
    ensures ContextAt(script, i, segwit, codeSep).segwit == segwit
  {
  }

  class Engine {
    const env: Env
    var scripts: seq<seq<Pop>>
    var scriptIdx: nat
    var scriptOff: nat
    var lastCodeSep: nat
    var dstack: Items
    var astack: Items
    var condStack: seq<Cond>
    var numOps: nat
    var bip16: bool
    var savedFirstStack: Items
    var witnessVersion: int
    var witnessProgram: Option<Item>

    ghost function State(): Vm
      reads this
    {
      Vm(scripts, scriptIdx, scriptOff, Machine(dstack, astack, numOps, lastCodeSep), condStack, bip16, savedFirstStack,
         witnessVersion, witnessProgram)
    }

    constructor (e: Env, vm: Vm)
      ensures env == e && State() == vm
    {
      env := e;
      scripts, scriptIdx, scriptOff := vm.scripts, vm.idx, vm.off;
      dstack, astack, numOps, lastCodeSep := vm.d.ds, vm.d.alt, vm.d.numOps, vm.d.codeSep;
      condStack, bip16, savedFirstStack := vm.cond, vm.bip16, vm.saved;
      witnessVersion, witnessProgram := vm.version, vm.program;
    }

    predicate SegwitActive()
      reads this
    {
      witnessProgram.Some? && witnessVersion == 0
    }

    predicate BranchExecuting()
      reads this
    {
      |condStack| == 0 || condStack[|condStack| - 1] == CondTrue
    }

    /** The tests in front of every opcode, and the operation count. */
    method AdmitOpcode(pop: Pop) returns (ok: bool)
      modifies this`numOps
      ensures var d := Admit(pop, old(State()).d); (ok <==> d.Some?) && (ok ==> State() == old(State()).(d := d.value))
    {
      if Disabled(pop.op) {
        return false;
      }
      if AlwaysIllegal(pop.op) {
        return false;
      }
      if pop.op > 0x60 {
        numOps := numOps + 1;
        if numOps > MAX_OPS {
          return false;
        }
      } else if |pop.data| > MAX_SCRIPT_ELEMENT_SIZE {
        return false;
      }
      return true;
    }

    /** executeOpcode on the fields. */
    method ExecuteOpcode(pop: Pop) returns (ok: bool)
      requires scriptIdx < |scripts| && 0 < scriptOff
      modifies this
      ensures var ctx := old(ContextAt(scripts[scriptIdx], scriptOff - 1, SegwitActive(), lastCodeSep));
              var r := Conditionals.ExecuteOpcode(env, ctx, pop, old(Run(State().d, condStack)));
              (ok <==> r.Some?) && (ok ==> State() == old(State()).(d := r.value.d, cond := r.value.cond))
    {
      hide Exec, ExecCond, MinimalPush, Admit, ContextAt, Conditional;
      var ctx := ContextAt(scripts[scriptIdx], scriptOff - 1, SegwitActive(), lastCodeSep);
      SegwitKept(scripts[scriptIdx], scriptOff - 1, SegwitActive(), lastCodeSep);
      ok := AdmitOpcode(pop);
      if !ok {
        return false;
      }
      if !BranchExecuting() && !Conditional(pop.op) {
        return true;
      }
      if MinimalData in env.flags && BranchExecuting() && pop.op <= 0x4e {
        if !MinimalPush(pop) {
          return false;
        }
      }
      if Conditional(pop.op) {
        var r := ExecCond(env, SegwitActive(), pop.op, Run(Machine(dstack, astack, numOps, lastCodeSep), condStack));
        if r.None? {
          return false;
        }
        SetMachine(r.value.d);
        condStack := r.value.cond;
        return true;
      }
      var d := Exec(env, ctx, pop, Machine(dstack, astack, numOps, lastCodeSep));
      if d.None? {
        return false;
      }
      SetMachine(d.value);
      return true;
    }

    method SetMachine(d: Machine)
      modifies this`dstack, this`astack, this`numOps, this`lastCodeSep
      ensures State() == old(State()).(d := d)
    {
      dstack, astack, numOps, lastCodeSep := d.ds, d.alt, d.numOps, d.codeSep;
    }

    /** verifyWitnessProgram on the fields. */
    method VerifyWitnessProgram() returns (ok: bool)
      modifies this
      ensures var v := LoadWitness(env, old(State())); (ok <==> v.Some?) && (ok ==> State() == v.value)
    {
      hide Parse, PayToPubKeyHash;
      var w := env.inputWitness;
      if SegwitActive() {
        var program := witnessProgram.value;
        if |program| == 20 {
          if |w| != 2 {
            return false;
          }
          scripts := scripts + [PayToPubKeyHash(program)];
          dstack := w;
        } else if |program| == 32 {
          if |w| == 0 {
            return false;
          }
          var witnessScript := w[|w| - 1];
          if |witnessScript| > MAX_SCRIPT_SIZE || env.sha256(witnessScript) != program {
            return false;
          }
          var pops, parsed := ParseScript(witnessScript);
          if !parsed {
            return false;
          }
          scripts := scripts + [pops];
          dstack := w[..|w| - 1];
        } else {
          return false;
        }
      } else if DiscourageUpgradeableWitnessProgram in env.flags {
        return false;
      } else {
        witnessProgram := None;
      }
      if SegwitActive() {
        for i := 0 to |dstack|
          invariant forall j :: 0 <= j < i ==> |dstack[j]| <= MAX_SCRIPT_ELEMENT_SIZE
        {
          if |dstack[i]| > MAX_SCRIPT_ELEMENT_SIZE {
            return false;
          }
        }
      }
      return true;
    }

    /** CheckErrorCondition; the boolean is popped. */
    method CheckErrorCondition(finalScript: bool) returns (ok: bool)
      modifies this`dstack
      ensures finalScript ==> (ok <==> Succeeded(env, old(State())))
      ensures !finalScript ==> (ok <==> scriptIdx >= |scripts| && old(dstack) != [] && AsBoolSpec(old(dstack)[|old(dstack)| - 1]))
    {
      hide AsBoolSpec;
      if scriptIdx < |scripts| {
        return false;
      }
      if finalScript && SegwitActive() && |dstack| != 1 {
        return false;
      }
      if finalScript && CleanStack in env.flags && |dstack| != 1 {
        return false;
      } else if |dstack| < 1 {
        return false;
      }
      var v := AsBool(dstack[|dstack| - 1]);
      dstack := dstack[..|dstack| - 1];
      return v;
    }

    /** Goes on to the next script, appending the redeem script or the witness script where they are due. */
    method NextScript() returns (ok: bool)
      requires scriptIdx < |scripts| && (bip16 && scriptIdx == 1 ==> |scripts| == 2 && savedFirstStack != [])
      modifies this
      ensures var n := ScriptVm.NextScript(env, old(State()));
              if ok then n == Continue(State()) else n == Failed
    {
      hide Parse, LoadWitness, AsBoolSpec;
      if scriptIdx == 0 && bip16 {
        scriptIdx := scriptIdx + 1;
        savedFirstStack := dstack;
      } else if scriptIdx == 1 && bip16 {
        scriptIdx := scriptIdx + 1;
        ok := CheckErrorCondition(false);
        if !ok {
          return false;
        }
        var script := savedFirstStack[|savedFirstStack| - 1];
        var pops, parsed := ParseScript(script);
        if !parsed {
          return false;
        }
        scripts := scripts + [pops];
        dstack := savedFirstStack[..|savedFirstStack| - 1];
      } else if (scriptIdx == 1 && witnessProgram.Some?) || (scriptIdx == 2 && witnessProgram.Some? && bip16) {
        scriptIdx := scriptIdx + 1;
        ok := VerifyWitnessProgram();
        return;
      } else {
        scriptIdx := scriptIdx + 1;
      }
      return true;
    }

    /** The end of a script. */
    method FinishScript() returns (done: bool, ok: bool)
      requires scriptIdx < |scripts| && (bip16 && scriptIdx == 1 ==> |scripts| == 2 && savedFirstStack != [])
      modifies this
      ensures var n := EndScript(env, old(State()));
              if !ok then n == Failed else if done then n == Finished(State()) else n == Continue(State())
    {
      hide ScriptVm.NextScript;
      if |condStack| != 0 {
        return false, false;
      }
      astack := [];
      numOps := 0;
      scriptOff := 0;
      ok := NextScript();
      if !ok {
        return false, false;
      }
      if scriptIdx < |scripts| && |scripts[scriptIdx]| == 0 {
        scriptIdx := scriptIdx + 1;
      }
      lastCodeSep := 0;
      return scriptIdx >= |scripts|, true;
    }

    /** Step: one opcode, and at the end of a script the move to the next. */
    method Step() returns (done: bool, ok: bool)
      requires Inv(State()) && EnvOk(env)
      modifies this
      ensures var n := ScriptVm.Step(env, old(State()));
              if !ok then n == Failed else if done then n == Finished(State()) else n == Continue(State())
    {
      hide EndScript, Conditionals.ExecuteOpcode, Doomed, PaysToScriptHash, Proper, EnvOk, AllSmall, PushOnly, ContextAt;
      if scriptIdx >= |scripts| || scriptOff >= |scripts[scriptIdx]| {
        return true, false;
      }
      ghost var vm := State();
      var opcode := scripts[scriptIdx][scriptOff];
      scriptOff := scriptOff + 1;
      ok := ExecuteOpcode(opcode);
      if !ok {
        return true, false;
      }
      if |dstack| + |astack| > MAX_STACK {
        return false, false;
      }
      OpcodeKeeps(env, vm);
      if scriptOff >= |scripts[scriptIdx]| {
        done, ok := FinishScript();
        return;
      }
      return false, true;
    }

    /** Execute ends, and succeeds exactly if the run from the initial state does. */
    method Execute() returns (ok: bool)
      requires Inv(State()) && EnvOk(env)
      modifies this
      ensures ok == Runs(env, old(State()))
    {
      hide ScriptVm.Step, Inv, EnvOk;
      var done := false;
      InvPlaced(State());
      while !done
        invariant !done ==> Inv(State()) && Runs(env, State()) == Runs(env, old(State()))
        invariant done ==> Succeeded(env, State()) == Runs(env, old(State()))
        invariant !done ==> scriptIdx < |scripts| && scriptIdx <= 4 && scriptOff < |scripts[scriptIdx]|
        decreases !done, 5 - scriptIdx, if scriptIdx < |scripts| then |scripts[scriptIdx]| - scriptOff else 0
      {
        StepKeeps(env, State());
        RunStep(env, State());
        done, ok := Step();
        if !ok {
          return false;
        }
        if !done {
          InvPlaced(State());
        }
      }
      ok := CheckErrorCondition(true);
    }
  }

  /** NewEngine. */
  method NewEngine(env: Env, scriptSig: seq<byte>, scriptPubKey: seq<byte>) returns (vm: Engine?)
    ensures vm != null <==> Initial(env, scriptSig, scriptPubKey).Some?
    ensures vm != null ==> fresh(vm) && vm.env == env && vm.State() == Initial(env, scriptSig, scriptPubKey).value && Inv(vm.State())
  {
    var initial := Initial(env, scriptSig, scriptPubKey);
    if initial.None? {
      return null;
    }
    InitialKeeps(env, scriptSig, scriptPubKey);
    vm := new Engine(env, initial.value);
  }
}
