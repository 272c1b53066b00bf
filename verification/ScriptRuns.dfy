/** Whole runs seen from one script: the signature script ends before the locking script starts. */
module ScriptRuns {
  import opened Bytes
  import opened Wrappers
  import opened ScriptStack
  import opened Script
  import opened ScriptOps
  import opened Conditionals
  import opened StackBounds
  import opened ScriptVm
  import opened ScriptEngine

  /** The input is accepted and executing it succeeds. */
  ghost predicate Accepts(env: Env, sig: seq<byte>, pk: seq<byte>) {
    EnvOk(env) && Initial(env, sig, pk).Some? && (InitialKeeps(env, sig, pk); Runs(env, Initial(env, sig, pk).value))
  }

  /** The state in which the locking script starts on the stack ds. */
  function Locking(vm: Vm, ds: Items): Vm {
    vm.(idx := 1, off := 0, cond := [], d := Machine(ds, [], 0, 0), saved := if vm.bip16 then ds else vm.saved)
  }

  lemma StepFromFirst(env: Env, vm: Vm)
    requires Inv(vm) && EnvOk(env) && vm.idx == 0 && vm.scripts[1] != []
    ensures var s := StepAt(env, Segwit(vm), vm.scripts[0], vm.off, Run(vm.d, vm.cond)); var n := Step(env, vm);
            if s.None? then n == Failed
            else if vm.off + 1 < |vm.scripts[0]| then n == Continue(vm.(off := vm.off + 1, d := s.value.d, cond := s.value.cond))
            else if s.value.cond != [] then n == Failed
            else n == Continue(Locking(vm, s.value.d.ds))
  {
    hide StepAt, Doomed, PaysToScriptHash, Proper, AllSmall, PushOnly, EnvOk;
  }

  /** A run through the signature script is its flat run, followed by the locking script on what it leaves. */
  lemma {:induction false} FirstExact(env: Env, vm: Vm)
    requires Inv(vm) && EnvOk(env) && vm.idx == 0 && vm.scripts[1] != []
    ensures var script := vm.scripts[0]; var r := FlatRun(env, Segwit(vm), script, vm.off, |script|, Run(vm.d, vm.cond));
            if r.Some? && r.value.cond == []
            then Inv(Locking(vm, r.value.d.ds)) && (Runs(env, vm) <==> Runs(env, Locking(vm, r.value.d.ds)))
            else !Runs(env, vm)
    decreases |vm.scripts[0]| - vm.off
  {
    hide *;
    InvPlaced(vm);
    RunStep(env, vm);
    StepFromFirst(env, vm);
    var script, r := vm.scripts[0], Run(vm.d, vm.cond);
    FlatStep(env, Segwit(vm), script, vm.off, |script|, r);
    var s := StepAt(env, Segwit(vm), script, vm.off, r);
    if s.Some? {
      if vm.off + 1 < |script| {
        var v := Step(env, vm).vm;
        SegwitMeans(vm);
        SegwitMeans(v);
        FirstExact(env, v);
        SameLocking(vm, v);
      } else {
        NoStep(env, Segwit(vm), script, vm.off + 1, s.value);
      }
    }
  }

  lemma SameLocking(vm: Vm, v: Vm)
    requires v == vm.(off := v.off, d := v.d, cond := v.cond)
    ensures forall ds :: Locking(v, ds) == Locking(vm, ds)
  {
  }

  /** A successful run reaches the locking script outside conditionals, on the stack left by the signature script. */
  lemma SecondScript(env: Env, vm: Vm) returns (v: Vm, ds: Items)
    requires Inv(vm) && EnvOk(env) && Runs(env, vm) && vm.idx == 0 && vm.scripts[1] != []
    ensures Inv(v) && Runs(env, v) && v == Locking(vm, ds)
    ensures var r := FlatRun(env, Segwit(vm), vm.scripts[0], vm.off, |vm.scripts[0]|, Run(vm.d, vm.cond));
            r.Some? && r.value.cond == [] && r.value.d.ds == ds
  {
    hide *;
    InvPlaced(vm);
    FirstExact(env, vm);
    ds := FlatRun(env, Segwit(vm), vm.scripts[0], vm.off, |vm.scripts[0]|, Run(vm.d, vm.cond)).value.d.ds;
    v := Locking(vm, ds);
  }

  lemma StepFromSecond(env: Env, vm: Vm)
    requires Inv(vm) && EnvOk(env) && vm.idx == 1 && !Step(env, vm).Failed?
    ensures var s := StepAt(env, Segwit(vm), vm.scripts[1], vm.off, Run(vm.d, vm.cond)); var n := Step(env, vm);
            && s.Some?
            && (vm.off + 1 < |vm.scripts[1]| ==> n == Continue(vm.(off := vm.off + 1, d := s.value.d, cond := s.value.cond)))
            && (vm.off + 1 == |vm.scripts[1]| ==> s.value.cond == [])
            && (vm.off + 1 == |vm.scripts[1]| && vm.bip16 ==> s.value.d.ds != [] && AsBoolSpec(s.value.d.ds[|s.value.d.ds| - 1]))
            && (vm.off + 1 == |vm.scripts[1]| && !vm.bip16 && vm.program.None? ==> n.Finished? && n.vm.d.ds == s.value.d.ds)
            && (vm.off + 1 == |vm.scripts[1]| && !vm.bip16 && vm.program.Some? ==>
                  var x := Witnessed(vm, s.value.d); LoadWitness(env, x).Some? && n == SkipEmpty(LoadWitness(env, x).value))
  {
    hide StepAt, Doomed, PaysToScriptHash, Proper, AllSmall, PushOnly, EnvOk, AsBoolSpec, Parse;
  }

  /** The state in which the witness is loaded after the locking script. */
  function Witnessed(vm: Vm, d: Machine): Vm {
    vm.(idx := 2, off := 0, cond := [], d := d.(alt := [], numOps := 0))
  }

  lemma FlatStep(env: Env, segwit: bool, script: seq<Pop>, i: nat, j: nat, r: Run)
    requires i < j <= |script|
    ensures FlatRun(env, segwit, script, i, j, r)
            == var s := StepAt(env, segwit, script, i, r); if s.None? then None else FlatRun(env, segwit, script, i + 1, j, s.value)
  {
    hide StepAt;
  }

  lemma SegwitMeans(vm: Vm)
    ensures Segwit(vm) <==> vm.program.Some? && vm.version == 0
  {
  }

  lemma SucceededTop(env: Env, vm: Vm)
    requires Succeeded(env, vm)
    ensures vm.d.ds != [] && AsBoolSpec(vm.d.ds[|vm.d.ds| - 1])
  {
  }

  /** A successful run takes the locking script to its end outside conditionals; unless a witness follows, a true
  item is left there. */
  lemma {:induction false} SecondFlat(env: Env, vm: Vm)
    requires Inv(vm) && EnvOk(env) && Runs(env, vm) && vm.idx == 1
    ensures vm.off <= |vm.scripts[1]|
    ensures var r := FlatRun(env, Segwit(vm), vm.scripts[1], vm.off, |vm.scripts[1]|, Run(vm.d, vm.cond));
            r.Some? && r.value.cond == []
            && (vm.bip16 || vm.program.None? ==> r.value.d.ds != [] && AsBoolSpec(r.value.d.ds[|r.value.d.ds| - 1]))
    decreases |vm.scripts[1]| - vm.off
  {
    hide *;
    InvPlaced(vm);
    RunStep(env, vm);
    StepFromSecond(env, vm);
    var script, r := vm.scripts[1], Run(vm.d, vm.cond);
    FlatStep(env, Segwit(vm), script, vm.off, |script|, r);
    var s := StepAt(env, Segwit(vm), script, vm.off, r).value;
    if vm.off + 1 < |script| {
      var v := Step(env, vm).vm;
      SegwitMeans(vm);
      SegwitMeans(v);
      SecondFlat(env, v);
    } else {
      if !vm.bip16 && vm.program.None? {
        SucceededTop(env, Step(env, vm).vm);
      }
      NoStep(env, Segwit(vm), script, vm.off + 1, s);
    }
  }

  /** A successful run with a witness program loads the witness after the locking script and goes on from there. */
  lemma {:induction false} WitnessLoaded(env: Env, vm: Vm) returns (x: Vm)
    requires Inv(vm) && EnvOk(env) && Runs(env, vm) && vm.idx == 1 && !vm.bip16 && vm.program.Some?
    ensures x == Witnessed(vm, x.d) && LoadWitness(env, x).Some?
    ensures var n := SkipEmpty(LoadWitness(env, x).value); n.Continue? ==> Inv(n.vm) && Runs(env, n.vm)
    decreases |vm.scripts[1]| - vm.off
  {
    hide *;
    InvPlaced(vm);
    RunStep(env, vm);
    StepFromSecond(env, vm);
    var s := StepAt(env, Segwit(vm), vm.scripts[1], vm.off, Run(vm.d, vm.cond)).value;
    if vm.off + 1 < |vm.scripts[1]| {
      var v := Step(env, vm).vm;
      x := WitnessLoaded(env, v);
      SameWitnessed(vm, v, x.d);
    } else {
      x := Witnessed(vm, s.d);
      WitnessedTwice(vm, s.d);
    }
  }

  lemma SameWitnessed(vm: Vm, v: Vm, d: Machine)
    requires v == vm.(off := v.off, d := v.d, cond := v.cond)
    ensures Witnessed(v, d) == Witnessed(vm, d)
  {
  }

  lemma WitnessedTwice(vm: Vm, d: Machine)
    ensures Witnessed(vm, Witnessed(vm, d).d) == Witnessed(vm, d)
  {
  }

  lemma StepFromThird(env: Env, vm: Vm)
    requires Inv(vm) && EnvOk(env) && vm.idx == 2 && !vm.bip16 && |vm.scripts| == 3 && !Step(env, vm).Failed?
    ensures var s := StepAt(env, Segwit(vm), vm.scripts[2], vm.off, Run(vm.d, vm.cond)); var n := Step(env, vm);
            && s.Some?
            && (vm.off + 1 < |vm.scripts[2]| ==> n == Continue(vm.(off := vm.off + 1, d := s.value.d, cond := s.value.cond)))
            && (vm.off + 1 == |vm.scripts[2]| ==> s.value.cond == [] && n.Finished? && n.vm.d.ds == s.value.d.ds)
  {
    hide StepAt, Doomed, PaysToScriptHash, Proper, AllSmall, PushOnly, EnvOk, Parse, LoadWitness;
  }

  /** A successful run takes the script of a witness to its end and leaves a true item. */
  lemma {:induction false} ThirdFlat(env: Env, vm: Vm)
    requires Inv(vm) && EnvOk(env) && Runs(env, vm) && vm.idx == 2 && !vm.bip16 && |vm.scripts| == 3
    ensures vm.off <= |vm.scripts[2]|
    ensures var r := FlatRun(env, Segwit(vm), vm.scripts[2], vm.off, |vm.scripts[2]|, Run(vm.d, vm.cond));
            r.Some? && r.value.cond == [] && r.value.d.ds != [] && AsBoolSpec(r.value.d.ds[|r.value.d.ds| - 1])
    decreases |vm.scripts[2]| - vm.off
  {
    hide *;
    InvPlaced(vm);
    RunStep(env, vm);
    StepFromThird(env, vm);
    var script, r := vm.scripts[2], Run(vm.d, vm.cond);
    FlatStep(env, Segwit(vm), script, vm.off, |script|, r);
    var s := StepAt(env, Segwit(vm), script, vm.off, r).value;
    if vm.off + 1 < |script| {
      var v := Step(env, vm).vm;
      SegwitMeans(vm);
      SegwitMeans(v);
      ThirdFlat(env, v);
    } else {
      SucceededTop(env, Step(env, vm).vm);
      NoStep(env, Segwit(vm), script, vm.off + 1, s);
    }
  }

  lemma InitialParts(env: Env, sig: seq<byte>, pk: seq<byte>)
    requires Initial(env, sig, pk).Some?
    ensures var vm := Initial(env, sig, pk).value;
            && Parse(pk).1 && vm.scripts == [Parse(sig).0, Parse(pk).0]
            && vm.idx == (if sig == [] then 1 else 0) && vm.off == 0 && vm.cond == [] && vm.d == Machine([], [], 0, 0)
            && (vm.bip16 ==> PaysToScriptHash(Parse(pk).0))
            && (!vm.bip16 && vm.program.Some? ==> WitnessProgram(Parse(pk).0) || HtlcWitness(Parse(pk).0))
  {
    hide Parse, PaysToScriptHash, WitnessProgram, HtlcWitness, ProgramInfo, PushOnly, IsWitnessProgram;
  }

  lemma AcceptedStart(env: Env, sig: seq<byte>, pk: seq<byte>)
    requires Accepts(env, sig, pk)
    ensures EnvOk(env) && Initial(env, sig, pk).Some? && Inv(Initial(env, sig, pk).value) && Runs(env, Initial(env, sig, pk).value)
  {
    InitialKeeps(env, sig, pk);
    hide Initial, Inv, EnvOk, Runs;
  }

  lemma NoSignature(env: Env, segwit: bool)
    ensures Parse([]) == ([], true) && HandedOver(env, segwit, []) == Some([])
  {
  }

  /** The data stack with which a signature script hands over, if it runs to its end outside conditionals. */
  ghost function HandedOver(env: Env, segwit: bool, pops: seq<Pop>): Option<Items> {
    var r := FlatRun(env, segwit, pops, 0, |pops|, Run(Machine([], [], 0, 0), []));
    if r.Some? && r.value.cond == [] then Some(r.value.d.ds) else None
  }

  lemma HandsOver(env: Env, segwit: bool, pops: seq<Pop>)
    ensures var r := FlatRun(env, segwit, pops, 0, |pops|, Run(Machine([], [], 0, 0), []));
            r.Some? && r.value.cond == [] ==> HandedOver(env, segwit, pops) == Some(r.value.d.ds)
  {
    hide FlatRun;
  }

  lemma StartsOn(vm: Vm, ds: Items)
    ensures var v := Locking(vm, ds);
            v.d == Machine(ds, [], 0, 0) && v.idx == 1 && v.off == 0 && v.cond == [] && v.scripts == vm.scripts
            && v.bip16 == vm.bip16 && v.program == vm.program && v.version == vm.version
  {
  }

  /** An accepted input runs its locking script, on the stack left by the signature script, to the end. */
  lemma AcceptedRun(env: Env, sig: seq<byte>, pk: seq<byte>) returns (segwit: bool, d: Machine)
    requires Accepts(env, sig, pk) && pk != []
    ensures Parse(pk).1 && d == Machine(d.ds, [], 0, 0) && HandedOver(env, segwit, Parse(sig).0) == Some(d.ds)
    ensures var pops := Parse(pk).0; var r := FlatRun(env, segwit, pops, 0, |pops|, Run(d, []));
            && r.Some? && r.value.cond == []
            && (!WitnessProgram(pops) && !HtlcWitness(pops) ==>
                  r.value.d.ds != [] && AsBoolSpec(r.value.d.ds[|r.value.d.ds| - 1]))
            && (Unforwarded(pops) ==> !segwit)
  {
    hide *;
    AcceptedStart(env, sig, pk);
    InitialParts(env, sig, pk);
    ParsedNonempty(pk);
    var vm := Initial(env, sig, pk).value;
    segwit := Segwit(vm);
    SegwitMeans(vm);
    UnforwardedMeans(Parse(pk).0);
    if vm.idx == 0 {
      HandsOver(env, segwit, Parse(sig).0);
      var was := vm;
      var ds;
      vm, ds := SecondScript(env, vm);
      StartsOn(was, ds);
      SegwitMeans(vm);
    } else {
      NoSignature(env, segwit);
    }
    SecondFlat(env, vm);
    d := vm.d;
  }

  lemma UnforwardedMeans(pops: seq<Pop>)
    ensures Unforwarded(pops) <==> !PaysToScriptHash(pops) && !WitnessProgram(pops) && !HtlcWitness(pops)
  {
    hide PaysToScriptHash, WitnessProgram, HtlcWitness;
  }

  /** Neither pay-to-script-hash nor a witness program: nothing follows the locking script. */
  predicate Unforwarded(pops: seq<Pop>) {
    !PaysToScriptHash(pops) && !WitnessProgram(pops) && !HtlcWitness(pops)
  }

  // Exactly when a plain locking script is opened.

  /** The end of the last script, as CheckErrorCondition judges it. */
  ghost predicate EndsWell(env: Env, r: Option<Run>) {
    && r.Some? && r.value.cond == [] && r.value.d.ds != [] && AsBoolSpec(r.value.d.ds[|r.value.d.ds| - 1])
    && (CleanStack in env.flags ==> |r.value.d.ds| == 1)
  }

  lemma SecondSteps(env: Env, vm: Vm)
    requires Inv(vm) && EnvOk(env) && vm.idx == 1 && !vm.bip16 && vm.program.None?
    ensures var s := StepAt(env, false, vm.scripts[1], vm.off, Run(vm.d, vm.cond)); var n := Step(env, vm);
            if s.None? then n == Failed
            else if vm.off + 1 < |vm.scripts[1]| then n == Continue(vm.(off := vm.off + 1, d := s.value.d, cond := s.value.cond))
            else if s.value.cond != [] then n == Failed
            else n.Finished? && (Succeeded(env, n.vm) <==> EndsWell(env, s))
  {
    hide StepAt, Doomed, PaysToScriptHash, Proper, AllSmall, PushOnly, EnvOk, AsBoolSpec;
  }

  /** A run through the last script succeeds exactly if its flat run ends well. */
  lemma {:induction false} SecondExact(env: Env, vm: Vm)
    requires Inv(vm) && EnvOk(env) && vm.idx == 1 && !vm.bip16 && vm.program.None?
    ensures vm.off <= |vm.scripts[1]|
    ensures Runs(env, vm) <==> EndsWell(env, FlatRun(env, false, vm.scripts[1], vm.off, |vm.scripts[1]|, Run(vm.d, vm.cond)))
    decreases |vm.scripts[1]| - vm.off
  {
    hide *;
    InvPlaced(vm);
    RunStep(env, vm);
    SecondSteps(env, vm);
    var script, r := vm.scripts[1], Run(vm.d, vm.cond);
    FlatStep(env, false, script, vm.off, |script|, r);
    var s := StepAt(env, false, script, vm.off, r);
    if s.None? {
      NotWell(env, s);
    } else if vm.off + 1 < |script| {
      SecondExact(env, Step(env, vm).vm);
    } else {
      NoStep(env, false, script, vm.off + 1, s.value);
      NotWell(env, s);
    }
  }

  lemma NotWell(env: Env, r: Option<Run>)
    ensures r.None? || r.value.cond != [] ==> !EndsWell(env, r)
  {
  }

  lemma InitialPlain(env: Env, sig: seq<byte>, pk: seq<byte>)
    requires Initial(env, sig, pk).Some? && Unforwarded(Parse(pk).0)
    ensures Initial(env, sig, pk).value
            == Vm([Parse(sig).0, Parse(pk).0], if sig == [] then 1 else 0, 0, Machine([], [], 0, 0), [], false, [], 0, None)
    ensures Parse(sig).1 && Parse(pk).1
  {
    hide Parse, PaysToScriptHash, WitnessProgram, HtlcWitness, ProgramInfo, PushOnly, IsWitnessProgram;
  }

  /** An input with a plain locking script is accepted exactly if it passes the tests of NewEngine, its signature
  script runs to the end outside conditionals, and the locking script ends well on the stack left by it. */
  lemma AcceptsExactly(env: Env, sig: seq<byte>, pk: seq<byte>)
    requires pk != [] && Unforwarded(Parse(pk).0)
    ensures Accepts(env, sig, pk)
            <==> && EnvOk(env) && Initial(env, sig, pk).Some? && HandedOver(env, false, Parse(sig).0).Some?
                 && var pops, ds := Parse(pk).0, HandedOver(env, false, Parse(sig).0).value;
                    EndsWell(env, FlatRun(env, false, pops, 0, |pops|, Run(Machine(ds, [], 0, 0), [])))
  {
    if EnvOk(env) && Initial(env, sig, pk).Some? {
      InitialPlain(env, sig, pk);
      InitialKeeps(env, sig, pk);
      ParsedNonempty(pk);
      NoSignature(env, false);
      var vm := Initial(env, sig, pk).value;
      hide Initial, Inv, EnvOk, Runs, Parse, FlatRun, EndsWell;
      if sig != [] {
        FirstExact(env, vm);
        if HandedOver(env, false, Parse(sig).0).Some? {
          SecondExact(env, Locking(vm, HandedOver(env, false, Parse(sig).0).value));
        }
      } else {
        SecondExact(env, vm);
      }
    }
  }
}
