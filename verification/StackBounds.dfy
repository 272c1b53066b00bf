/** Sizes of what the opcodes leave on the stacks. */
module StackBounds {
  import opened Bytes
  import opened Wrappers
  import opened ScriptNum
  import opened ScriptStack
  import opened Script
  import opened ScriptBuilder
  import opened ScriptOps
  import opened Conditionals

  const INT32: int := 0x8000_0000

  /** No item is longer than what a script may push. */
  ghost predicate AllSmall(s: Items) {
    forall i :: 0 <= i < |s| ==> |s[i]| <= MAX_SCRIPT_ELEMENT_SIZE
  }

  /** Hashes are short, and counts and ages fit 32 bits. */
  ghost predicate EnvOk(env: Env) {
    && (forall v :: |env.ripemd160(v)| <= 32) && (forall v :: |env.sha1(v)| <= 32)
    && (forall v :: |env.sha256(v)| <= 32) && (forall v :: |env.hash256(v)| <= 32)
    && -INT32 <= env.age < INT32 && |env.inputWitness| < INT32
  }

  lemma SmallPush(s: Items, v: Item)
    requires AllSmall(s) && |v| <= MAX_SCRIPT_ELEMENT_SIZE
    ensures AllSmall(s + [v])
  {
  }

  lemma SmallPrefix(s: Items, k: nat)
    requires AllSmall(s) && k <= |s|
    ensures AllSmall(s[..k])
  {
  }

  lemma SmallAt(s: Items, i: nat)
    requires AllSmall(s) && i < |s|
    ensures |s[i]| <= MAX_SCRIPT_ELEMENT_SIZE
  {
  }

  lemma SmallRest(s: Items)
    requires AllSmall(s)
    ensures AllSmall(Rest(s))
  {
  }

  lemma SmallNumber(s: Items, n: int)
    requires AllSmall(s) && MIN_INT64 < n <= MAX_INT64
    ensures AllSmall(PushNumber(s, n))
  {
    EncodeNumLength(n);
    hide EncodeNum;
    SmallPush(s, EncodeNum(n));
  }

  lemma SmallBool(s: Items, v: bool)
    requires AllSmall(s)
    ensures AllSmall(PushBool(s, v))
  {
  }

  lemma SmallVerified(s: Items)
    requires AllSmall(s) && Verified(Some(s)).Some?
    ensures AllSmall(Verified(Some(s)).value)
  {
    SmallRest(s);
  }

  /** A number read from the stack has at most four bytes. */
  lemma FourBytes(env: Env, s: Items)
    requires TopNumber(env, s).Some?
    ensures -INT32 < TopNumber(env, s).value < INT32
  {
    var v := s[|s| - 1];
    if v != [] {
      Magnitude(v);
      var k := |v| - 1;
      ScaleTop(v[k] as int % 128, Weight(k));
      WeightMonotone(k, 3);
      assert Weight(3) == 256 * Weight(2) == 0x10000 * Weight(1) == 0x1000000 * Weight(0);
      hide Weight, Value, LittleEndian;
    }
  }

  lemma SmallPushed(pop: Pop, s: Items)
    requires AllSmall(s) && ExecPush(pop, s).Some? && |pop.data| <= MAX_SCRIPT_ELEMENT_SIZE
    ensures AllSmall(ExecPush(pop, s).value)
  {
    SmallPush(s, Pushed(pop).value);
  }

  lemma SmallUnary(env: Env, op: byte, s: Items)
    requires AllSmall(s) && ExecUnary(env, op, s).Some?
    ensures AllSmall(ExecUnary(env, op, s).value)
  {
    hide AllSmall, PushNumber, TopNumber;
    FourBytes(env, s);
    SmallRest(s);
    SmallNumber(Rest(s), Unary(op, TopNumber(env, s).value).value);
  }

  lemma SmallBinary(env: Env, op: byte, s: Items)
    requires AllSmall(s) && ExecBinary(env, op, s).Some?
    ensures AllSmall(ExecBinary(env, op, s).value)
  {
    hide AllSmall, PushNumber, TopNumber, Verified, AsBoolSpec;
    FourBytes(env, s);
    FourBytes(env, Rest(s));
    SmallRest(s);
    SmallRest(Rest(s));
    var r := Rest(Rest(s));
    var n := Binary(op, TopNumber(env, s).value, TopNumber(env, Rest(s)).value).value;
    SmallNumber(r, n);
    if op == 0x9d {
      SmallVerified(PushNumber(r, n));
    }
  }

  lemma SmallWithin(env: Env, s: Items)
    requires AllSmall(s) && ExecWithin(env, s).Some?
    ensures AllSmall(ExecWithin(env, s).value)
  {
    hide AllSmall, PushNumber, TopNumber;
    SmallRest(s);
    SmallRest(Rest(s));
    SmallRest(Rest(Rest(s)));
    SmallNumber(Rest(Rest(Rest(s))), 0);
    SmallNumber(Rest(Rest(Rest(s))), 1);
  }

  lemma SmallArithmetic(env: Env, op: byte, s: Items)
    requires AllSmall(s) && ExecArithmetic(env, op, s).Some?
    ensures AllSmall(ExecArithmetic(env, op, s).value)
  {
    hide ExecWithin, ExecUnary, ExecBinary, AllSmall;
    if op == 0xa5 {
      SmallWithin(env, s);
    } else if op <= 0x92 {
      SmallUnary(env, op, s);
    } else {
      SmallBinary(env, op, s);
    }
  }

  lemma SmallPickRoll(env: Env, op: byte, s: Items)
    requires AllSmall(s) && ExecPickRoll(env, op, s).Some?
    ensures AllSmall(ExecPickRoll(env, op, s).value)
  {
    hide TopNumber;
  }

  /** Opcodes that copy items. */
  lemma SmallCopies(s: Items, n: int)
    requires AllSmall(s)
    ensures DupSpec(s, n).Some? ==> AllSmall(DupSpec(s, n).value)
    ensures OverSpec(s, n).Some? ==> AllSmall(OverSpec(s, n).value)
  {
  }

  lemma SmallTuck(s: Items)
    requires AllSmall(s) && |s| >= 2
    ensures AllSmall(TuckSpec(s).value)
  {
    hide AllSmall;
    var p, x, y := s[..|s| - 2], s[|s| - 2], s[|s| - 1];
    SmallAt(s, |s| - 2);
    SmallAt(s, |s| - 1);
    SmallPrefix(s, |s| - 2);
    SmallPush(p, y);
    SmallPush(p + [y], x);
    SmallPush(p + [y] + [x], y);
    assert TuckSpec(s).value == p + [y] + [x] + [y];
  }

  /** Opcodes that move or drop items. */
  lemma SmallMoves(s: Items, n: int)
    requires AllSmall(s)
    ensures DropSpec(s, n).Some? ==> AllSmall(DropSpec(s, n).value)
    ensures SwapSpec(s, n).Some? ==> AllSmall(SwapSpec(s, n).value)
    ensures NipSpec(s, n).Some? ==> AllSmall(NipSpec(s, n).value.1)
  {
  }

  lemma SmallRot(s: Items, n: int)
    requires AllSmall(s)
    ensures RotSpec(s, n).Some? ==> AllSmall(RotSpec(s, n).value)
  {
  }

  lemma SmallStack(env: Env, op: byte, s: Items)
    requires AllSmall(s) && |s| < INT32 && ExecStack(env, op, s).Some?
    ensures AllSmall(ExecStack(env, op, s).value)
  {
    hide ExecPickRoll, EncodeNum, AsBoolSpec, AllSmall, DupSpec, OverSpec, DropSpec, SwapSpec, NipSpec, RotSpec,
         PushNumber;
    if op == 0x79 || op == 0x7a {
      SmallPickRoll(env, op, s);
    } else if op == 0x74 {
      SmallNumber(s, |s|);
    } else if op == 0x73 {
      SmallAt(s, |s| - 1);
      SmallPush(s, s[|s| - 1]);
    } else if op < 0x6d || 0x7c < op {
      SmallTuck(s);
    } else {
      var n := if op == 0x6f then 3 else if op <= 0x72 then 2 else 1;
      SmallCopies(s, n);
      SmallMoves(s, n);
      SmallRot(s, n);
    }
  }

  lemma SmallCompare(op: byte, s: Items)
    requires AllSmall(s) && ExecCompare(op, s).Some?
    ensures AllSmall(ExecCompare(op, s).value)
  {
    if op == 0x82 {
      SmallNumber(s, |s[|s| - 1]|);
    } else {
      SmallPrefix(s, |s| - 2);
      SmallBool(s[..|s| - 2], s[|s| - 1] == s[|s| - 2]);
      if op == 0x88 {
        SmallVerified(PushBool(s[..|s| - 2], s[|s| - 1] == s[|s| - 2]));
      }
    }
    hide AllSmall, EncodeNum, AsBoolSpec;
  }

  lemma SmallHash(env: Env, op: byte, s: Items)
    requires AllSmall(s) && EnvOk(env) && ExecHash(env, op, s).Some?
    ensures AllSmall(ExecHash(env, op, s).value)
  {
    SmallRest(s);
  }

  lemma SmallCheckSig(env: Env, ctx: Context, op: byte, s: Items)
    requires AllSmall(s) && ExecCheckSig(env, ctx, op, s).Some?
    ensures AllSmall(ExecCheckSig(env, ctx, op, s).value)
  {
    hide CheckSig, SigCrypto, AsBoolSpec;
    var k := |s| - 2;
    SmallPrefix(s, k);
    SmallBool(s[..k], true);
    SmallBool(s[..k], false);
    if op == 0xad {
      SmallRest(PushBool(s[..k], true));
      SmallRest(PushBool(s[..k], false));
    }
    hide AllSmall;
  }

  lemma SmallMultiSig(env: Env, ctx: Context, op: byte, d: Machine)
    requires AllSmall(d.ds) && ExecMultiSig(env, ctx, op, d).Some?
    ensures AllSmall(ExecMultiSig(env, ctx, op, d).value.ds) && ExecMultiSig(env, ctx, op, d).value.alt == d.alt
    ensures ExecMultiSig(env, ctx, op, d).value.numOps <= MAX_OPS && ExecMultiSig(env, ctx, op, d).value.codeSep == d.codeSep
  {
    var below := Arguments(env, d.ds).value.below;
    SmallBelow(env, d.ds);
    hide Arguments, SigCrypto, AsBoolSpec;
    SmallBool(below, true);
    SmallBool(below, false);
    SmallRest(PushBool(below, true));
    SmallRest(PushBool(below, false));
    hide AllSmall;
  }

  lemma SmallBelow(env: Env, s: Items)
    requires AllSmall(s) && Arguments(env, s).Some?
    ensures AllSmall(Arguments(env, s).value.below)
  {
    hide TopNumber;
    var a := Arguments(env, s).value;
    assert a.below == s[..|a.below|];
  }

  lemma SmallData(env: Env, ctx: Context, pop: Pop, s: Items)
    requires AllSmall(s) && |s| < INT32 && EnvOk(env) && (pop.op <= 0x60 ==> |pop.data| <= MAX_SCRIPT_ELEMENT_SIZE)
    requires ExecData(env, ctx, pop, s).Some?
    ensures AllSmall(ExecData(env, ctx, pop, s).value)
  {
    var op := pop.op;
    if op == 0xb3 {
      SmallNumber(s, env.age);
    }
    hide ExecPush, ExecStack, ExecCompare, ExecArithmetic, ExecHash, ExecCheckSig, LockTimeOk, AllSmall, EnvOk, Verified,
         PushNumber;
    if op <= 0x60 {
      SmallPushed(pop, s);
    } else if op == 0x69 {
      SmallVerified(s);
    } else if 0x6d <= op <= 0x7d {
      SmallStack(env, op, s);
    } else if op == 0x82 || op == 0x87 || op == 0x88 {
      SmallCompare(op, s);
    } else if 0x8b <= op <= 0xa5 {
      SmallArithmetic(env, op, s);
    } else if 0xa6 <= op <= 0xaa {
      SmallHash(env, op, s);
    } else if op == 0xac || op == 0xad {
      SmallCheckSig(env, ctx, op, s);
    }
  }

  /** What every state of a run keeps: short items, few operations, the code separator behind the offset. */
  ghost predicate Bounded(d: Machine, off: nat) {
    AllSmall(d.ds) && AllSmall(d.alt) && d.numOps <= MAX_OPS && d.codeSep <= off
  }

  lemma ExecBounded(env: Env, ctx: Context, pop: Pop, d: Machine)
    requires Bounded(d, ctx.off) && |d.ds| < INT32 && EnvOk(env)
    requires pop.op <= 0x60 ==> |pop.data| <= MAX_SCRIPT_ELEMENT_SIZE
    requires Exec(env, ctx, pop, d).Some?
    ensures Bounded(Exec(env, ctx, pop, d).value, ctx.off)
  {
    hide ExecMultiSig, ExecData, EnvOk;
    if pop.op == 0x6b {
      SmallRest(d.ds);
      SmallPush(d.alt, d.ds[|d.ds| - 1]);
    } else if pop.op == 0x6c {
      SmallRest(d.alt);
      SmallPush(d.ds, d.alt[|d.alt| - 1]);
    } else if pop.op == 0xae || pop.op == 0xaf {
      SmallMultiSig(env, ctx, pop.op, d);
    } else if pop.op != 0xab {
      SmallData(env, ctx, pop, d.ds);
    }
    hide AllSmall;
  }

  lemma OpcodeBounded(env: Env, ctx: Context, pop: Pop, r: Run)
    requires Bounded(r.d, ctx.off) && |r.d.ds| < INT32 && EnvOk(env) && ExecuteOpcode(env, ctx, pop, r).Some?
    ensures Bounded(ExecuteOpcode(env, ctx, pop, r).value.d, ctx.off)
  {
    SmallRest(r.d.ds);
    hide Exec, EnvOk, AllSmall, PopIfBool, Executing;
    var d := Admit(pop, r.d).value;
    if !Conditional(pop.op) && Exec(env, ctx, pop, d).Some? {
      ExecBounded(env, ctx, pop, d);
    }
  }
}
