/** The handlers of the stack, comparison and number opcodes as they are executed, on the stack object. */
module OpcodeHandlers {
  import opened Bytes
  import opened Wrappers
  import opened ScriptNum
  import opened ScriptStack
  import opened ScriptOps
  import opened MultiSigOp

  // Values on the stack.

  method PushInt(stack: Stack, n: int)
    requires MIN_INT64 < n <= MAX_INT64
    modifies stack
    ensures stack.stk == PushNumber(old(stack.stk), n)
  {
    hide EncodeNum, Value, Minimal;
    var v := Encode(n);
    EncodeNumCorrect(n);
    MinimalUnique(v.value, EncodeNum(n));
    stack.PushByteArray(v.value);
  }

  /** abstractVerify. */
  method AbstractVerify(stack: Stack) returns (ok: bool)
    modifies stack
    ensures ok <==> Verified(Some(old(stack.stk))).Some?
    ensures ok ==> stack.stk == Verified(Some(old(stack.stk))).value
  {
    hide AsBoolSpec;
    var so := stack.PopByteArray();
    if so.None? {
      return false;
    }
    ok := AsBool(so.value);
  }

  // OP_2DROP to OP_TUCK.

  method PickN(stack: Stack, n: int) returns (ok: bool)
    modifies stack
    ensures ok <==> 0 <= n < |old(stack.stk)|
    ensures ok ==> stack.stk == old(stack.stk) + [PeekSpec(old(stack.stk), n).value]
  {
    var so := stack.PeekByteArray(n);
    if so.None? {
      return false;
    }
    stack.PushByteArray(so.value);
    return true;
  }

  method RollN(stack: Stack, n: int) returns (ok: bool)
    modifies stack
    ensures ok <==> NipSpec(old(stack.stk), n).Some?
    ensures ok ==> var r := NipSpec(old(stack.stk), n).value; stack.stk == r.1 + [r.0]
  {
    var so := stack.Nip(n);
    if so.None? {
      return false;
    }
    stack.PushByteArray(so.value);
    return true;
  }

  method PickRoll(env: Env, op: byte, stack: Stack) returns (ok: bool)
    modifies stack
    ensures ok <==> ExecPickRoll(env, op, old(stack.stk)).Some?
    ensures ok ==> stack.stk == ExecPickRoll(env, op, old(stack.stk)).value
  {
    hide TopNumber, NipSpec;
    var n := PopInt(env, stack);
    if n.None? {
      return false;
    }
    if op == 0x79 {
      ok := PickN(stack, n.value);
    } else {
      ok := RollN(stack, n.value);
    }
  }

  /** The stack opcodes do what their specification says, and fail where it fails. */
  method StackOpcode(env: Env, op: byte, stack: Stack) returns (ok: bool)
    requires 0x6d <= op <= 0x7d && |stack.stk| <= MAX_INT64
    modifies stack
    ensures ok <==> ExecStack(env, op, old(stack.stk)).Some?
    ensures ok ==> stack.stk == ExecStack(env, op, old(stack.stk)).value
  {
    hide DropSpec, DupSpec, OverSpec, RotSpec, SwapSpec, TuckSpec, AsBoolSpec, ExecPickRoll, PushNumber;
    match op
    case 0x6d => ok := stack.DropN(2);
    case 0x6e => ok := stack.DupN(2);
    case 0x6f => ok := stack.DupN(3);
    case 0x70 => ok := stack.OverN(2);
    case 0x71 => ok := stack.RotN(2);
    case 0x72 => ok := stack.SwapN(2);
    case 0x73 =>
      var so := stack.PeekByteArray(0);
      if so.None? {
        return false;
      }
      var b := AsBool(so.value);
      if b {
        stack.PushByteArray(so.value);
      }
      ok := true;
    case 0x74 =>
      PushInt(stack, |stack.stk|);
      ok := true;
    case 0x75 => ok := stack.DropN(1);
    case 0x76 => ok := stack.DupN(1);
    case 0x77 =>
      var so := stack.Nip(1);
      ok := so.Some?;
    case 0x78 => ok := stack.OverN(1);
    case 0x79 => ok := PickRoll(env, op, stack);
    case 0x7a => ok := PickRoll(env, op, stack);
    case 0x7b => ok := stack.RotN(1);
    case 0x7c => ok := stack.SwapN(1);
    case _ => ok := stack.Tuck();
  }

  // OP_SIZE, OP_EQUAL and OP_EQUALVERIFY.

  method CompareOpcode(op: byte, stack: Stack) returns (ok: bool)
    requires op == 0x82 || op == 0x87 || op == 0x88
    requires forall v :: v in stack.stk ==> |v| <= MAX_INT64
    modifies stack
    ensures ok <==> ExecCompare(op, old(stack.stk)).Some?
    ensures ok ==> stack.stk == ExecCompare(op, old(stack.stk)).value
  {
    hide AsBoolSpec, EncodeNum;
    ghost var s := stack.stk;
    if op == 0x82 {
      var so := stack.PeekByteArray(0);
      if so.None? {
        return false;
      }
      assert so.value in stack.stk;
      PushInt(stack, |so.value|);
      return true;
    }
    var a := stack.PopByteArray();
    if a.None? {
      return false;
    }
    ghost var t := stack.stk;
    var b := stack.PopByteArray();
    if b.None? {
      return false;
    }
    assert t[..|t| - 1] == s[..|s| - 2] == stack.stk;
    stack.PushByteArray(FromBool(a.value == b.value));
    ok := true;
    if op == 0x88 {
      ok := AbstractVerify(stack);
    }
  }

  // Arithmetic.

  const OPERAND: int := 0x8000_0000

  predicate Operand(n: int) {
    -OPERAND < n < OPERAND
  }

  /** Four bytes hold the operands from -2^31 + 1 to 2^31 - 1. */
  lemma TopIsOperand(env: Env, s: Items)
    ensures TopNumber(env, s).Some? ==> Operand(TopNumber(env, s).value)
  {
    if TopNumber(env, s).Some? {
      ShortIsOperand(s[|s| - 1]);
    }
  }

  lemma ShortIsOperand(v: Item)
    requires |v| <= 4
    ensures Operand(Value(v))
  {
    if v != [] {
      Magnitude(v);
      WeightMonotone(|v| - 1, 3);
      ThreeWeights();
      ScaleTop(v[|v| - 1] as int % 128, Weight(|v| - 1));
      hide Value, Weight, LittleEndian;
    }
  }

  lemma ThreeWeights()
    ensures Weight(3) == 0x100_0000 && Weight(4) == 0x1_0000_0000 && Weight(5) == 0x100_0000_0000
  {
    assert Weight(1) == 256 && Weight(2) == 65536;
  }

  /** The steps by one, addition and subtraction. */
  const OVERFLOWING: set<byte> := {0x8b, 0x8c, 0x93, 0x94}

  lemma UnaryFits(op: byte, m: int)
    requires Operand(m)
    ensures Unary(op, m).Some? ==> -2 * OPERAND < Unary(op, m).value < 2 * OPERAND
    ensures Unary(op, m).Some? && op !in OVERFLOWING ==> Operand(Unary(op, m).value)
  {
  }

  lemma BinaryFits(op: byte, v0: int, v1: int)
    requires Operand(v0) && Operand(v1)
    ensures Binary(op, v0, v1).Some? ==> -2 * OPERAND < Binary(op, v0, v1).value < 2 * OPERAND
    ensures Binary(op, v0, v1).Some? && op !in OVERFLOWING ==> Operand(Binary(op, v0, v1).value)
  {
  }

  method UnaryOpcode(env: Env, op: byte, stack: Stack) returns (ok: bool)
    modifies stack
    ensures ok <==> ExecUnary(env, op, old(stack.stk)).Some?
    ensures ok ==> stack.stk == ExecUnary(env, op, old(stack.stk)).value
  {
    hide TopNumber, PushNumber, Unary;
    TopIsOperand(env, stack.stk);
    var m := PopInt(env, stack);
    if m.None? {
      return false;
    }
    UnaryFits(op, m.value);
    var r := Unary(op, m.value);
    if r.None? {
      return false;
    }
    PushInt(stack, r.value);
    return true;
  }

  method BinaryOpcode(env: Env, op: byte, stack: Stack) returns (ok: bool)
    modifies stack
    ensures ok <==> ExecBinary(env, op, old(stack.stk)).Some?
    ensures ok ==> stack.stk == ExecBinary(env, op, old(stack.stk)).value
  {
    hide TopNumber, PushNumber, Binary, Verified;
    TopIsOperand(env, stack.stk);
    TopIsOperand(env, Rest(stack.stk));
    var v0 := PopInt(env, stack);
    if v0.None? {
      return false;
    }
    var v1 := PopInt(env, stack);
    if v1.None? {
      return false;
    }
    BinaryFits(op, v0.value, v1.value);
    var r := Binary(op, v0.value, v1.value);
    if r.None? {
      return false;
    }
    PushInt(stack, r.value);
    ok := true;
    if op == 0x9d {
      ok := AbstractVerify(stack);
    }
  }

  method WithinOpcode(env: Env, stack: Stack) returns (ok: bool)
    modifies stack
    ensures ok <==> ExecWithin(env, old(stack.stk)).Some?
    ensures ok ==> stack.stk == ExecWithin(env, old(stack.stk)).value
  {
    hide TopNumber, PushNumber;
    var maxVal := PopInt(env, stack);
    if maxVal.None? {
      return false;
    }
    var minVal := PopInt(env, stack);
    if minVal.None? {
      return false;
    }
    var x := PopInt(env, stack);
    if x.None? {
      return false;
    }
    if x.value >= minVal.value && x.value < maxVal.value {
      PushInt(stack, 1);
    } else {
      PushInt(stack, 0);
    }
    return true;
  }

  method ArithmeticOpcode(env: Env, op: byte, stack: Stack) returns (ok: bool)
    requires 0x8b <= op <= 0xa5
    modifies stack
    ensures ok <==> ExecArithmetic(env, op, old(stack.stk)).Some?
    ensures ok ==> stack.stk == ExecArithmetic(env, op, old(stack.stk)).value
  {
    hide ExecWithin, ExecUnary, ExecBinary;
    if op == 0xa5 {
      ok := WithinOpcode(env, stack);
    } else if op <= 0x92 {
      ok := UnaryOpcode(env, op, stack);
    } else {
      ok := BinaryOpcode(env, op, stack);
    }
  }

  // Results that overflow.

  /** A result has at most five bytes; it can be read again exactly if it is in the range of operands, and as a
  boolean it is true exactly if it is not zero. */
  lemma ResultReadBack(env: Env, s: Items, n: int)
    requires -2 * OPERAND < n < 2 * OPERAND
    ensures |EncodeNum(n)| <= 5
    ensures TopNumber(env, PushNumber(s, n)) == if Operand(n) then Some(n) else None
    ensures Verified(Some(PushNumber(s, n))) == if n != 0 then Some(s) else None
  {
    var v := EncodeNum(n);
    EncodeNumCorrect(n);
    AsBoolIsNonzero(v);
    ResultSize(v);
    assert Rest(s + [v]) == s;
    hide EncodeNum, Value, Minimal, AsBoolSpec;
  }

  lemma ResultSize(v: Item)
    requires Minimal(v) && -2 * OPERAND < Value(v) < 2 * OPERAND
    ensures |v| <= 5 && (|v| <= 4 <==> Operand(Value(v)))
  {
    hide Value, Minimal, Weight;
    if v != [] {
      MinimalSize(v);
      ThreeWeights();
      if |v| > 5 {
        WeightMonotone(4, |v| - 2);
      }
      if |v| <= 4 {
        ShortIsOperand(v);
      }
    } else {
      ShortIsOperand(v);
    }
  }

  /** Every arithmetic opcode but OP_NUMEQUALVERIFY leaves a number that fits, whatever the operands. */
  lemma ResultFits(env: Env, op: byte, s: Items) returns (base: Items, n: int)
    requires ExecArithmetic(env, op, s).Some? && op != 0x9d
    ensures ExecArithmetic(env, op, s) == Some(PushNumber(base, n)) && -2 * OPERAND < n < 2 * OPERAND
    ensures op !in OVERFLOWING ==> Operand(n)
  {
    hide TopNumber, PushNumber, Unary, Binary;
    TopIsOperand(env, s);
    TopIsOperand(env, Rest(s));
    var v0 := TopNumber(env, s).value;
    if op == 0xa5 {
      base := Rest(Rest(Rest(s)));
      n := BoolNumber(TopNumber(env, Rest(s)).value <= TopNumber(env, Rest(Rest(s))).value < v0);
    } else if op <= 0x92 {
      UnaryFits(op, v0);
      base, n := Rest(s), Unary(op, v0).value;
    } else {
      var v1 := TopNumber(env, Rest(s)).value;
      BinaryFits(op, v0, v1);
      base, n := Rest(Rest(s)), Binary(op, v0, v1).value;
    }
  }

  /** The result of one opcode as the operand of the next: it fails exactly if the result has overflowed, which only
  addition, subtraction and the steps by one can do. */
  lemma Overflows(env: Env, op: byte, s: Items)
    requires ExecArithmetic(env, op, s).Some? && op != 0x9d
    ensures var t := ExecArithmetic(env, op, s).value;
            t != [] && (TopNumber(env, t) == None <==> !Operand(Value(t[|t| - 1])))
    ensures TopNumber(env, ExecArithmetic(env, op, s).value) == None ==> op in OVERFLOWING
  {
    var base, n := ResultFits(env, op, s);
    ResultReadBack(env, base, n);
    EncodeNumCorrect(n);
    hide EncodeNum, Value, Minimal, TopNumber, ExecArithmetic;
  }
}
