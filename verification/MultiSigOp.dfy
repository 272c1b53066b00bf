/** OP_CHECKMULTISIG as it is executed: pops one argument after the other, then matches. */
module MultiSigOp {
  import opened Wrappers
  import opened ScriptNum
  import opened ScriptStack
  import opened MultiSig
  import opened ScriptOps

  /** Pops n items, the top first. */
  method PopItems(stack: Stack, n: nat) returns (items: Option<Items>)
    modifies stack
    ensures items.Some? <==> n <= |old(stack.stk)|
    ensures items.Some? ==> items.value == TopItems(old(stack.stk), n) && stack.stk == old(stack.stk)[..|old(stack.stk)| - n]
  {
    ghost var s := stack.stk;
    var popped: Items := [];
    for i := 0 to n
      invariant i <= |s| && popped == TopItems(s, i) && stack.stk == s[..|s| - i]
    {
      var so := stack.PopByteArray();
      if so.None? {
        return None;
      }
      popped := popped + [so.value];
    }
    return Some(popped);
  }

  /** PopInt. */
  method PopInt(env: Env, stack: Stack) returns (n: Option<int>)
    modifies stack
    ensures n == TopNumber(env, old(stack.stk))
    ensures n.Some? ==> stack.stk == Rest(old(stack.stk))
  {
    var so := stack.PopByteArray();
    if so.None? {
      return None;
    }
    var num := MakeScriptNum(so.value, MinimalData in env.flags, 4);
    match num
    case Number(v) => return Some(v);
    case TooBig => return None;
    case NotMinimal => return None;
  }

  /** The arguments, with the tests of their counts. */
  method PopArguments(env: Env, stack: Stack, numOps: nat) returns (a: Option<MultiSigArgs>)
    modifies stack
    ensures a.Some? <==> Arguments(env, old(stack.stk)).Some? && numOps + |Arguments(env, old(stack.stk)).value.keys| <= MAX_OPS
    ensures a.Some? ==> a == Arguments(env, old(stack.stk)) && stack.stk == a.value.below
  {
    hide TopNumber, TopItems;
    var numKeys := PopInt(env, stack);
    if numKeys.None? || numKeys.value < 0 || numKeys.value > MAX_KEYS || numOps + numKeys.value > MAX_OPS {
      return None;
    }
    var pubKeys := PopItems(stack, numKeys.value);
    if pubKeys.None? {
      return None;
    }
    var numSigs := PopInt(env, stack);
    if numSigs.None? || numSigs.value < 0 || numSigs.value > numKeys.value {
      return None;
    }
    ghost var s3 := stack.stk;
    var signatures := PopItems(stack, numSigs.value);
    if signatures.None? {
      return None;
    }
    ghost var s4 := stack.stk;
    var dummy := stack.PopByteArray();
    if dummy.None? {
      return None;
    }
    assert s4[|s4| - 1] == s3[|s3| - 1 - numSigs.value] == dummy.value;
    assert stack.stk == s4[..|s4| - 1] == s3[..|s3| - 1 - numSigs.value];
    return Some(MultiSigArgs(pubKeys.value, signatures.value, dummy.value, stack.stk));
  }

  /** With any signature cache, the opcode does what its specification says. */
  method OpcodeCheckMultiSig(env: Env, ctx: Context, d: Machine, cache: SigCache?) returns (r: Option<Machine>)
    requires cache != null ==> cache.Valid(env.verify)
    modifies cache
    ensures cache != null ==> cache.Valid(env.verify)
    ensures r == ExecMultiSig(env, ctx, 0xae, d)
  {
    hide Arguments, Greedy, SigCrypto;
    var stack := new Stack();
    stack.stk := d.ds;
    var a := PopArguments(env, stack, d.numOps);
    if a.None? {
      return None;
    }
    var args := a.value;
    if StrictMultiSig in env.flags && |args.dummy| != 0 {
      return None;
    }
    FewerSigs(env, d.ds);
    var c := SigCrypto(env, ctx, args.sigs);
    assert c.verify == env.verify by { SameVerify(env, ctx, args.sigs); }
    var success := MatchLoop(c, cache, args.sigs, args.keys);
    if success.None? {
      return None;
    }
    if !success.value && NullFail in env.flags {
      for i := 0 to |args.sigs|
        invariant forall j :: 0 <= j < i ==> args.sigs[j] == []
      {
        if |args.sigs[i]| > 0 {
          return None;
        }
      }
    }
    stack.PushByteArray(FromBool(success.value));
    return Some(d.(ds := stack.stk, numOps := d.numOps + |args.keys|));
  }

  lemma SameVerify(env: Env, ctx: Context, sigs: Items)
    ensures SigCrypto(env, ctx, sigs).verify == env.verify
  {
  }

  lemma FewerSigs(env: Env, s: Items)
    requires Arguments(env, s).Some?
    ensures |Arguments(env, s).value.sigs| <= |Arguments(env, s).value.keys|
  {
  }

  /** The boolean left is true exactly if the signatures can be matched, in order, to keys that verify them. */
  lemma MultiSigExact(env: Env, ctx: Context, d: Machine)
    requires ExecMultiSig(env, ctx, 0xae, d).Some?
    ensures var a := Arguments(env, d.ds).value; var s := ExecMultiSig(env, ctx, 0xae, d).value.ds;
            && s != [] && s[..|s| - 1] == a.below
            && (s[|s| - 1] == FromBool(true)
                <==> exists f :: Matching(SigCrypto(env, ctx, a.sigs), a.sigs, a.keys, f))
            && (s[|s| - 1] == FromBool(true) || s[|s| - 1] == FromBool(false))
  {
    hide Arguments, SigCrypto, Greedy, Matching;
    var a := Arguments(env, d.ds).value;
    GreedyExact(SigCrypto(env, ctx, a.sigs), a.sigs, a.keys);
  }

  /** OP_CHECKSIG with any signature cache. */
  method OpcodeCheckSig(env: Env, ctx: Context, s: Items, cache: SigCache?) returns (r: Option<Items>)
    requires cache != null ==> cache.Valid(env.verify)
    modifies cache
    ensures cache != null ==> cache.Valid(env.verify)
    ensures r == ExecCheckSig(env, ctx, 0xac, s)
  {
    var stack := new Stack();
    stack.stk := s;
    var pkBytes := stack.PopByteArray();
    if pkBytes.None? {
      return None;
    }
    var fullSigBytes := stack.PopByteArray();
    if fullSigBytes.None? {
      return None;
    }
    var key, sig := pkBytes.value, fullSigBytes.value;
    var below := stack.stk;
    assert s == below + [sig, key] && below == s[..|s| - 2];
    if |sig| < 1 {
      return Some(PushBool(below, false));
    }
    var c := SigCrypto(env, ctx, [sig]);
    assert c.verify == env.verify by { SameVerify(env, ctx, [sig]); }
    hide SigCrypto;
    if !c.checkSig(sig) {
      return None;
    }
    if !c.checkKey(key) {
      return None;
    }
    var hashData := c.digest(sig[|sig| - 1]);
    if hashData.None? {
      return None;
    }
    var pubKey := c.parseKey(key);
    if pubKey.None? {
      return Some(PushBool(below, false));
    }
    var signature := c.parseSig(sig);
    if signature.None? {
      return Some(PushBool(below, false));
    }
    var valid := CachedVerify(cache, c, hashData.value, signature.value, pubKey.value);
    if !valid && NullFail in env.flags && |sig| - 1 > 0 {
      return None;
    }
    return Some(PushBool(below, valid));
  }
}
