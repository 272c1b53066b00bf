/** The signature cache and the matching of signatures to public keys. */
module MultiSig {
  import opened Bytes
  import opened Signature
  import opened PubKey
  import opened Wrappers

  type Item = seq<byte>

  /** What is fixed while one opcode checks signatures: the encoding checks under the active flags, the
  parsers, the hash of the signed script by hash type, and ECDSA verification. */
  datatype Crypto = Crypto(
    checkSig: Item -> bool,
    parseSig: Item -> Option<Sig>,
    checkKey: Item -> bool,
    parseKey: Item -> Option<PublicKey>,
    digest: byte -> Option<Item>,
    verify: (Item, Sig, PublicKey) -> bool)

  // The cache.

  datatype Entry = Entry(sig: Sig, pubKey: PublicKey)

  lemma RemovedSize(m: map<Item, Entry>, k: Item)
    requires k in m
    ensures |m - {k}| == |m| - 1
  {
    assert (m - {k}).Keys == m.Keys - {k};
  }

  lemma AddedSize(m: map<Item, Entry>, k: Item, e: Entry)
    ensures |m[k := e]| <= |m| + 1
  {
    assert m[k := e].Keys == m.Keys + {k};
  }

  class SigCache {
    var validSigs: map<Item, Entry>
    const maxEntries: nat

    /** Only verified signatures, and no more than the limit. */
    ghost predicate Valid(verify: (Item, Sig, PublicKey) -> bool)
      reads this
    {
      && |validSigs| <= maxEntries
      && forall h :: h in validSigs ==> verify(h, validSigs[h].sig, validSigs[h].pubKey)
    }

    constructor (max: nat)
      ensures validSigs == map[] && maxEntries == max
    {
      validSigs, maxEntries := map[], max;
    }

    /** A hit is never wrong. */
    method Exists(sigHash: Item, sig: Sig, pubKey: PublicKey, ghost verify: (Item, Sig, PublicKey) -> bool)
      returns (hit: bool)
      requires Valid(verify)
      ensures hit ==> verify(sigHash, sig, pubKey)
      ensures hit <==> sigHash in validSigs && validSigs[sigHash] == Entry(sig, pubKey)
    {
      return sigHash in validSigs && validSigs[sigHash].pubKey == pubKey && validSigs[sigHash].sig == sig;
    }

    /** Adding evicts some entry when the cache is full. */
    method Add(sigHash: Item, sig: Sig, pubKey: PublicKey, ghost verify: (Item, Sig, PublicKey) -> bool)
      requires Valid(verify) && verify(sigHash, sig, pubKey)
      modifies this
      ensures Valid(verify)
      ensures maxEntries > 0 ==> sigHash in validSigs && validSigs[sigHash] == Entry(sig, pubKey)
      ensures forall h :: h in validSigs && h != sigHash ==> h in old(validSigs) && validSigs[h] == old(validSigs)[h]
      ensures forall g, h :: g in old(validSigs) && h in old(validSigs) && g !in validSigs && h !in validSigs ==> g == h
      ensures |old(validSigs)| < maxEntries || maxEntries == 0 ==> old(validSigs).Keys <= validSigs.Keys
    {
      if maxEntries <= 0 {
        return;
      }
      if |validSigs| + 1 > maxEntries {
        var victim :| victim in validSigs.Keys;
        RemovedSize(validSigs, victim);
        validSigs := validSigs - {victim};
      }
      AddedSize(validSigs, sigHash, Entry(sig, pubKey));
      validSigs := validSigs[sigHash := Entry(sig, pubKey)];
    }
  }

  /** Verification through an optional cache gives the answer of verification alone. */
  method CachedVerify(cache: SigCache?, c: Crypto, h: Item, sig: Sig, key: PublicKey) returns (valid: bool)
    requires cache != null ==> cache.Valid(c.verify)
    modifies cache
    ensures cache != null ==> cache.Valid(c.verify)
    ensures valid == c.verify(h, sig, key)
  {
    if cache != null {
      valid := cache.Exists(h, sig, key, c.verify);
      if !valid && c.verify(h, sig, key) {
        cache.Add(h, sig, key, c.verify);
        valid := true;
      }
    } else {
      valid := c.verify(h, sig, key);
    }
  }

  // Matching.

  datatype Verdict = EncodingError | No | Yes

  /** One signature against one key, in the order of the tests. */
  function Judge(c: Crypto, sig: Item, key: Item): Verdict {
    if sig == [] then No
    else if !c.checkSig(sig) then EncodingError
    else if c.parseSig(sig).None? then No
    else if !c.checkKey(key) then EncodingError
    else if c.parseKey(key).None? then No
    else
      var h := c.digest(sig[|sig| - 1]);
      if h.None? then EncodingError
      else if c.verify(h.value, c.parseSig(sig).value, c.parseKey(key).value) then Yes
      else No
  }

  /** The key verifies the signature. */
  ghost predicate Verifies(c: Crypto, sig: Item, key: Item) {
    && sig != [] && c.parseSig(sig).Some? && c.parseKey(key).Some? && c.digest(sig[|sig| - 1]).Some?
    && c.verify(c.digest(sig[|sig| - 1]).value, c.parseSig(sig).value, c.parseKey(key).value)
  }

  /** f assigns the signatures to keys in increasing order, each to one that verifies it. */
  ghost predicate Matching(c: Crypto, sigs: seq<Item>, keys: seq<Item>, f: seq<nat>) {
    && |f| == |sigs|
    && (forall i :: 0 <= i < |f| ==> f[i] < |keys| && Verifies(c, sigs[i], keys[f[i]]))
    && (forall i, j :: 0 <= i < j < |f| ==> f[i] < f[j])
  }

  /** Each key is tried once, against the first signature without a key; None for an encoding error. */
  function Greedy(c: Crypto, sigs: seq<Item>, keys: seq<Item>): Option<bool>
    decreases |keys|, |sigs|
  {
    if sigs == [] then Some(true)
    else if |sigs| > |keys| then Some(false)
    else
      match Judge(c, sigs[0], keys[0])
      case EncodingError => None
      case Yes => Greedy(c, sigs[1..], keys[1..])
      case No => Greedy(c, sigs, keys[1..])
  }

  ghost function Shifted(f: seq<nat>): seq<nat> {
    seq(|f|, i requires 0 <= i < |f| => f[i] + 1)
  }

  /** Success yields a matching. */
  lemma {:induction false} GreedyMatches(c: Crypto, sigs: seq<Item>, keys: seq<Item>) returns (f: seq<nat>)
    requires Greedy(c, sigs, keys) == Some(true)
    ensures Matching(c, sigs, keys, f)
    decreases |keys|, |sigs|
  {
    hide Judge, Verifies;
    if sigs == [] {
      f := [];
    } else if Judge(c, sigs[0], keys[0]) == Yes {
      var g := GreedyMatches(c, sigs[1..], keys[1..]);
      YesVerifies(c, sigs[0], keys[0]);
      f := [0] + Shifted(g);
      forall i | 0 <= i < |f|
        ensures f[i] < |keys| && Verifies(c, sigs[i], keys[f[i]])
      {
        if i > 0 {
          assert f[i] == g[i - 1] + 1 && sigs[i] == sigs[1..][i - 1] && keys[f[i]] == keys[1..][g[i - 1]];
        }
      }
    } else {
      var g := GreedyMatches(c, sigs, keys[1..]);
      f := Shifted(g);
      forall i | 0 <= i < |f|
        ensures f[i] < |keys| && Verifies(c, sigs[i], keys[f[i]])
      {
        assert keys[f[i]] == keys[1..][g[i]];
      }
    }
  }

  lemma YesVerifies(c: Crypto, sig: Item, key: Item)
    ensures Judge(c, sig, key) == Yes ==> Verifies(c, sig, key)
    ensures Judge(c, sig, key) == No ==> !Verifies(c, sig, key)
  {
  }

  ghost function Lowered(f: seq<nat>): seq<nat>
    requires forall i :: 0 <= i < |f| ==> f[i] > 0
  {
    seq(|f|, i requires 0 <= i < |f| => f[i] - 1)
  }

  /** A matching is always found, unless an encoding error comes first. */
  lemma {:induction false} MatchingFound(c: Crypto, sigs: seq<Item>, keys: seq<Item>, f: seq<nat>)
    requires Matching(c, sigs, keys, f) && Greedy(c, sigs, keys).Some?
    ensures Greedy(c, sigs, keys) == Some(true)
    decreases |keys|, |sigs|
  {
    hide Judge, Verifies;
    Increasing(f, |keys|);
    if sigs != [] {
      YesVerifies(c, sigs[0], keys[0]);
      if Judge(c, sigs[0], keys[0]) == Yes {
        DropBoth(c, sigs, keys, f);
        MatchingFound(c, sigs[1..], keys[1..], Lowered(f[1..]));
      } else {
        DropKey(c, sigs, keys, f);
        MatchingFound(c, sigs, keys[1..], Lowered(f));
      }
    }
  }

  lemma DropBoth(c: Crypto, sigs: seq<Item>, keys: seq<Item>, f: seq<nat>)
    requires Matching(c, sigs, keys, f) && sigs != []
    ensures (forall i :: 0 <= i < |f[1..]| ==> f[1..][i] > 0) && keys != []
    ensures Matching(c, sigs[1..], keys[1..], Lowered(f[1..]))
  {
    hide Verifies;
    var g := f[1..];
    forall i | 0 <= i < |g|
      ensures g[i] > 0 && g[i] - 1 < |keys[1..]| && Verifies(c, sigs[1..][i], keys[1..][g[i] - 1])
    {
      assert f[0] < f[i + 1] && sigs[1..][i] == sigs[i + 1] && keys[1..][g[i] - 1] == keys[f[i + 1]];
    }
  }

  lemma DropKey(c: Crypto, sigs: seq<Item>, keys: seq<Item>, f: seq<nat>)
    requires Matching(c, sigs, keys, f) && sigs != [] && keys != [] && !Verifies(c, sigs[0], keys[0])
    ensures forall i :: 0 <= i < |f| ==> f[i] > 0
    ensures Matching(c, sigs, keys[1..], Lowered(f))
  {
    hide Verifies;
    assert f[0] != 0;
    forall i | 0 <= i < |f|
      ensures f[i] > 0 && f[i] - 1 < |keys[1..]| && Verifies(c, sigs[i], keys[1..][f[i] - 1])
    {
      assert i > 0 ==> f[0] < f[i];
      assert keys[1..][f[i] - 1] == keys[f[i]];
    }
  }

  /** An increasing sequence below k has at most k members. */
  lemma {:induction false} Increasing(f: seq<nat>, k: nat)
    requires (forall i :: 0 <= i < |f| ==> f[i] < k) && forall i, j :: 0 <= i < j < |f| ==> f[i] < f[j]
    ensures |f| <= k
  {
    if f != [] {
      var g := f[..|f| - 1];
      forall i | 0 <= i < |g|
        ensures g[i] < f[|f| - 1]
      {
      }
      Increasing(g, f[|f| - 1]);
    }
  }

  /** Without an encoding error, the answer is true exactly if there is a matching. */
  lemma GreedyExact(c: Crypto, sigs: seq<Item>, keys: seq<Item>)
    requires Greedy(c, sigs, keys).Some?
    ensures Greedy(c, sigs, keys).value <==> exists f :: Matching(c, sigs, keys, f)
  {
    hide Greedy, Matching;
    if Greedy(c, sigs, keys).value {
      var f := GreedyMatches(c, sigs, keys);
    }
    if exists f :: Matching(c, sigs, keys, f) {
      var f :| Matching(c, sigs, keys, f);
      MatchingFound(c, sigs, keys, f);
    }
  }

  /** What has been found out about a signature. */
  datatype ParsedSigInfo = ParsedSigInfo(signature: Item, parsedSignature: Option<Sig>, parsed: bool)

  ghost predicate InfoOk(c: Crypto, info: ParsedSigInfo, sig: Item) {
    info.signature == sig && (info.parsed ==> c.checkSig(sig) && info.parsedSignature == c.parseSig(sig))
  }

  /** The loop of opcodeCheckMultiSig, with its countdown and each signature parsed once. */
  method MatchLoop(c: Crypto, cache: SigCache?, sigs: seq<Item>, keys: seq<Item>) returns (r: Option<bool>)
    requires |sigs| <= |keys| && (cache != null ==> cache.Valid(c.verify))
    modifies cache
    ensures cache != null ==> cache.Valid(c.verify)
    ensures r == Greedy(c, sigs, keys)
  {
    var infos := seq(|sigs|, i requires 0 <= i < |sigs| => ParsedSigInfo(sigs[i], None, false));
    var success := true;
    var numSignatures, numPubKeys := |sigs|, |keys| + 1;
    var pubKeyIdx, signatureIdx := -1, 0;
    assert sigs[0..] == sigs && keys[0..] == keys;
    while numSignatures > 0
      invariant 0 <= signatureIdx <= |sigs| && numSignatures == |sigs| - signatureIdx
      invariant -1 <= pubKeyIdx < |keys| && numPubKeys == |keys| - pubKeyIdx
      invariant |infos| == |sigs| && forall i :: 0 <= i < |sigs| ==> InfoOk(c, infos[i], sigs[i])
      invariant cache != null ==> cache.Valid(c.verify)
      invariant Greedy(c, sigs, keys) == Greedy(c, sigs[signatureIdx..], keys[pubKeyIdx + 1..])
      decreases |keys| - pubKeyIdx
    {
      pubKeyIdx := pubKeyIdx + 1;
      numPubKeys := numPubKeys - 1;
      GreedyStep(c, sigs, keys, signatureIdx, pubKeyIdx);
      if numSignatures > numPubKeys {
        return Some(false);
      }
      var verdict, info := JudgePair(c, cache, infos[signatureIdx], keys[pubKeyIdx], sigs[signatureIdx]);
      infos := infos[signatureIdx := info];
      if verdict == EncodingError {
        return None;
      }
      if verdict == Yes {
        signatureIdx := signatureIdx + 1;
        numSignatures := numSignatures - 1;
      }
    }
    assert sigs[signatureIdx..] == [];
    return Some(true);
  }

  lemma GreedyStep(c: Crypto, sigs: seq<Item>, keys: seq<Item>, i: nat, j: nat)
    requires i < |sigs| && j <= |keys|
    ensures var g := Greedy(c, sigs[i..], keys[j..]);
            if |sigs| - i > |keys| - j then g == Some(false)
            else
              match Judge(c, sigs[i], keys[j])
              case EncodingError => g == None
              case Yes => g == Greedy(c, sigs[i + 1..], keys[j + 1..])
              case No => g == Greedy(c, sigs[i..], keys[j + 1..])
  {
    hide Judge;
    assert sigs[i..][1..] == sigs[i + 1..];
    if j < |keys| {
      assert keys[j..][1..] == keys[j + 1..];
    }
  }

  /** The body of the loop: one signature and one key. */
  method JudgePair(c: Crypto, cache: SigCache?, info: ParsedSigInfo, key: Item, ghost sig: Item)
    returns (v: Verdict, info': ParsedSigInfo)
    requires InfoOk(c, info, sig) && (cache != null ==> cache.Valid(c.verify))
    modifies cache
    ensures cache != null ==> cache.Valid(c.verify)
    ensures v == Judge(c, sig, key) && (v != EncodingError ==> InfoOk(c, info', sig))
  {
    info' := info;
    var rawSig := info.signature;
    if |rawSig| == 0 {
      return No, info;
    }
    var parsedSig;
    if !info.parsed {
      if !c.checkSig(rawSig) {
        return EncodingError, info;
      }
      parsedSig := c.parseSig(rawSig);
      info' := info.(parsed := true, parsedSignature := parsedSig);
      if parsedSig.None? {
        return No, info';
      }
    } else {
      if info.parsedSignature.None? {
        return No, info;
      }
      parsedSig := info.parsedSignature;
    }
    if !c.checkKey(key) {
      return EncodingError, info';
    }
    var parsedPubKey := c.parseKey(key);
    if parsedPubKey.None? {
      return No, info';
    }
    var hashData := c.digest(rawSig[|rawSig| - 1]);
    if hashData.None? {
      return EncodingError, info';
    }
    var valid := CachedVerify(cache, c, hashData.value, parsedSig.value, parsedPubKey.value);
    return if valid then Yes else No, info';
  }
}
