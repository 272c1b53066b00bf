/** Partial Merkle trees: the builder of a merkle block message against the parser of BIP 37, section
"Partial Merkle branch format". */
module MerkleBlock {
  import opened MerkleTree
  import opened Wrappers

  const MAX_TX_PER_BLOCK: nat := 768 * 1024 / 10 + 1

  // Widths in 32-bit arithmetic.

  function ShiftLeft(x: uint32, h: uint32): uint32 {
    if h < 32 then x * Exp2(h) % UINT32 else 0
  }

  function ShiftRight(x: uint32, h: uint32): int {
    if h < 32 then x / Exp2(h) else 0
  }

  /** calcTreeWidth. */
  function CalcTreeWidth(n: uint32, h: uint32): int {
    ShiftRight((n + ShiftLeft(1, h) + UINT32 - 1) % UINT32, h)
  }

  lemma Exp2Below(h: uint32)
    requires h <= 31
    ensures 0 < Exp2(h) <= 0x8000_0000
  {
    Exp2Monotone(h, 31);
    Exp2Of31();
  }

  lemma WidthInWords(n: uint32, h: uint32)
    requires h <= 31
    ensures CalcTreeWidth(n, h) == (n + Exp2(h) + UINT32 - 1) % UINT32 / Exp2(h)
  {
    hide Exp2;
    Exp2Below(h);
    OneShifted(Exp2(h));
  }

  lemma OneShifted(e: int)
    requires 0 < e <= 0x8000_0000
    ensures 1 * e % UINT32 == e
  {
  }

  /** Up to 2^31 leaves the 32-bit width is exact. */
  lemma WidthExact(n: uint32, h: uint32)
    requires 1 <= n <= 0x8000_0000 && h <= 31
    ensures CalcTreeWidth(n, h) == Width(n, h)
  {
    hide *;
    WidthInWords(n, h);
    WidthFormula(n, h);
    Exp2Below(h);
    NoWrap(n, Exp2(h));
  }

  lemma NoWrap(n: int, e: int)
    requires 1 <= n <= 0x8000_0000 && 0 < e <= 0x8000_0000
    ensures (n + e + UINT32 - 1) % UINT32 == n + e - 1
  {
  }

  lemma TopWidth(n: uint32)
    ensures CalcTreeWidth(n, 31) <= 1
    ensures 1 <= n <= 0x8000_0000 ==> Width(n, 31) == 1
  {
    hide *;
    WidthInWords(n, 31);
    WidthFormula(n, 31);
    Exp2Of31();
    Halves(n);
  }

  lemma Halves(n: uint32)
    ensures (n + 0x8000_0000 + UINT32 - 1) % UINT32 / 0x8000_0000 <= 1
    ensures 1 <= n <= 0x8000_0000 ==> (n + 0x8000_0000 - 1) / 0x8000_0000 == 1
  {
  }

  /** More than 2^31 leaves need more than 31 levels. */
  lemma WideAbove(n: nat, h: uint32)
    requires n > 0x8000_0000 && h <= 31
    ensures Width(n, h) > 1
  {
    Exp2Below(h);
    WidthStarts(n, h, 1);
    hide Exp2, Width;
  }

  /** The height loop ends, and with the least sufficient height exactly for up to 2^31 transactions. */
  method TreeHeight(n: uint32) returns (height: uint32)
    requires n >= 1
    ensures height <= 31
    ensures IsTop(n, height) <==> n <= 0x8000_0000
  {
    hide CalcTreeWidth, Width;
    TopWidth(n);
    height := 0;
    while CalcTreeWidth(n, height) > 1
      invariant height <= 31
      invariant n <= 0x8000_0000 ==> forall g: nat :: g < height ==> Width(n, g) > 1
      decreases 31 - height
    {
      if n <= 0x8000_0000 {
        WidthExact(n, height);
      }
      height := height + 1;
    }
    if n <= 0x8000_0000 {
      WidthExact(n, height);
    } else {
      WideAbove(n, height);
    }
  }

  /** One transaction more than 2^31 already stops at a height with two nodes. */
  lemma TooManyTransactions()
    ensures CalcTreeWidth(0x8000_0001, 31) == 0 && Width(0x8000_0001, 31) == 2
  {
    hide *;
    WidthInWords(0x8000_0001, 31);
    WidthFormula(0x8000_0001, 31);
    Exp2Of31();
    Wrapped();
  }

  lemma Wrapped()
    ensures (0x8000_0001 + 0x8000_0000 + UINT32 - 1) % UINT32 / 0x8000_0000 == 0
    ensures (0x8000_0001 + 0x8000_0000 - 1) / 0x8000_0000 == 2
  {
  }

  // What is built.

  ghost predicate AnyIn(m: seq<bool>, lo: nat, hi: nat) {
    exists i :: lo <= i < hi && i < |m| && m[i]
  }

  /** The matched indices of a range, ascending. */
  ghost function MatchedIn(m: seq<bool>, lo: nat, hi: nat): seq<nat>
    requires hi <= |m|
    decreases hi - lo
  {
    if lo >= hi then [] else (if m[lo] then [lo] else []) + MatchedIn(m, lo + 1, hi)
  }

  lemma {:induction false} MatchedSplit(m: seq<bool>, lo: nat, mid: nat, hi: nat)
    requires lo <= mid <= hi <= |m|
    ensures MatchedIn(m, lo, hi) == MatchedIn(m, lo, mid) + MatchedIn(m, mid, hi)
    decreases mid - lo
  {
    if lo < mid {
      MatchedSplit(m, lo + 1, mid, hi);
    }
  }

  lemma {:induction false} NoneMatched(m: seq<bool>, lo: nat, hi: nat)
    requires hi <= |m| && !AnyIn(m, lo, hi)
    ensures MatchedIn(m, lo, hi) == []
    decreases hi - lo
  {
    if lo < hi {
      NoneMatched(m, lo + 1, hi);
    }
  }

  /** A node is the parent of a match. */
  ghost predicate IsParent(m: seq<bool>, h: nat, pos: nat) {
    AnyIn(m, Start(h, pos), End(|m|, h, pos))
  }

  /** The flag bits of a sub-tree, depth first. */
  ghost function BitsOf(m: seq<bool>, h: nat, pos: nat): seq<bool>
    requires pos < Width(|m|, h)
    decreases h
  {
    if h == 0 || !IsParent(m, h, pos) then [IsParent(m, h, pos)]
    else
      Children(|m|, h, pos);
      [true] + BitsOf(m, h - 1, 2 * pos)
      + (if 2 * pos + 1 < Width(|m|, h - 1) then BitsOf(m, h - 1, 2 * pos + 1) else [])
  }

  /** The hashes of a sub-tree, depth first. */
  ghost function HashesOf(m: seq<bool>, leaves: seq<Hash>, branch: Branch, h: nat, pos: nat): seq<Hash>
    requires pos < Width(|m|, h) && |leaves| == |m|
    decreases h
  {
    if h == 0 || !IsParent(m, h, pos) then [CalcHash(leaves, branch, h, pos)]
    else
      Children(|m|, h, pos);
      HashesOf(m, leaves, branch, h - 1, 2 * pos)
      + (if 2 * pos + 1 < Width(|m|, h - 1) then HashesOf(m, leaves, branch, h - 1, 2 * pos + 1) else [])
  }

  // The parser.

  datatype Parsed = Parsed(hash: Hash, matches: seq<nat>, bits: seq<bool>, hashes: seq<Hash>)

  /** Reads a sub-tree from the front of the bits and hashes; None if they run out. */
  function Parse(n: nat, branch: Branch, h: nat, pos: nat, bits: seq<bool>, hashes: seq<Hash>): Option<Parsed>
    decreases h
  {
    if bits == [] then None
    else if h == 0 || !bits[0] then
      if hashes == [] then None
      else Some(Parsed(hashes[0], if h == 0 && bits[0] then [pos] else [], bits[1..], hashes[1..]))
    else
      match Parse(n, branch, h - 1, 2 * pos, bits[1..], hashes)
      case None => None
      case Some(left) =>
        if 2 * pos + 1 < Width(n, h - 1) then
          match Parse(n, branch, h - 1, 2 * pos + 1, left.bits, left.hashes)
          case None => None
          case Some(right) =>
            Some(Parsed(branch(left.hash, right.hash), left.matches + right.matches, right.bits, right.hashes))
        else Some(Parsed(branch(left.hash, left.hash), left.matches, left.bits, left.hashes))
  }

  /** The parser inverts the builder: it consumes exactly what was built for a node, finds exactly the
  matched transactions under it, and recomputes its hash. */
  lemma {:induction false} ParseInverts(m: seq<bool>, leaves: seq<Hash>, branch: Branch, h: nat, pos: nat,
                                        bits: seq<bool>, hashes: seq<Hash>)
    requires pos < Width(|m|, h) && |leaves| == |m|
    ensures Parse(|m|, branch, h, pos, BitsOf(m, h, pos) + bits, HashesOf(m, leaves, branch, h, pos) + hashes)
            == Some(Parsed(CalcHash(leaves, branch, h, pos), MatchedIn(m, Start(h, pos), End(|m|, h, pos)), bits, hashes))
    decreases h
  {
    if h == 0 {
      ParseLeaf(m, leaves, branch, pos, bits, hashes);
    } else if !IsParent(m, h, pos) {
      ParseSkipped(m, leaves, branch, h, pos, bits, hashes);
    } else {
      ParseChildren(m, leaves, branch, h, pos, bits, hashes);
    }
  }

  lemma ParseLeaf(m: seq<bool>, leaves: seq<Hash>, branch: Branch, pos: nat, bits: seq<bool>, hashes: seq<Hash>)
    requires pos < |m| == |leaves|
    ensures Parse(|m|, branch, 0, pos, BitsOf(m, 0, pos) + bits, HashesOf(m, leaves, branch, 0, pos) + hashes)
            == Some(Parsed(leaves[pos], MatchedIn(m, Start(0, pos), End(|m|, 0, pos)), bits, hashes))
  {
    var b, g := BitsOf(m, 0, pos) + bits, HashesOf(m, leaves, branch, 0, pos) + hashes;
    assert Start(0, pos) == pos && End(|m|, 0, pos) == pos + 1;
    assert b[0] == m[pos] && b[1..] == bits;
    assert g[0] == leaves[pos] && g[1..] == hashes;
    OneMatched(m, pos);
    hide BitsOf, HashesOf, MatchedIn, IsParent;
    assert b != [] && g != [];
  }

  lemma OneMatched(m: seq<bool>, pos: nat)
    requires pos < |m|
    ensures MatchedIn(m, pos, pos + 1) == if m[pos] then [pos] else []
  {
    assert MatchedIn(m, pos + 1, pos + 1) == [];
  }

  lemma ParseSkipped(m: seq<bool>, leaves: seq<Hash>, branch: Branch, h: nat, pos: nat, bits: seq<bool>, hashes: seq<Hash>)
    requires 0 < h && pos < Width(|m|, h) && |leaves| == |m| && !IsParent(m, h, pos)
    ensures Parse(|m|, branch, h, pos, BitsOf(m, h, pos) + bits, HashesOf(m, leaves, branch, h, pos) + hashes)
            == Some(Parsed(CalcHash(leaves, branch, h, pos), MatchedIn(m, Start(h, pos), End(|m|, h, pos)), bits, hashes))
  {
    NoneMatched(m, Start(h, pos), End(|m|, h, pos));
    hide Width, CalcHash, Start, End, MatchedIn, AnyIn;
    var b, g := BitsOf(m, h, pos) + bits, HashesOf(m, leaves, branch, h, pos) + hashes;
    assert b[1..] == bits && g[1..] == hashes;
  }

  lemma {:induction false} ParseChildren(m: seq<bool>, leaves: seq<Hash>, branch: Branch, h: nat, pos: nat,
                                         bits: seq<bool>, hashes: seq<Hash>)
    requires 0 < h && pos < Width(|m|, h) && |leaves| == |m| && IsParent(m, h, pos)
    ensures Parse(|m|, branch, h, pos, BitsOf(m, h, pos) + bits, HashesOf(m, leaves, branch, h, pos) + hashes)
            == Some(Parsed(CalcHash(leaves, branch, h, pos), MatchedIn(m, Start(h, pos), End(|m|, h, pos)), bits, hashes))
    decreases h, 0
  {
    hide *;
    Children(|m|, h, pos);
    ParentBits(m, leaves, branch, h, pos, bits, hashes);
    var l, r := 2 * pos, 2 * pos + 1;
    var b, g := BitsOf(m, h, pos) + bits, HashesOf(m, leaves, branch, h, pos) + hashes;
    HashStep(leaves, branch, h, pos);
    if r < Width(|m|, h - 1) {
      var rb, rg := BitsOf(m, h - 1, r) + bits, HashesOf(m, leaves, branch, h - 1, r) + hashes;
      ParseInverts(m, leaves, branch, h - 1, l, rb, rg);
      ParseInverts(m, leaves, branch, h - 1, r, bits, hashes);
      ParseTwo(|m|, branch, h, pos, b, g);
      MatchedSplit(m, Start(h, pos), End(|m|, h - 1, l), End(|m|, h, pos));
    } else {
      ParseInverts(m, leaves, branch, h - 1, l, bits, hashes);
      ParseOne(|m|, branch, h, pos, b, g);
    }
  }

  /** What is built for a parent starts with a set bit, followed by what is built for its children. */
  lemma ParentBits(m: seq<bool>, leaves: seq<Hash>, branch: Branch, h: nat, pos: nat, bits: seq<bool>, hashes: seq<Hash>)
    requires 0 < h && pos < Width(|m|, h) && |leaves| == |m| && IsParent(m, h, pos) && 2 * pos < Width(|m|, h - 1)
    ensures var b, g := BitsOf(m, h, pos) + bits, HashesOf(m, leaves, branch, h, pos) + hashes;
            var lb, lg := BitsOf(m, h - 1, 2 * pos), HashesOf(m, leaves, branch, h - 1, 2 * pos);
            && |b| > 0 && b[0]
            && if 2 * pos + 1 < Width(|m|, h - 1)
               then b[1..] == lb + (BitsOf(m, h - 1, 2 * pos + 1) + bits)
                    && g == lg + (HashesOf(m, leaves, branch, h - 1, 2 * pos + 1) + hashes)
               else b[1..] == lb + bits && g == lg + hashes
  {
    hide *;
    BuiltFor(m, leaves, branch, h, pos);
    var lb, lg := BitsOf(m, h - 1, 2 * pos), HashesOf(m, leaves, branch, h - 1, 2 * pos);
    if 2 * pos + 1 < Width(|m|, h - 1) {
      var rb, rg := BitsOf(m, h - 1, 2 * pos + 1), HashesOf(m, leaves, branch, h - 1, 2 * pos + 1);
      Regroup([true], lb, rb, bits);
      assert lg + rg + hashes == lg + (rg + hashes);
    } else {
      Regroup([true], lb, [], bits);
      assert [] + bits == bits && [true] + lb + [] == [true] + lb;
    }
  }

  lemma Regroup(head: seq<bool>, a: seq<bool>, b: seq<bool>, c: seq<bool>)
    requires |head| == 1
    ensures var s := head + a + b + c; s[0] == head[0] && s[1..] == a + (b + c)
  {
    var s := head + a + b + c;
    assert s == head + (a + (b + c));
  }

  lemma HashStep(leaves: seq<Hash>, branch: Branch, h: nat, pos: nat)
    requires 0 < h && pos < Width(|leaves|, h) && 2 * pos < Width(|leaves|, h - 1)
    ensures var left := CalcHash(leaves, branch, h - 1, 2 * pos);
            CalcHash(leaves, branch, h, pos)
            == branch(left, if 2 * pos + 1 < Width(|leaves|, h - 1) then CalcHash(leaves, branch, h - 1, 2 * pos + 1) else left)
  {
  }

  lemma ParseTwo(n: nat, branch: Branch, h: nat, pos: nat, bits: seq<bool>, hashes: seq<Hash>)
    requires 0 < h && bits != [] && bits[0] && 2 * pos + 1 < Width(n, h - 1)
    requires Parse(n, branch, h - 1, 2 * pos, bits[1..], hashes).Some?
    ensures var left := Parse(n, branch, h - 1, 2 * pos, bits[1..], hashes).value;
            var right := Parse(n, branch, h - 1, 2 * pos + 1, left.bits, left.hashes);
            right.Some? ==>
              Parse(n, branch, h, pos, bits, hashes)
              == Some(Parsed(branch(left.hash, right.value.hash), left.matches + right.value.matches,
                             right.value.bits, right.value.hashes))
  {
    hide Width;
  }

  lemma ParseOne(n: nat, branch: Branch, h: nat, pos: nat, bits: seq<bool>, hashes: seq<Hash>)
    requires 0 < h && bits != [] && bits[0] && !(2 * pos + 1 < Width(n, h - 1))
    requires Parse(n, branch, h - 1, 2 * pos, bits[1..], hashes).Some?
    ensures var left := Parse(n, branch, h - 1, 2 * pos, bits[1..], hashes).value;
            Parse(n, branch, h, pos, bits, hashes)
            == Some(Parsed(branch(left.hash, left.hash), left.matches, left.bits, left.hashes))
  {
    hide Width;
  }

  /** A parser that runs out of hashes finds nothing. */
  lemma {:induction false} ParseStarved(m: seq<bool>, leaves: seq<Hash>, branch: Branch, h: nat, pos: nat,
                                        bits: seq<bool>, hashes: seq<Hash>)
    requires pos < Width(|m|, h) && |leaves| == |m| && hashes < HashesOf(m, leaves, branch, h, pos)
    ensures Parse(|m|, branch, h, pos, BitsOf(m, h, pos) + bits, hashes) == None
    decreases h
  {
    hide *;
    if h == 0 || !IsParent(m, h, pos) {
      StarvedLeaf(m, leaves, branch, h, pos, bits, hashes);
    } else {
      Children(|m|, h, pos);
      ParentBits(m, leaves, branch, h, pos, bits, []);
      NoTail(HashesOf(m, leaves, branch, h, pos));
      var l, r := 2 * pos, 2 * pos + 1;
      var b, lg := BitsOf(m, h, pos) + bits, HashesOf(m, leaves, branch, h - 1, l);
      if r < Width(|m|, h - 1) {
        var rb, rg := BitsOf(m, h - 1, r) + bits, HashesOf(m, leaves, branch, h - 1, r);
        NoTail(rg);
        PrefixSplits(hashes, lg, rg);
        if hashes < lg {
          ParseStarved(m, leaves, branch, h - 1, l, rb, hashes);
          ParseFirstFails(|m|, branch, h, pos, b, hashes);
        } else {
          var tail := hashes[|lg|..];
          ParseInverts(m, leaves, branch, h - 1, l, rb, tail);
          ParseStarved(m, leaves, branch, h - 1, r, bits, tail);
          ParseSecondFails(|m|, branch, h, pos, b, hashes);
        }
      } else {
        NoTail(lg);
        ParseStarved(m, leaves, branch, h - 1, l, bits, hashes);
        ParseFirstFails(|m|, branch, h, pos, b, hashes);
      }
    }
  }

  lemma NoTail(hashes: seq<Hash>)
    ensures hashes + [] == hashes
  {
  }

  /** A proper prefix of a + b is one of a, or a followed by one of b. */
  lemma PrefixSplits(p: seq<Hash>, a: seq<Hash>, b: seq<Hash>)
    requires p < a + b
    ensures p < a || (|a| <= |p| && p == a + p[|a|..] && p[|a|..] < b)
  {
  }

  lemma StarvedLeaf(m: seq<bool>, leaves: seq<Hash>, branch: Branch, h: nat, pos: nat, bits: seq<bool>, hashes: seq<Hash>)
    requires pos < Width(|m|, h) && |leaves| == |m| && (h == 0 || !IsParent(m, h, pos))
    requires hashes < HashesOf(m, leaves, branch, h, pos)
    ensures Parse(|m|, branch, h, pos, BitsOf(m, h, pos) + bits, hashes) == None
  {
    hide Width, CalcHash, IsParent;
    assert hashes == [] && (BitsOf(m, h, pos) + bits)[0] == IsParent(m, h, pos);
  }

  lemma ParseFirstFails(n: nat, branch: Branch, h: nat, pos: nat, bits: seq<bool>, hashes: seq<Hash>)
    requires 0 < h && bits != [] && bits[0] && Parse(n, branch, h - 1, 2 * pos, bits[1..], hashes) == None
    ensures Parse(n, branch, h, pos, bits, hashes) == None
  {
    hide Width;
  }

  lemma ParseSecondFails(n: nat, branch: Branch, h: nat, pos: nat, bits: seq<bool>, hashes: seq<Hash>)
    requires 0 < h && bits != [] && bits[0] && 2 * pos + 1 < Width(n, h - 1)
    requires Parse(n, branch, h - 1, 2 * pos, bits[1..], hashes).Some?
    requires var left := Parse(n, branch, h - 1, 2 * pos, bits[1..], hashes).value;
             Parse(n, branch, h - 1, 2 * pos + 1, left.bits, left.hashes) == None
    ensures Parse(n, branch, h, pos, bits, hashes) == None
  {
    hide Width;
  }

  // The builder.

  class Builder {
    const leaves: seq<Hash>
    const matched: seq<bool>
    const branch: Branch
    var finalHashes: seq<Hash>
    var bits: seq<bool>

    constructor (hashes: seq<Hash>, matches: seq<bool>, combine: Branch)
      ensures leaves == hashes && matched == matches && branch == combine && finalHashes == [] && bits == []
    {
      leaves, matched, branch, finalHashes, bits := hashes, matches, combine, [], [];
    }

    /** Whether any transaction under the node is matched, in 32-bit arithmetic. */
    method FindMatch(h: uint32, pos: uint32) returns (isParent: bool)
      requires 1 <= |matched| <= 0x8000_0000 && h <= 31 && pos < Width(|matched|, h)
      ensures isParent == IsParent(matched, h, pos)
    {
      RangeFits(|matched|, h, pos);
      hide Width, Exp2;
      isParent := false;
      var i, stop := ShiftLeft(pos, h), ShiftLeft(pos + 1, h);
      while i < stop && i < |matched|
        invariant Start(h, pos) <= i <= End(|matched|, h, pos)
        invariant isParent == AnyIn(matched, Start(h, pos), i)
      {
        isParent := isParent || matched[i];
        i := i + 1;
      }
    }

    /** traverseAndBuild appends what the specification says for the node. */
    method TraverseAndBuild(h: uint32, pos: uint32)
      requires 1 <= |matched| == |leaves| <= 0x8000_0000 && h <= 31 && pos < Width(|matched|, h)
      modifies this
      ensures bits == old(bits) + BitsOf(matched, h, pos)
      ensures finalHashes == old(finalHashes) + HashesOf(matched, leaves, branch, h, pos)
      decreases h
    {
      hide *;
      Children2(|matched|, h, pos);
      BuiltFor(matched, leaves, branch, h, pos);
      var isParent := FindMatch(h, pos);
      bits := bits + [isParent];
      if h == 0 || !isParent {
        finalHashes := finalHashes + [CalcHash(leaves, branch, h, pos)];
        return;
      }
      WidthExact(|matched|, h - 1);
      TraverseAndBuild(h - 1, pos * 2);
      if pos * 2 + 1 < CalcTreeWidth(|matched|, h - 1) {
        TraverseAndBuild(h - 1, pos * 2 + 1);
      }
    }
  }

  /** What is built for a node, in terms of its children. */
  lemma BuiltFor(m: seq<bool>, leaves: seq<Hash>, branch: Branch, h: nat, pos: nat)
    requires pos < Width(|m|, h) && |leaves| == |m| && (h > 0 ==> 2 * pos < Width(|m|, h - 1))
    ensures h == 0 || !IsParent(m, h, pos) ==>
              && BitsOf(m, h, pos) == [IsParent(m, h, pos)]
              && HashesOf(m, leaves, branch, h, pos) == [CalcHash(leaves, branch, h, pos)]
    ensures h > 0 && IsParent(m, h, pos) ==>
              var lb, lg := BitsOf(m, h - 1, 2 * pos), HashesOf(m, leaves, branch, h - 1, 2 * pos);
              if 2 * pos + 1 < Width(|m|, h - 1)
              then BitsOf(m, h, pos) == [true] + lb + BitsOf(m, h - 1, 2 * pos + 1)
                   && HashesOf(m, leaves, branch, h, pos) == lg + HashesOf(m, leaves, branch, h - 1, 2 * pos + 1)
              else BitsOf(m, h, pos) == [true] + lb && HashesOf(m, leaves, branch, h, pos) == lg
  {
    hide Width, IsParent, CalcHash;
  }

  lemma Children2(n: nat, h: nat, pos: nat)
    requires pos < Width(n, h) && n <= 0x8000_0000
    ensures h > 0 ==> 2 * pos < Width(n, h - 1) && 2 * pos + 1 < UINT32 == 0x1_0000_0000
  {
    if h > 0 {
      Children(n, h, pos);
    }
  }

  /** The bounds of the leaves under a node do not wrap. */
  lemma RangeFits(n: nat, h: uint32, pos: uint32)
    requires 1 <= n <= 0x8000_0000 && h <= 31 && pos < Width(n, h)
    ensures pos + 1 < UINT32 && ShiftLeft(pos, h) == Start(h, pos) <= n
    ensures ShiftLeft(pos + 1, h) == (pos + 1) * Exp2(h)
    ensures Start(h, pos) <= End(n, h, pos) <= n
  {
    Exp2Below(h);
    WidthStarts(n, h, pos);
    hide Width;
    var e := Exp2(h);
    assert (pos + 1) * e == pos * e + e;
  }

  // Flag bytes.

  function Mask(k: nat): bv8
    requires k < 8
  {
    if k == 0 then 0x01 else if k == 1 then 0x02 else if k == 2 then 0x04 else if k == 3 then 0x08
    else if k == 4 then 0x10 else if k == 5 then 0x20 else if k == 6 then 0x40 else 0x80
  }

  lemma MaskSets(x: bv8, k: nat, j: nat)
    requires k < 8 && j < 8
    ensures (x | Mask(k)) & Mask(j) != 0 <==> k == j || x & Mask(j) != 0
    ensures 0 & Mask(j) == 0
  {
  }

  function FlagBit(flags: seq<bv8>, i: nat): bool
    requires i < 8 * |flags|
  {
    flags[i / 8] & Mask(i % 8) != 0
  }

  function Unpack(flags: seq<bv8>): (bits: seq<bool>)
    ensures |bits| == 8 * |flags|
  {
    seq(8 * |flags|, i requires 0 <= i < 8 * |flags| => FlagBit(flags, i))
  }

  function Padding(k: nat): (z: seq<bool>)
    ensures |z| == k && forall i :: 0 <= i < k ==> !z[i]
  {
    seq(k, _ => false)
  }

  /** The bits, least significant first, then zeros. */
  method PackFlags(bits: seq<bool>) returns (flags: seq<bv8>)
    requires |bits| < UINT32
    ensures |flags| == (|bits| + 7) / 8
    ensures Unpack(flags) == bits + Padding(8 * |flags| - |bits|)
  {
    var a := new bv8[(|bits| + 7) / 8](_ => 0);
    NoBits(a[..]);
    for i := 0 to |bits|
      invariant forall j :: 0 <= j < i ==> FlagBit(a[..], j) == bits[j]
      invariant forall j :: i <= j < 8 * a.Length ==> !FlagBit(a[..], j)
    {
      if bits[i] {
        ghost var was := a[..];
        a[i / 8] := a[i / 8] | Mask(i % 8);
        SetFlag(was, i, a[..]);
      }
    }
    flags := a[..];
  }

  lemma NoBits(flags: seq<bv8>)
    requires forall i :: 0 <= i < |flags| ==> flags[i] == 0
    ensures forall j :: 0 <= j < 8 * |flags| ==> !FlagBit(flags, j)
  {
    forall j | 0 <= j < 8 * |flags|
      ensures !FlagBit(flags, j)
    {
      MaskSets(0, 0, j % 8);
    }
  }

  lemma SetFlag(was: seq<bv8>, i: nat, now: seq<bv8>)
    requires i < 8 * |was| && now == was[i / 8 := was[i / 8] | Mask(i % 8)]
    ensures forall j :: 0 <= j < 8 * |was| ==> (FlagBit(now, j) <==> j == i || FlagBit(was, j))
  {
    hide Mask, FlagBit;
    forall j | 0 <= j < 8 * |was|
      ensures FlagBit(now, j) <==> j == i || FlagBit(was, j)
    {
      SetOne(was, i, now, j);
    }
  }

  lemma SetOne(was: seq<bv8>, i: nat, now: seq<bv8>, j: nat)
    requires i < 8 * |was| && j < 8 * |was| && now == was[i / 8 := was[i / 8] | Mask(i % 8)]
    ensures FlagBit(now, j) <==> j == i || FlagBit(was, j)
  {
    hide *;
    FlagBitIs(was, j);
    FlagBitIs(now, j);
    SetAt(was, i / 8, i % 8, now, j / 8, j % 8);
    SameDigits(i, j);
  }

  lemma SetAt(was: seq<bv8>, a: nat, r: nat, now: seq<bv8>, b: nat, t: nat)
    requires a < |was| && b < |was| && r < 8 && t < 8 && now == was[a := was[a] | Mask(r)]
    ensures now[b] & Mask(t) != 0 <==> (a == b && r == t) || was[b] & Mask(t) != 0
  {
    hide *;
    if a == b {
      MaskSets(was[a], r, t);
    }
  }

  lemma FlagBitIs(flags: seq<bv8>, i: nat)
    requires i < 8 * |flags|
    ensures FlagBit(flags, i) <==> flags[i / 8] & Mask(i % 8) != 0
  {
  }

  lemma SameDigits(i: nat, j: nat)
    ensures i / 8 == j / 8 && i % 8 == j % 8 <==> i == j
  {
  }

  // The message.

  lemma {:induction false} BitCount(m: seq<bool>, h: nat, pos: nat)
    requires pos < Width(|m|, h)
    ensures |BitsOf(m, h, pos)| < 2 * Exp2(h)
    decreases h
  {
    hide *;
    Exp2Step(h);
    BitsSplit(m, h, pos);
    if h > 0 && IsParent(m, h, pos) {
      BitCount(m, h - 1, 2 * pos);
      if 2 * pos + 1 < Width(|m|, h - 1) {
        BitCount(m, h - 1, 2 * pos + 1);
      }
    }
  }

  lemma Exp2Step(h: nat)
    ensures Exp2(h) > 0 && (h > 0 ==> Exp2(h) == 2 * Exp2(h - 1))
  {
  }

  lemma BitsSplit(m: seq<bool>, h: nat, pos: nat)
    requires pos < Width(|m|, h)
    ensures h > 0 ==> 2 * pos < Width(|m|, h - 1)
    ensures h == 0 || !IsParent(m, h, pos) ==> |BitsOf(m, h, pos)| == 1
    ensures h > 0 && IsParent(m, h, pos) ==>
              |BitsOf(m, h, pos)|
              == 1 + |BitsOf(m, h - 1, 2 * pos)|
                 + if 2 * pos + 1 < Width(|m|, h - 1) then |BitsOf(m, h - 1, 2 * pos + 1)| else 0
  {
    if h > 0 {
      Children(|m|, h, pos);
    }
    hide Width, IsParent, Start, End, Exp2;
  }

  /** No more hashes than transactions. */
  lemma {:induction false} HashCount(m: seq<bool>, leaves: seq<Hash>, branch: Branch, h: nat, pos: nat)
    requires pos < Width(|m|, h) && |leaves| == |m|
    ensures |HashesOf(m, leaves, branch, h, pos)| <= End(|m|, h, pos) - Start(h, pos)
    decreases h
  {
    hide *;
    BuiltForNode(m, leaves, branch, h, pos);
    if h > 0 && IsParent(m, h, pos) {
      HashCount(m, leaves, branch, h - 1, 2 * pos);
      if 2 * pos + 1 < Width(|m|, h - 1) {
        HashCount(m, leaves, branch, h - 1, 2 * pos + 1);
      }
    }
  }

  lemma BuiltForNode(m: seq<bool>, leaves: seq<Hash>, branch: Branch, h: nat, pos: nat)
    requires pos < Width(|m|, h) && |leaves| == |m|
    ensures Start(h, pos) < End(|m|, h, pos)
    ensures h == 0 || !IsParent(m, h, pos) ==> |HashesOf(m, leaves, branch, h, pos)| == 1
    ensures h > 0 ==> 2 * pos < Width(|m|, h - 1) && Start(h - 1, 2 * pos) == Start(h, pos)
    ensures h > 0 && 2 * pos + 1 < Width(|m|, h - 1) ==>
              End(|m|, h - 1, 2 * pos) == Start(h - 1, 2 * pos + 1) && End(|m|, h - 1, 2 * pos + 1) == End(|m|, h, pos)
    ensures h > 0 && !(2 * pos + 1 < Width(|m|, h - 1)) ==> End(|m|, h - 1, 2 * pos) == End(|m|, h, pos)
    ensures h > 0 && IsParent(m, h, pos) ==>
              |HashesOf(m, leaves, branch, h, pos)|
              == |HashesOf(m, leaves, branch, h - 1, 2 * pos)|
                 + if 2 * pos + 1 < Width(|m|, h - 1) then |HashesOf(m, leaves, branch, h - 1, 2 * pos + 1)| else 0
  {
    WidthStarts(|m|, h, pos);
    NonemptyRange(pos, Exp2(h), |m|);
    if h > 0 {
      Children(|m|, h, pos);
    }
    hide Width, IsParent, CalcHash, Exp2;
  }

  lemma NonemptyRange(pos: nat, e: nat, n: nat)
    requires e > 0 && pos * e < n
    ensures pos * e < (pos + 1) * e
  {
  }

  datatype Message = Message(transactions: uint32, hashes: seq<Hash>, flags: seq<bv8>)

  /** AddTxHash refuses a hash beyond the limit; the caller only logs that. */
  method AddHashes(hashes: seq<Hash>) returns (added: seq<Hash>)
    ensures |hashes| <= MAX_TX_PER_BLOCK ==> added == hashes
    ensures |hashes| > MAX_TX_PER_BLOCK ==> added == hashes[..MAX_TX_PER_BLOCK]
  {
    added := [];
    for i := 0 to |hashes|
      invariant added == if i <= MAX_TX_PER_BLOCK then hashes[..i] else hashes[..MAX_TX_PER_BLOCK]
    {
      if |added| + 1 <= MAX_TX_PER_BLOCK {
        added := added + [hashes[i]];
      }
    }
  }

  method MatchedIndices(matches: seq<bool>) returns (indices: seq<nat>)
    ensures indices == MatchedIn(matches, 0, |matches|)
  {
    indices := [];
    for i := 0 to |matches|
      invariant indices == MatchedIn(matches, 0, i)
    {
      MatchedSplit(matches, 0, i, i + 1);
      OneMatched(matches, i);
      if matches[i] {
        indices := indices + [i];
      }
    }
  }

  /** With every transaction matched there are as many hashes as transactions. */
  lemma {:induction false} AllHashes(m: seq<bool>, leaves: seq<Hash>, branch: Branch, h: nat, pos: nat)
    requires pos < Width(|m|, h) && |leaves| == |m| && forall i :: 0 <= i < |m| ==> m[i]
    ensures |HashesOf(m, leaves, branch, h, pos)| == End(|m|, h, pos) - Start(h, pos)
    decreases h
  {
    hide *;
    LeafRange(|m|, h, pos);
    MatchedParent(m, h, pos);
    BuiltForNode(m, leaves, branch, h, pos);
    if h > 0 {
      AllHashes(m, leaves, branch, h - 1, 2 * pos);
      if 2 * pos + 1 < Width(|m|, h - 1) {
        AllHashes(m, leaves, branch, h - 1, 2 * pos + 1);
      }
    }
  }

  lemma MatchedParent(m: seq<bool>, h: nat, pos: nat)
    requires Start(h, pos) < End(|m|, h, pos) <= |m| && m[Start(h, pos)]
    ensures IsParent(m, h, pos)
  {
    hide Start, End;
  }

  lemma LeafRange(n: nat, h: nat, pos: nat)
    requires pos < Width(n, h)
    ensures Start(h, pos) < End(n, h, pos) <= n && (h == 0 ==> End(n, h, pos) == Start(h, pos) + 1)
  {
    WidthStarts(n, h, pos);
    NonemptyRange(pos, Exp2(h), n);
    hide Width, Exp2;
  }

  /** From what a parser finds a receiver recovers the matched transactions and the root; all hashes and all
  bits but the padding are used. */
  ghost predicate Recovers(r: Option<Parsed>, root: Hash, indices: seq<nat>) {
    && r.Some? && r.value.hash == root && r.value.matches == indices && r.value.hashes == []
    && |r.value.bits| < 8 && forall i :: 0 <= i < |r.value.bits| ==> !r.value.bits[i]
  }

  /** NewMerkleBlock: from the message a receiver recovers exactly the matched transactions and the Merkle root
  if the hashes fit the message; otherwise no parser reads it. */
  method NewMerkleBlock(leaves: seq<Hash>, matches: seq<bool>, branch: Branch)
    returns (msg: Message, matchedIndices: seq<nat>, ghost height: nat)
    requires 1 <= |leaves| == |matches| <= 0x8000_0000
    ensures msg.transactions == |leaves| && matchedIndices == MatchedIn(matches, 0, |matches|)
    ensures IsTop(|leaves|, height) && 0 < Width(|matches|, height)
    ensures var r := Parse(|leaves|, branch, height, 0, Unpack(msg.flags), msg.hashes);
            if |HashesOf(matches, leaves, branch, height, 0)| <= MAX_TX_PER_BLOCK
            then Recovers(r, MerkleRoot(leaves, branch), matchedIndices) else r == None
  {
    hide *;
    matchedIndices := MatchedIndices(matches);
    var mBlock := new Builder(leaves, matches, branch);
    var h := TreeHeight(|leaves|);
    height := h;
    TopCovers(matches, leaves, branch, h);
    mBlock.TraverseAndBuild(h, 0);
    var hashes := AddHashes(mBlock.finalHashes);
    var flags := PackFlags(mBlock.bits);
    msg := Message(|leaves|, hashes, flags);
    RootIsCalcHash(leaves, branch, h);
    var padding := Padding(8 * |flags| - |mBlock.bits|);
    Trimmed(BitsOf(matches, h, 0), HashesOf(matches, leaves, branch, h, 0));
    if |mBlock.finalHashes| <= MAX_TX_PER_BLOCK {
      ParseInverts(matches, leaves, branch, h, 0, padding, []);
      RecoversIs(Parse(|leaves|, branch, height, 0, Unpack(msg.flags), msg.hashes), MerkleRoot(leaves, branch), matchedIndices);
    } else {
      ParseStarved(matches, leaves, branch, h, 0, padding, hashes);
    }
  }

  lemma RecoversIs(r: Option<Parsed>, root: Hash, indices: seq<nat>)
    requires r.Some? && r.value.hash == root && r.value.matches == indices && r.value.hashes == []
    requires |r.value.bits| < 8 && forall i :: 0 <= i < |r.value.bits| ==> !r.value.bits[i]
    ensures Recovers(r, root, indices)
  {
  }

  /** Such a message: 78645 transactions, all of them matched. */
  method OverfullMessage(leaves: seq<Hash>, branch: Branch) returns (msg: Message, ghost height: nat)
    requires |leaves| == 78645
    ensures IsTop(|leaves|, height) && msg.transactions == |leaves|
    ensures Parse(|leaves|, branch, height, 0, Unpack(msg.flags), msg.hashes) == None
  {
    hide *;
    var matches := seq(|leaves|, i => true);
    var indices;
    msg, indices, height := NewMerkleBlock(leaves, matches, branch);
    AllOfTop(matches, leaves, branch, height);
  }

  lemma AllOfTop(m: seq<bool>, leaves: seq<Hash>, branch: Branch, h: nat)
    requires 1 <= |leaves| == |m| && IsTop(|m|, h) && forall i :: 0 <= i < |m| ==> m[i]
    ensures 0 < Width(|m|, h) && |HashesOf(m, leaves, branch, h, 0)| == |m| && MAX_TX_PER_BLOCK == 78644
  {
    WidthStarts(|m|, h, 1);
    AllHashes(m, leaves, branch, h, 0);
    hide HashesOf, Exp2;
  }

  lemma Trimmed(bits: seq<bool>, hashes: seq<Hash>)
    ensures [] + bits == bits && [] + hashes == hashes && hashes + [] == hashes
  {
  }

  lemma TopCovers(m: seq<bool>, leaves: seq<Hash>, branch: Branch, h: nat)
    requires 1 <= |m| == |leaves| <= 0x8000_0000 && h <= 31 && IsTop(|m|, h)
    ensures 0 < Width(|m|, h) && Start(h, 0) == 0 && End(|m|, h, 0) == |m|
    ensures |BitsOf(m, h, 0)| < UINT32 && |HashesOf(m, leaves, branch, h, 0)| <= |m|
  {
    BitCount(m, h, 0);
    HashCount(m, leaves, branch, h, 0);
    Exp2Below(h);
    WidthStarts(|m|, h, 1);
    hide BitsOf, HashesOf, Exp2;
  }
}
