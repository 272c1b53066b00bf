/** Widths, ranges and hashes of a Merkle tree whose last node is paired with itself. */
module MerkleTree {
  const UINT32: nat := 0x1_0000_0000
  type uint32 = x: int | 0 <= x < 0x1_0000_0000

  type Hash = seq<int>
  type Branch = (Hash, Hash) -> Hash

  function Exp2(h: nat): (e: nat)
    ensures e > 0
  {
    if h == 0 then 1 else 2 * Exp2(h - 1)
  }

  lemma {:induction false} Exp2Monotone(g: nat, h: nat)
    requires g <= h
    ensures Exp2(g) <= Exp2(h)
  {
    if g < h {
      Exp2Monotone(g, h - 1);
    }
  }

  lemma Exp2Of31()
    ensures Exp2(31) == 0x8000_0000
  {
    EightMore(0);
    EightMore(8);
    EightMore(16);
    assert Exp2(31) == 2 * Exp2(30) == 4 * Exp2(29) == 8 * Exp2(28) == 16 * Exp2(27) == 32 * Exp2(26) == 64 * Exp2(25);
  }

  lemma EightMore(h: nat)
    ensures Exp2(h + 8) == 256 * Exp2(h)
  {
    assert Exp2(h + 8) == 2 * Exp2(h + 7) == 4 * Exp2(h + 6) == 8 * Exp2(h + 5) == 16 * Exp2(h + 4);
    assert Exp2(h + 4) == 2 * Exp2(h + 3) == 4 * Exp2(h + 2) == 8 * Exp2(h + 1);
  }

  /** The number of nodes at height h over n leaves: each level halves, rounding up. */
  function Width(n: nat, h: nat): (w: nat)
    ensures n > 0 ==> w > 0
    ensures w <= n
  {
    if h == 0 then n else (Width(n, h - 1) + 1) / 2
  }

  /** A quotient is determined by its remainder's range. */
  lemma Quotient(x: int, e: int, q: int, r: int)
    requires e > 0 && x == q * e + r && 0 <= r < e
    ensures x / e == q
  {
    var k := x / e - q;
    assert x == (x / e) * e + x % e;
    assert k * e == r - x % e;
    Small(k, e);
  }

  lemma Small(k: int, e: int)
    requires e > 0 && -e < k * e < e
    ensures k == 0
  {
  }

  /** n / e rounded up. */
  ghost function RoundUp(n: nat, e: nat): int
    requires e > 0
  {
    (n + e - 1) / e
  }

  /** The width is n / 2^h rounded up. */
  lemma WidthFormula(n: nat, h: nat)
    ensures Width(n, h) == (n + Exp2(h) - 1) / Exp2(h)
  {
    WidthIsRoundUp(n, h);
    hide Exp2, Width;
  }

  lemma {:induction false} WidthIsRoundUp(n: nat, h: nat)
    ensures Width(n, h) == RoundUp(n, Exp2(h))
  {
    if h > 0 {
      WidthIsRoundUp(n, h - 1);
      var e := Exp2(h - 1);
      assert Exp2(h) == 2 * e && Width(n, h) == (Width(n, h - 1) + 1) / 2;
      hide Exp2, Width, RoundUp;
      RoundUpTwice(n, e);
    }
  }

  lemma RoundUpTwice(n: nat, e: nat)
    requires e > 0
    ensures (RoundUp(n, e) + 1) / 2 == RoundUp(n, 2 * e)
  {
    var q, r := (n + e - 1) / e, (n + e - 1) % e;
    var a, b := (q + 1) / 2, (q + 1) % 2;
    Halve(e, q, a, b);
    var s := b * e + r;
    assert s == r || s == e + r;
    DivMod(n + e - 1, e);
    Quotient(n + 2 * e - 1, 2 * e, a, s);
  }

  lemma DivMod(x: int, e: int)
    requires e > 0
    ensures x == (x / e) * e + x % e && 0 <= x % e < e
  {
  }

  lemma Halve(e: int, q: int, a: int, b: int)
    requires q + 1 == 2 * a + b
    ensures q * e + e == a * (2 * e) + b * e
  {
    assert (q + 1) * e == (2 * a + b) * e;
  }

  /** Positions of a level are those whose leaves begin before n. */
  lemma {:induction false} WidthStarts(n: nat, h: nat, pos: nat)
    ensures pos < Width(n, h) <==> pos * Exp2(h) < n
  {
    if h > 0 {
      var e := Exp2(h - 1);
      assert Exp2(h) == 2 * e && Width(n, h) == (Width(n, h - 1) + 1) / 2;
      WidthStarts(n, h - 1, 2 * pos);
      hide Exp2, Width;
      DoublePosition(pos, e);
    }
  }

  /** The first leaf under a node. */
  function Start(h: nat, pos: nat): nat {
    pos * Exp2(h)
  }

  /** The end of the leaves under a node. */
  function End(n: nat, h: nat, pos: nat): nat {
    if (pos + 1) * Exp2(h) <= n then (pos + 1) * Exp2(h) else n
  }

  /** The children of a node cover its leaves. */
  lemma Children(n: nat, h: nat, pos: nat)
    requires h > 0 && pos < Width(n, h)
    ensures 2 * pos < Width(n, h - 1)
    ensures Start(h - 1, 2 * pos) == Start(h, pos) < n && Start(h, pos) <= End(n, h - 1, 2 * pos) <= End(n, h, pos) <= n
    ensures if 2 * pos + 1 < Width(n, h - 1)
            then End(n, h - 1, 2 * pos) == Start(h - 1, 2 * pos + 1) && End(n, h - 1, 2 * pos + 1) == End(n, h, pos)
            else End(n, h - 1, 2 * pos) == End(n, h, pos)
  {
    var e := Exp2(h - 1);
    WidthStarts(n, h, pos);
    WidthStarts(n, h - 1, 2 * pos);
    WidthStarts(n, h - 1, 2 * pos + 1);
    assert Exp2(h) == 2 * e;
    DoublePosition(pos, e);
  }

  lemma DoublePosition(pos: int, e: int)
    ensures (2 * pos) * e == pos * (2 * e)
    ensures (2 * pos + 1 + 1) * e == (pos + 1) * (2 * e)
    ensures (2 * pos + 1) * e == pos * (2 * e) + e
    ensures (pos + 1) * (2 * e) == pos * (2 * e) + 2 * e
  {
  }

  /** calcHash: the hash of the sub-tree at a node. */
  function CalcHash(leaves: seq<Hash>, branch: Branch, h: nat, pos: nat): Hash
    requires pos < Width(|leaves|, h)
    decreases h
  {
    if h == 0 then leaves[pos]
    else
      Children(|leaves|, h, pos);
      var left := CalcHash(leaves, branch, h - 1, 2 * pos);
      var right := if 2 * pos + 1 < Width(|leaves|, h - 1) then CalcHash(leaves, branch, h - 1, 2 * pos + 1) else left;
      branch(left, right)
  }

  // The root, level by level.

  /** One level up: neighbours are combined, an odd last node with itself. */
  function NextLevel(level: seq<Hash>, branch: Branch): (r: seq<Hash>)
    ensures |r| == (|level| + 1) / 2
  {
    seq((|level| + 1) / 2, i requires 0 <= i < (|level| + 1) / 2 =>
          branch(level[2 * i], if 2 * i + 1 < |level| then level[2 * i + 1] else level[2 * i]))
  }

  function MerkleRoot(level: seq<Hash>, branch: Branch): Hash
    requires level != []
    decreases |level|
  {
    if |level| == 1 then level[0] else MerkleRoot(NextLevel(level, branch), branch)
  }

  function Level(leaves: seq<Hash>, branch: Branch, h: nat): (r: seq<Hash>)
    ensures |r| == Width(|leaves|, h)
  {
    if h == 0 then leaves else NextLevel(Level(leaves, branch, h - 1), branch)
  }

  lemma NextLevelAt(level: seq<Hash>, branch: Branch, i: nat)
    requires i < (|level| + 1) / 2
    ensures NextLevel(level, branch)[i] == branch(level[2 * i], if 2 * i + 1 < |level| then level[2 * i + 1] else level[2 * i])
  {
  }

  lemma {:induction false} LevelIsCalcHash(leaves: seq<Hash>, branch: Branch, h: nat, pos: nat)
    requires pos < Width(|leaves|, h)
    ensures Level(leaves, branch, h)[pos] == CalcHash(leaves, branch, h, pos)
    decreases h
  {
    hide NextLevel, Start, End, Exp2;
    if h > 0 {
      assert 2 * pos < Width(|leaves|, h - 1);
      NextLevelAt(Level(leaves, branch, h - 1), branch, pos);
      LevelIsCalcHash(leaves, branch, h - 1, 2 * pos);
      if 2 * pos + 1 < Width(|leaves|, h - 1) {
        LevelIsCalcHash(leaves, branch, h - 1, 2 * pos + 1);
      }
    }
  }

  /** A height with a single node, all lower levels being wider. */
  ghost predicate IsTop(n: nat, h: nat) {
    Width(n, h) == 1 && forall g: nat :: g < h ==> Width(n, g) > 1
  }

  lemma {:induction false} RootFrom(leaves: seq<Hash>, branch: Branch, g: nat, h: nat)
    requires leaves != [] && IsTop(|leaves|, h) && g <= h
    ensures MerkleRoot(Level(leaves, branch, g), branch) == Level(leaves, branch, h)[0]
    decreases h - g
  {
    hide NextLevel, Width;
    if g < h {
      assert Width(|leaves|, g) > 1;
      RootFrom(leaves, branch, g + 1, h);
      assert Level(leaves, branch, g + 1) == NextLevel(Level(leaves, branch, g), branch);
    }
  }

  /** The recursive hash of the top node is the level-by-level root. */
  lemma RootIsCalcHash(leaves: seq<Hash>, branch: Branch, h: nat)
    requires leaves != [] && IsTop(|leaves|, h)
    ensures MerkleRoot(leaves, branch) == CalcHash(leaves, branch, h, 0)
  {
    RootFrom(leaves, branch, 0, h);
    LevelIsCalcHash(leaves, branch, h, 0);
  }
}
