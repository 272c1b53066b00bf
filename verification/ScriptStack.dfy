/** The stack of the script machine; the top is the last item. */
module ScriptStack {
  import opened Bytes
  import opened ScriptNum
  import opened Wrappers

  type Item = seq<byte>
  type Items = seq<Item>

  // What the operations do, on values.

  function PeekSpec(s: Items, idx: int): Option<Item> {
    if 0 <= idx < |s| then Some(s[|s| - 1 - idx]) else None
  }

  /** The item idx below the top, and the stack without it. */
  function NipSpec(s: Items, idx: int): Option<(Item, Items)> {
    if 0 <= idx < |s| then Some((s[|s| - 1 - idx], s[..|s| - 1 - idx] + s[|s| - idx..])) else None
  }

  function DropSpec(s: Items, n: int): Option<Items> {
    if 1 <= n <= |s| then Some(s[..|s| - n]) else None
  }

  /** [... x1 .. xn] becomes [... x1 .. xn x1 .. xn]. */
  function DupSpec(s: Items, n: int): Option<Items> {
    if 1 <= n <= |s| then Some(s + s[|s| - n..]) else None
  }

  /** Three groups of n items; the lowest comes to the top. */
  function RotSpec(s: Items, n: int): Option<Items> {
    if 1 <= n && 3 * n <= |s| then Some(s[..|s| - 3 * n] + s[|s| - 2 * n..] + s[|s| - 3 * n..|s| - 2 * n]) else None
  }

  /** Two groups of n items are exchanged. */
  function SwapSpec(s: Items, n: int): Option<Items> {
    if 1 <= n && 2 * n <= |s| then Some(s[..|s| - 2 * n] + s[|s| - n..] + s[|s| - 2 * n..|s| - n]) else None
  }

  /** The n items below the top n are copied to the top. */
  function OverSpec(s: Items, n: int): Option<Items> {
    if 1 <= n && 2 * n <= |s| then Some(s + s[|s| - 2 * n..|s| - n]) else None
  }

  /** [... x1 x2] becomes [... x2 x1 x2]. */
  function TuckSpec(s: Items): Option<Items> {
    if |s| >= 2 then Some(s[..|s| - 2] + [s[|s| - 1], s[|s| - 2], s[|s| - 1]]) else None
  }

  predicate AsBoolSpec(t: Item) {
    exists i :: 0 <= i < |t| && t[i] != 0 && !(i == |t| - 1 && t[i] == 0x80)
  }

  function FromBool(v: bool): Item {
    if v then [1] else []
  }

  /** asBool: any number but zero, also negative zero, is true. */
  method AsBool(t: Item) returns (v: bool)
    ensures v == AsBoolSpec(t)
  {
    for i := 0 to |t|
      invariant forall j :: 0 <= j < i ==> t[j] == 0
    {
      if t[i] != 0 {
        if i == |t| - 1 && t[i] == 0x80 {
          return false;
        }
        return true;
      }
    }
    return false;
  }

  /** True is what stands for a number other than zero. */
  lemma AsBoolIsNonzero(t: Item)
    ensures AsBoolSpec(t) <==> Value(t) != 0
  {
    if t != [] {
      var k := |t| - 1;
      Magnitude(t);
      LittleEndianZero(t[..k]);
      ScaleTop(t[k] as int % 128, Weight(k));
      hide Value, LittleEndian, Weight;
      assert forall i :: 0 <= i < k ==> t[..k][i] == t[i];
      assert t[k] as int % 128 == 0 <==> t[k] == 0 || t[k] == 0x80;
    }
  }

  /** Booleans survive the stack. */
  lemma BoolRoundTrip(v: bool)
    ensures AsBoolSpec(FromBool(v)) == v
  {
    if v {
      assert FromBool(v)[0] == 1;
    }
  }

  /** The first j items after k moved to the top. */
  function Rotated(s: Items, k: nat, j: nat): Items
    requires k + j <= |s|
  {
    s[..k] + s[k + j..] + s[k..k + j]
  }

  /** One item of the lowest group comes to the top. */
  lemma RotateStep(s: Items, k: nat, j: nat)
    requires k + j < |s|
    ensures var r := NipSpec(Rotated(s, k, j), |s| - k - 1);
            r.Some? && r.value.1 + [r.value.0] == Rotated(s, k, j + 1)
  {
    var t := Rotated(s, k, j);
    assert |t| == |s| && t[k] == s[k + j];
    assert t[..k] == s[..k] && t[k + 1..] == s[k + j + 1..] + s[k..k + j];
    assert s[k..k + j] + [s[k + j]] == s[k..k + j + 1];
  }

  lemma NotRotated(s: Items, k: nat)
    requires k <= |s|
    ensures Rotated(s, k, 0) == s
  {
  }

  lemma TooDeep(s: Items, idx: int)
    requires idx >= |s|
    ensures NipSpec(s, idx).None?
  {
  }

  class Stack {
    var stk: Items

    constructor ()
      ensures stk == []
    {
      stk := [];
    }

    method PushByteArray(so: Item)
      modifies this
      ensures stk == old(stk) + [so]
    {
      stk := stk + [so];
    }

    method PeekByteArray(idx: int) returns (so: Option<Item>)
      ensures so == PeekSpec(stk, idx)
    {
      var sz := |stk|;
      if idx < 0 || idx >= sz {
        return None;
      }
      return Some(stk[sz - idx - 1]);
    }

    /** nipN, by its three cases. */
    method Nip(idx: int) returns (so: Option<Item>)
      modifies this
      ensures so.Some? <==> NipSpec(old(stk), idx).Some?
      ensures so.Some? ==> (so.value, stk) == NipSpec(old(stk), idx).value
      ensures so.None? ==> stk == old(stk)
    {
      var sz := |stk|;
      if idx < 0 || idx > sz - 1 {
        return None;
      }
      so := Some(stk[sz - idx - 1]);
      if idx == 0 {
        assert stk[..sz - 1] + stk[sz..] == stk[..sz - 1];
        stk := stk[..sz - 1];
      } else if idx == sz - 1 {
        assert stk[..0] + stk[1..] == stk[1..];
        stk := stk[1..];
      } else {
        assert stk[sz - idx..sz] == stk[sz - idx..];
        var s1 := stk[sz - idx..sz];
        stk := stk[..sz - idx - 1];
        stk := stk + s1;
      }
    }

    method PopByteArray() returns (so: Option<Item>)
      modifies this
      ensures so.Some? <==> old(stk) != []
      ensures so.Some? ==> stk + [so.value] == old(stk)
      ensures so.None? ==> stk == old(stk)
    {
      so := Nip(0);
    }

    method DropN(n: int) returns (ok: bool)
      modifies this
      ensures ok <==> DropSpec(old(stk), n).Some?
      ensures ok ==> stk == DropSpec(old(stk), n).value
    {
      if n < 1 {
        return false;
      }
      var left := n;
      while left > 0
        invariant 0 <= left <= n && |old(stk)| >= n - left && stk == old(stk)[..|old(stk)| - (n - left)]
      {
        var so := PopByteArray();
        if so.None? {
          return false;
        }
        left := left - 1;
      }
      return true;
    }

    method DupN(n: int) returns (ok: bool)
      modifies this
      ensures ok <==> DupSpec(old(stk), n).Some?
      ensures ok ==> stk == DupSpec(old(stk), n).value
    {
      if n < 1 {
        return false;
      }
      ghost var s := stk;
      var i := n;
      while i > 0
        invariant 0 <= i <= n && (i < n ==> n <= |s|)
        invariant i == n ==> stk == s
        invariant n <= |s| ==> stk == s + s[|s| - n..|s| - i]
      {
        var so := PeekByteArray(n - 1);
        if so.None? {
          return false;
        }
        stk := stk + [so.value];
        i := i - 1;
      }
      return true;
    }

    method RotN(n: int) returns (ok: bool)
      modifies this
      ensures ok <==> RotSpec(old(stk), n).Some?
      ensures ok ==> stk == RotSpec(old(stk), n).value
    {
      if n < 1 {
        return false;
      }
      ok := Rotate(3 * n, n);
      assert |old(stk)| >= 3 * n ==> old(stk)[|old(stk)| - 3 * n + n..] == old(stk)[|old(stk)| - 2 * n..];
    }

    method SwapN(n: int) returns (ok: bool)
      modifies this
      ensures ok <==> SwapSpec(old(stk), n).Some?
      ensures ok ==> stk == SwapSpec(old(stk), n).value
    {
      if n < 1 {
        return false;
      }
      ok := Rotate(2 * n, n);
      assert |old(stk)| >= 2 * n ==> old(stk)[|old(stk)| - 2 * n + n..] == old(stk)[|old(stk)| - n..];
    }

    /** The loop of RotN and SwapN: n times the item depth - 1 below the top comes to the top. */
    method Rotate(depth: int, n: int) returns (ok: bool)
      requires 1 <= n <= depth
      modifies this
      ensures ok <==> depth <= |old(stk)|
      ensures ok ==> stk == Rotated(old(stk), |old(stk)| - depth, n)
    {
      hide Rotated, NipSpec;
      ghost var s := stk;
      ghost var k := |s| - depth;
      if k < 0 {
        TooDeep(s, depth - 1);
      } else {
        NotRotated(s, k);
      }
      var i := n;
      while i > 0
        invariant 0 <= i <= n && (i < n ==> k >= 0)
        invariant stk == if k >= 0 then Rotated(s, k, n - i) else s
      {
        if k >= 0 {
          RotateStep(s, k, n - i);
        }
        var so := Nip(depth - 1);
        if so.None? {
          return false;
        }
        stk := stk + [so.value];
        i := i - 1;
      }
      return true;
    }

    method OverN(n: int) returns (ok: bool)
      modifies this
      ensures ok <==> OverSpec(old(stk), n).Some?
      ensures ok ==> stk == OverSpec(old(stk), n).value
    {
      if n < 1 {
        return false;
      }
      ghost var s := stk;
      var entry := 2 * n - 1;
      var left := n;
      while left > 0
        invariant 0 <= left <= n && (left < n ==> 2 * n <= |s|)
        invariant left == n ==> stk == s
        invariant 2 * n <= |s| ==> stk == s + s[|s| - 2 * n..|s| - n - left]
      {
        var so := PeekByteArray(entry);
        if so.None? {
          return false;
        }
        stk := stk + [so.value];
        left := left - 1;
      }
      return true;
    }

    method Tuck() returns (ok: bool)
      modifies this
      ensures ok <==> TuckSpec(old(stk)).Some?
      ensures ok ==> stk == TuckSpec(old(stk)).value
    {
      var so2 := PopByteArray();
      if so2.None? {
        return false;
      }
      var so1 := PopByteArray();
      if so1.None? {
        return false;
      }
      stk := stk + [so2.value];
      stk := stk + [so1.value];
      stk := stk + [so2.value];
      return true;
    }
  }

  // The rearrangements lose and invent nothing.

  /** Rotating three times, or swapping twice, restores the stack. */
  lemma RotThrice(s: Items, n: int)
    requires RotSpec(s, n).Some?
    ensures RotSpec(RotSpec(s, n).value, n).Some?
    ensures RotSpec(RotSpec(RotSpec(s, n).value, n).value, n) == Some(s)
  {
    var k := |s| - 3 * n;
    var x, y, z := s[k..k + n], s[k + n..k + 2 * n], s[k + 2 * n..];
    assert s == s[..k] + x + y + z;
    RotGroups(s[..k], x, y, z);
    RotGroups(s[..k], y, z, x);
    RotGroups(s[..k], z, x, y);
  }

  lemma RotGroups(base: Items, x: Items, y: Items, z: Items)
    requires |x| == |y| == |z| >= 1
    ensures RotSpec(base + x + y + z, |x|) == Some(base + y + z + x)
  {
    var s, n := base + x + y + z, |x|;
    assert s[..|s| - 3 * n] == base && s[|s| - 2 * n..] == y + z && s[|s| - 3 * n..|s| - 2 * n] == x;
    assert base + (y + z) + x == base + y + z + x;
  }

  lemma SwapTwice(s: Items, n: int)
    requires SwapSpec(s, n).Some?
    ensures SwapSpec(SwapSpec(s, n).value, n) == Some(s)
  {
    var k := |s| - 2 * n;
    var x, y := s[k..k + n], s[k + n..];
    assert s == s[..k] + x + y;
    SwapGroups(s[..k], x, y);
    SwapGroups(s[..k], y, x);
  }

  lemma SwapGroups(base: Items, x: Items, y: Items)
    requires |x| == |y| >= 1
    ensures SwapSpec(base + x + y, |x|) == Some(base + y + x)
  {
    var s, n := base + x + y, |x|;
    assert s[..|s| - 2 * n] == base && s[|s| - n..] == y && s[|s| - 2 * n..|s| - n] == x;
  }
}
