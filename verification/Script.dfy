/** Opcode values. */
module Opcodes {
  const OP_0: int := 0x00
  const OP_DATA_1: int := 0x01
  const OP_DATA_75: int := 0x4b
  const OP_PUSHDATA1: int := 0x4c
  const OP_PUSHDATA2: int := 0x4d
  const OP_PUSHDATA4: int := 0x4e
  const OP_1NEGATE: int := 0x4f
  const OP_1: int := 0x51
  const OP_16: int := 0x60
}

/** Scripts as bytes and as parsed opcodes. */
module Script {
  import opened Bytes
  import opened Opcodes
  import opened Wrappers

  /** A parsed opcode and the data it carries. */
  datatype Pop = Pop(op: byte, data: seq<byte>)

  /** The length entry of the opcode table: 1 for no data, n + 1 for n bytes of data, and the negated
  width of the length field for the three PUSHDATA opcodes. */
  function OpLength(op: byte): int {
    if OP_DATA_1 <= op <= OP_DATA_75 then op as int + 1
    else if op == OP_PUSHDATA1 then -1
    else if op == OP_PUSHDATA2 then -2
    else if op == OP_PUSHDATA4 then -4
    else 1
  }

  function Uint16(a: byte, b: byte): nat {
    a as int + 256 * b as int
  }

  function Uint32(a: byte, b: byte, c: byte, d: byte): nat {
    a as int + 256 * b as int + 0x10000 * c as int + 0x1000000 * d as int
  }

  function Low8(l: nat): byte {
    l % 256
  }

  /** The bytes of a length field of the given width. */
  function LengthField(width: nat, l: nat): (r: seq<byte>)
    requires width == 1 || width == 2 || width == 4
    ensures |r| == width
  {
    if width == 1 then [Low8(l)]
    else if width == 2 then [Low8(l), Low8(l / 0x100)]
    else [Low8(l), Low8(l / 0x100), Low8(l / 0x10000), Low8(l / 0x1000000)]
  }

  function FieldValue(f: seq<byte>): nat
    requires |f| == 1 || |f| == 2 || |f| == 4
  {
    if |f| == 1 then f[0] else if |f| == 2 then Uint16(f[0], f[1]) else Uint32(f[0], f[1], f[2], f[3])
  }

  /** The largest length a field holds, plus one. */
  function FieldLimit(width: nat): nat {
    if width == 1 then 0x100 else if width == 2 then 0x10000 else 0x1_0000_0000
  }

  lemma FieldRoundTrip(width: nat, l: nat)
    requires width == 1 || width == 2 || width == 4
    ensures FieldValue(LengthField(width, l)) == l % FieldLimit(width)
  {
    if width == 2 {
      TwoDigits(l);
    } else if width == 4 {
      FourDigits(l);
    }
  }

  lemma TwoDigits(l: nat)
    ensures l % 256 + 256 * (l / 0x100 % 256) == l % 0x10000
  {
    var a, l1 := l % 256, l / 0x100;
    var b, e := l1 % 256, l1 / 0x100;
    assert l == a + 256 * b + 0x10000 * e;
  }

  lemma FourDigits(l: nat)
    ensures l % 256 + 256 * (l / 0x100 % 256) + 0x10000 * (l / 0x10000 % 256) + 0x1000000 * (l / 0x1000000 % 256)
            == l % 0x1_0000_0000
  {
    var a, l1 := l % 256, l / 0x100;
    var b, l2 := l1 % 256, l1 / 0x100;
    var c, l3 := l2 % 256, l2 / 0x100;
    var d, e := l3 % 256, l3 / 0x100;
    assert l == a + 256 * b + 0x10000 * c + 0x1000000 * d + 0x1_0000_0000 * e;
    assert l / 0x10000 == l2 && l / 0x1000000 == l3;
  }

  lemma FieldUnique(f: seq<byte>)
    requires |f| == 1 || |f| == 2 || |f| == 4
    ensures FieldValue(f) < FieldLimit(|f|) && LengthField(|f|, FieldValue(f)) == f
  {
    if |f| == 2 {
      SplitTwo(f[0], f[1]);
    } else if |f| == 4 {
      SplitFour(f[0], f[1], f[2], f[3]);
    }
  }

  lemma SplitTwo(a: byte, b: byte)
    ensures var x := Uint16(a, b); x % 256 == a && x / 0x100 % 256 == b
  {
  }

  lemma SplitFour(a: byte, b: byte, c: byte, d: byte)
    ensures var x := Uint32(a, b, c, d);
            x % 256 == a && x / 0x100 % 256 == b && x / 0x10000 % 256 == c && x / 0x1000000 % 256 == d
  {
    var x := Uint32(a, b, c, d);
    var y: int := b as int + 256 * c as int + 0x10000 * d as int;
    assert x == a as int + 256 * y;
    assert x / 0x100 == y;
    assert y / 0x100 == c as int + 256 * d as int;
    assert x / 0x10000 == y / 0x100 && x / 0x1000000 == y / 0x10000;
  }

  // Parsing.

  /** The first opcode of a script and how many bytes it takes; None if the push is cut short. */
  function First(s: seq<byte>): (r: Option<(Pop, nat)>)
    requires s != []
    ensures r.Some? ==> 0 < r.value.1 <= |s|
  {
    var op := s[0];
    var len := OpLength(op);
    if len == 1 then Some((Pop(op, []), 1))
    else if len > 1 then
      if |s| < len then None else Some((Pop(op, s[1..len]), len))
    else
      var width := -len;
      if |s| - 1 < width then None
      else
        var l := FieldValue(s[1..1 + width]);
        if l > |s| - 1 - width then None
        else Some((Pop(op, s[1 + width..1 + width + l]), 1 + width + l))
  }

  /** All opcodes up to the end or the first malformed push, and whether the end was reached. */
  function Parse(s: seq<byte>): (r: (seq<Pop>, bool)) {
    if s == [] then ([], true)
    else
      match First(s)
      case None => ([], false)
      case Some(f) =>
        var rest := Parse(s[f.1..]);
        ([f.0] + rest.0, rest.1)
  }

  /** parseScriptTemplate with its index. */
  method ParseScript(script: seq<byte>) returns (retScript: seq<Pop>, ok: bool)
    ensures (retScript, ok) == Parse(script)
  {
    hide First;
    retScript := [];
    var i := 0;
    assert script[0..] == script && [] + Parse(script).0 == Parse(script).0;
    while i < |script|
      invariant 0 <= i <= |script|
      invariant Parse(script) == (retScript + Parse(script[i..]).0, Parse(script[i..]).1)
    {
      var f := First(script[i..]);
      if f.None? {
        assert retScript + [] == retScript;
        return retScript, false;
      }
      assert script[i..][f.value.1..] == script[i + f.value.1..];
      Regroup(retScript, f.value.0, Parse(script[i + f.value.1..]).0);
      retScript := retScript + [f.value.0];
      i := i + f.value.1;
    }
    assert retScript + [] == retScript;
    return retScript, true;
  }

  lemma Regroup(a: seq<Pop>, p: Pop, b: seq<Pop>)
    ensures a + ([p] + b) == a + [p] + b
  {
  }

  // Printing.

  /** parsedOpcode.bytes; None for an opcode whose data does not fit it. */
  function PopBytes(pop: Pop): (r: Option<seq<byte>>)
    ensures r.Some? ==> r.value != []
  {
    var len := OpLength(pop.op);
    if len == 1 then if pop.data != [] then None else Some([pop.op])
    else if len > 1 then if 1 + |pop.data| != len then None else Some([pop.op] + pop.data)
    else
      var field := LengthField(-len, |pop.data|);
      if |pop.data| != FieldValue(field) then None else Some([pop.op] + field + pop.data)
  }

  function Unparse(pops: seq<Pop>): Option<seq<byte>> {
    if pops == [] then Some([])
    else
      match PopBytes(pops[0])
      case None => None
      case Some(b) =>
        match Unparse(pops[1..])
        case None => None
        case Some(rest) => Some(b + rest)
  }

  /** unparseScript with its accumulator. */
  method UnparseScript(pops: seq<Pop>) returns (r: Option<seq<byte>>)
    ensures r == Unparse(pops)
  {
    hide PopBytes;
    var script: seq<byte> := [];
    assert pops[0..] == pops && (Unparse(pops).Some? ==> [] + Unparse(pops).value == Unparse(pops).value);
    for i := 0 to |pops|
      invariant Unparse(pops) == Prepend(script, Unparse(pops[i..]))
    {
      var b := PopBytes(pops[i]);
      assert pops[i..][1..] == pops[i + 1..];
      if b.None? {
        return None;
      }
      if Unparse(pops[i + 1..]).Some? {
        assert script + (b.value + Unparse(pops[i + 1..]).value) == script + b.value + Unparse(pops[i + 1..]).value;
      }
      script := script + b.value;
    }
    assert script + [] == script;
    return Some(script);
  }

  function Prepend(s: seq<byte>, r: Option<seq<byte>>): Option<seq<byte>> {
    if r.None? then None else Some(s + r.value)
  }

  // Round trips.

  /** The bytes of an opcode are what it was parsed from. */
  lemma FirstBytes(s: seq<byte>)
    requires s != [] && First(s).Some?
    ensures PopBytes(First(s).value.0) == Some(s[..First(s).value.1])
  {
    var op := s[0];
    var len := OpLength(op);
    if len == 1 {
      assert s[..1] == [op];
    } else if len > 1 {
      assert s[..len] == [op] + s[1..len];
    } else {
      var width := -len;
      var f := s[1..1 + width];
      FieldUnique(f);
      var l := FieldValue(f);
      assert s[..1 + width + l] == [op] + f + s[1 + width..1 + width + l];
    }
  }

  /** An opcode with consistent data parses back, whatever follows. */
  lemma BytesFirst(pop: Pop, rest: seq<byte>)
    requires PopBytes(pop).Some?
    ensures var b := PopBytes(pop).value; First(b + rest) == Some((pop, |b|))
  {
    var len := OpLength(pop.op);
    if len == 1 {
      assert (PopBytes(pop).value + rest)[0] == pop.op;
    } else if len > 1 {
      BytesFirstData(pop, rest);
    } else {
      BytesFirstField(pop, rest);
    }
  }

  lemma BytesFirstData(pop: Pop, rest: seq<byte>)
    requires OpLength(pop.op) > 1 && PopBytes(pop).Some?
    ensures var b := PopBytes(pop).value; First(b + rest) == Some((pop, |b|))
  {
    var len := OpLength(pop.op);
    var s := [pop.op] + pop.data + rest;
    hide OpLength;
    assert s[0] == pop.op && s[1..len] == pop.data;
  }

  lemma BytesFirstField(pop: Pop, rest: seq<byte>)
    requires OpLength(pop.op) < 1 && PopBytes(pop).Some?
    ensures var b := PopBytes(pop).value; First(b + rest) == Some((pop, |b|))
  {
    var width, l := -OpLength(pop.op), |pop.data|;
    var f := LengthField(width, l);
    var s := [pop.op] + f + pop.data + rest;
    assert width == 1 || width == 2 || width == 4;
    hide OpLength, LengthField, FieldValue;
    assert s[0] == pop.op && s[1..1 + width] == f;
    assert s[1 + width..1 + width + l] == pop.data;
  }

  lemma ParseStep(s: seq<byte>)
    requires s != [] && First(s).Some?
    ensures var f := First(s).value; Parse(s) == ([f.0] + Parse(s[f.1..]).0, Parse(s[f.1..]).1)
  {
  }

  lemma ParsesFirst(s: seq<byte>)
    requires s != [] && Parse(s).1
    ensures First(s).Some?
  {
  }

  lemma UnparseStep(pop: Pop, pops: seq<Pop>)
    requires PopBytes(pop).Some? && Unparse(pops).Some?
    ensures Unparse([pop] + pops) == Some(PopBytes(pop).value + Unparse(pops).value)
  {
    hide PopBytes;
    assert ([pop] + pops)[1..] == pops;
  }

  /** Every script that parses is reproduced from its opcodes. */
  lemma {:induction false} UnparseParse(s: seq<byte>)
    requires Parse(s).1
    ensures Unparse(Parse(s).0) == Some(s)
  {
    hide *;
    if s == [] {
      NothingParsed();
    } else {
      ParsesFirst(s);
      FirstBytes(s);
      ParseStep(s);
      var f := First(s).value;
      UnparseParse(s[f.1..]);
      UnparseStep(f.0, Parse(s[f.1..]).0);
      assert s == s[..f.1] + s[f.1..];
    }
  }

  lemma NothingParsed()
    ensures Parse([]) == ([], true) && Unparse([]) == Some([])
  {
  }

  /** One opcode. */
  lemma OnePop(pop: Pop)
    requires PopBytes(pop).Some?
    ensures Parse(PopBytes(pop).value) == ([pop], true)
  {
    hide *;
    NothingParsed();
    UnparseStep(pop, []);
    assert [pop] + [] == [pop] && PopBytes(pop).value + [] == PopBytes(pop).value;
    ParseUnparse([pop]);
  }

  /** Every list of consistent opcodes is recovered from its bytes. */
  lemma {:induction false} ParseUnparse(pops: seq<Pop>)
    requires Unparse(pops).Some?
    ensures Parse(Unparse(pops).value) == (pops, true)
  {
    if pops != [] {
      hide First, PopBytes, Parse;
      var b, rest := PopBytes(pops[0]).value, Unparse(pops[1..]).value;
      BytesFirst(pops[0], rest);
      ParseUnparse(pops[1..]);
      ParseStep(b + rest);
      assert (b + rest)[|b|..] == rest;
      assert [pops[0]] + pops[1..] == pops;
    }
  }

  lemma {:induction false} UnparseAppend(pops: seq<Pop>, pop: Pop)
    requires Unparse(pops).Some? && PopBytes(pop).Some?
    ensures Unparse(pops + [pop]) == Some(Unparse(pops).value + PopBytes(pop).value)
  {
    hide PopBytes;
    if pops == [] {
      UnparseStep(pop, []);
      assert [] + [pop] == [pop] + [] && PopBytes(pop).value + [] == [] + PopBytes(pop).value;
    } else {
      UnparseAppend(pops[1..], pop);
      assert pops + [pop] == [pops[0]] + (pops[1..] + [pop]);
      UnparseStep(pops[0], pops[1..] + [pop]);
      var b, rest, last := PopBytes(pops[0]).value, Unparse(pops[1..]).value, PopBytes(pop).value;
      assert b + (rest + last) == b + rest + last;
    }
  }

  // Removing an opcode.

  function Removed(pops: seq<Pop>, op: byte): seq<Pop> {
    if pops == [] then []
    else (if pops[0].op != op then [pops[0]] else []) + Removed(pops[1..], op)
  }

  method RemoveOpcode(pops: seq<Pop>, op: byte) returns (retScript: seq<Pop>)
    ensures retScript == Removed(pops, op)
  {
    retScript := [];
    assert pops[0..] == pops;
    for i := 0 to |pops|
      invariant Removed(pops, op) == retScript + Removed(pops[i..], op)
    {
      assert pops[i..][1..] == pops[i + 1..];
      if pops[i].op != op {
        Regroup(retScript, pops[i], Removed(pops[i + 1..], op));
        retScript := retScript + [pops[i]];
      } else {
        assert [] + Removed(pops[i + 1..], op) == Removed(pops[i + 1..], op);
      }
    }
    assert retScript + [] == retScript;
  }

  /** Exactly the other opcodes remain, each as often as before. */
  lemma {:induction false} RemovedContents(pops: seq<Pop>, op: byte)
    ensures forall p :: multiset(Removed(pops, op))[p] == if p.op == op then 0 else multiset(pops)[p]
  {
    if pops != [] {
      RemovedContents(pops[1..], op);
      assert pops == [pops[0]] + pops[1..];
    }
  }

  /** The items of t stand at increasing positions of s. */
  ghost predicate PicksInOrder(s: seq<Pop>, t: seq<Pop>, f: seq<nat>) {
    && |f| == |t| && (forall i :: 0 <= i < |f| ==> f[i] < |s| && t[i] == s[f[i]])
    && forall i, j :: 0 <= i < j < |f| ==> f[i] < f[j]
  }

  /** They remain in order: the result is the part of the script at increasing positions. */
  lemma {:induction false} RemovedOrder(pops: seq<Pop>, op: byte) returns (f: seq<nat>)
    ensures PicksInOrder(pops, Removed(pops, op), f)
  {
    f := [];
    if pops != [] {
      var g := RemovedOrder(pops[1..], op);
      var up := PickOnward(pops, Removed(pops[1..], op), g);
      if pops[0].op != op {
        PickFirst(pops, Removed(pops[1..], op), up);
      }
      f := if pops[0].op != op then [0] + up else up;
      assert [] + Removed(pops[1..], op) == Removed(pops[1..], op);
      hide PicksInOrder;
    }
  }

  lemma PickOnward(s: seq<Pop>, t: seq<Pop>, g: seq<nat>) returns (up: seq<nat>)
    requires s != [] && PicksInOrder(s[1..], t, g)
    ensures PicksInOrder(s, t, up) && forall i :: 0 <= i < |up| ==> up[i] > 0
  {
    up := seq(|g|, i requires 0 <= i < |g| => g[i] + 1);
  }

  lemma PickFirst(s: seq<Pop>, t: seq<Pop>, up: seq<nat>)
    requires s != [] && PicksInOrder(s, t, up) && forall i :: 0 <= i < |up| ==> up[i] > 0
    ensures PicksInOrder(s, [s[0]] + t, [0] + up)
  {
  }

  lemma {:induction false} RemovedConsistent(pops: seq<Pop>, op: byte)
    requires Unparse(pops).Some?
    ensures Unparse(Removed(pops, op)).Some?
  {
    hide PopBytes;
    if pops != [] {
      RemovedConsistent(pops[1..], op);
      var tail := Removed(pops[1..], op);
      assert ([pops[0]] + tail)[1..] == tail;
      assert [] + tail == tail;
    }
  }

  /** After the removal of an opcode from a script, such as OP_CODESEPARATOR from the code that is signed,
  printing and parsing again gives the remaining opcodes. */
  lemma RemoveRoundTrip(s: seq<byte>, op: byte)
    requires Parse(s).1
    ensures var left := Removed(Parse(s).0, op); Unparse(left).Some? && Parse(Unparse(left).value) == (left, true)
  {
    UnparseParse(s);
    RemovedConsistent(Parse(s).0, op);
    ParseUnparse(Removed(Parse(s).0, op));
  }
}

/** The canonical script builder, and what its pushes leave on the stack. */
module ScriptBuilder {
  import opened Bytes
  import opened Opcodes
  import opened Script
  import opened ScriptNum
  import opened Wrappers

  const MAX_SCRIPT_SIZE: nat := 10000
  const MAX_SCRIPT_ELEMENT_SIZE: nat := 520

  /** What executing a push opcode leaves on the stack. */
  function Pushed(pop: Pop): Option<seq<byte>> {
    if pop.op == OP_0 then Some([])
    else if pop.op <= OP_PUSHDATA4 then Some(pop.data)
    else if pop.op == OP_1NEGATE then Some([0x81])
    else if OP_1 <= pop.op <= OP_16 then Some([pop.op - 0x50])
    else None
  }

  /** checkMinimalDataPush: the shortest opcode for the data was used. */
  predicate MinimalPush(pop: Pop) {
    var n := |pop.data|;
    if n == 0 && pop.op != OP_0 then false
    else if n == 1 && 1 <= pop.data[0] <= 16 then pop.op == pop.data[0] + 0x50
    else if n == 1 && pop.data[0] == 0x81 then pop.op == OP_1NEGATE
    else if n <= 75 then pop.op == n
    else if n <= 255 then pop.op == OP_PUSHDATA1
    else if n <= 65535 then pop.op == OP_PUSHDATA2
    else true
  }

  /** The opcode that canonically pushes the data. */
  function PushPop(data: seq<byte>): Pop
    requires |data| < 0x1_0000_0000
  {
    if |data| == 0 || (|data| == 1 && data[0] == 0) then Pop(OP_0, [])
    else if |data| == 1 && data[0] <= 16 then Pop(data[0] + 0x50, [])
    else if |data| == 1 && data[0] == 0x81 then Pop(OP_1NEGATE, [])
    else if |data| < OP_PUSHDATA1 then Pop(|data|, data)
    else if |data| <= 0xff then Pop(OP_PUSHDATA1, data)
    else if |data| <= 0xffff then Pop(OP_PUSHDATA2, data)
    else Pop(OP_PUSHDATA4, data)
  }

  /** canonicalDataSize. */
  function CanonicalDataSize(data: seq<byte>): nat {
    if |data| == 0 then 1
    else if |data| == 1 && data[0] <= 16 then 1
    else if |data| == 1 && data[0] == 0x81 then 1
    else if |data| < OP_PUSHDATA1 then 1 + |data|
    else if |data| <= 0xff then 2 + |data|
    else if |data| <= 0xffff then 3 + |data|
    else 5 + |data|
  }

  /** The canonical push has the canonical size and pushes the data, except that a single zero byte is
  pushed as the empty string. */
  lemma PushPopPushes(data: seq<byte>)
    requires |data| < 0x1_0000_0000
    ensures var b := PopBytes(PushPop(data)); b.Some? && |b.value| == CanonicalDataSize(data)
    ensures Pushed(PushPop(data)) == Some(data) <==> data != [0]
    ensures data == [0] ==> Pushed(PushPop(data)) == Some([])
  {
    hide LengthField, FieldValue;
    if |data| == 1 {
      assert data == [data[0]];
    }
    if |data| >= OP_PUSHDATA1 {
      var pop := PushPop(data);
      FieldRoundTrip(-OpLength(pop.op), |data|);
    }
  }

  class Builder {
    var script: seq<byte>
    var failed: bool

    constructor ()
      ensures script == [] && !failed
    {
      script, failed := [], false;
    }

    method AddOp(opcode: byte)
      modifies this
      ensures failed <==> old(failed) || |old(script)| + 1 > MAX_SCRIPT_SIZE
      ensures script == if failed then old(script) else old(script) + [opcode]
    {
      if failed {
        return;
      }
      if |script| + 1 > MAX_SCRIPT_SIZE {
        failed := true;
        return;
      }
      script := script + [opcode];
    }

    /** Appends the canonical push of the data. */
    method AddFullData(data: seq<byte>)
      requires |data| < 0x1_0000_0000
      modifies this
      ensures failed == old(failed)
      ensures PopBytes(PushPop(data)).Some?
      ensures script == old(script) + if failed then [] else PopBytes(PushPop(data)).value
    {
      PushPopPushes(data);
      if failed {
        return;
      }
      var dataLen := |data|;
      if dataLen == 0 || (dataLen == 1 && data[0] == 0) {
        script := script + [OP_0];
        return;
      } else if dataLen == 1 && data[0] <= 16 {
        script := script + [data[0] + 0x50];
        return;
      } else if dataLen == 1 && data[0] == 0x81 {
        script := script + [OP_1NEGATE];
        return;
      }
      hide LengthField, FieldValue, CanonicalDataSize;
      var header: seq<byte>;
      if dataLen < OP_PUSHDATA1 {
        header := [dataLen];
      } else if dataLen <= 0xff {
        header := [OP_PUSHDATA1] + LengthField(1, dataLen);
      } else if dataLen <= 0xffff {
        header := [OP_PUSHDATA2] + LengthField(2, dataLen);
      } else {
        header := [OP_PUSHDATA4] + LengthField(4, dataLen);
      }
      assert script + header + data == script + (header + data);
      script := script + header;
      script := script + data;
    }

    method AddData(data: seq<byte>)
      modifies this
      ensures failed <==> old(failed) || |old(script)| + CanonicalDataSize(data) > MAX_SCRIPT_SIZE
                          || |data| > MAX_SCRIPT_ELEMENT_SIZE
      ensures |data| <= MAX_SCRIPT_ELEMENT_SIZE ==> PopBytes(PushPop(data)).Some?
      ensures script == old(script) + if failed then [] else PopBytes(PushPop(data)).value
    {
      hide PopBytes, PushPop, CanonicalDataSize;
      if |data| <= MAX_SCRIPT_ELEMENT_SIZE {
        PushPopPushes(data);
      }
      if failed {
        return;
      }
      var dataSize := CanonicalDataSize(data);
      if |script| + dataSize > MAX_SCRIPT_SIZE {
        failed := true;
        return;
      }
      if |data| > MAX_SCRIPT_ELEMENT_SIZE {
        failed := true;
        return;
      }
      AddFullData(data);
    }

    /** AddInt64 appends the push of the minimal encoding of the number. */
    method AddInt64(val: int)
      requires MIN_INT64 < val <= MAX_INT64
      modifies this
      ensures PopBytes(NumberPop(val)).Some?
      ensures failed <==> old(failed) || |old(script)| + |PopBytes(NumberPop(val)).value| > MAX_SCRIPT_SIZE
      ensures script == old(script) + if failed then [] else PopBytes(NumberPop(val)).value
    {
      NumberPopPushes(val);
      if failed {
        return;
      }
      if |script| + 1 > MAX_SCRIPT_SIZE {
        failed := true;
        return;
      }
      if val == 0 {
        script := script + [OP_0];
        return;
      }
      if val == -1 || 1 <= val <= 16 {
        script := script + [0x50 + val];
        return;
      }
      hide PopBytes, PushPop, CanonicalDataSize, EncodeNum, Value, Minimal;
      var encoded := Encode(val);
      var bytes := encoded.value;
      EncodeNumCorrect(val);
      MinimalUnique(bytes, EncodeNum(val));
      PushPopPushes(bytes);
      AddData(bytes);
    }
  }

  /** The opcode that pushes a number. */
  function NumberPop(val: int): Pop
    requires MIN_INT64 < val <= MAX_INT64
  {
    if val == 0 then Pop(OP_0, [])
    else if val == -1 || 1 <= val <= 16 then Pop(0x50 + val, [])
    else EncodeNumLength(val); PushPop(EncodeNum(val))
  }

  /** It is the shortest push of the minimal encoding of the number. */
  lemma NumberPopPushes(val: int)
    requires MIN_INT64 < val <= MAX_INT64
    ensures var pop := NumberPop(val);
            && PopBytes(pop).Some? && Parse(PopBytes(pop).value) == ([pop], true)
            && pop.op <= OP_16 && Pushed(pop).Some? && Minimal(Pushed(pop).value) && Value(Pushed(pop).value) == val
            && MinimalPush(Pop(pop.op, Pushed(pop).value))
  {
    if -1 <= val <= 16 {
      SmallInteger(val);
    } else {
      EncodeNumCorrect(val);
      EncodeNumLength(val);
      LargeInteger(EncodeNum(val), val);
    }
  }

  /** The opcode of a small number pushes its minimal encoding. */
  lemma SmallInteger(val: int)
    requires -1 <= val <= 16
    ensures var pop := Pop(if val == 0 then 0 else 0x50 + val, []);
            && PopBytes(pop) == Some([pop.op]) && Parse([pop.op]) == ([pop], true)
            && Pushed(pop).Some? && Minimal(Pushed(pop).value) && Value(Pushed(pop).value) == val
            && MinimalPush(Pop(pop.op, Pushed(pop).value))
  {
    var pop := Pop(if val == 0 then 0 else 0x50 + val, []);
    OnePop(pop);
    if val != 0 {
      OneByte(if val == -1 then 0x81 else val);
    }
  }

  lemma OneByte(b: byte)
    ensures Value([b]) == if b >= 128 then -(b as int % 128) else b as int
  {
    Magnitude([b]);
    assert [b][..0] == [];
  }

  /** Other numbers are pushed as data. */
  lemma LargeInteger(v: seq<byte>, val: int)
    requires Minimal(v) && Value(v) == val && |v| <= 8 && val != 0 && val != -1 && !(1 <= val <= 16)
    ensures var pop := PushPop(v);
            && PopBytes(pop).Some? && Parse(PopBytes(pop).value) == ([pop], true)
            && Pushed(pop) == Some(v) && MinimalPush(Pop(pop.op, v))
  {
    PushPopPushes(v);
    if |v| == 1 {
      OneByte(v[0]);
      assert v == [v[0]];
    }
    OnePop(PushPop(v));
  }
}
