/** The flat block files as they are on disk, and what a rollback may not touch. */
module BlockFiles {
  import opened Bytes
  import opened BlockRows

  /** The existing files by number. */
  type Disk = map<nat, seq<byte>>

  ghost predicate AtMost(p: Position, q: Position) {
    p.file < q.file || (p.file == q.file && p.off <= q.off)
  }

  /** Everything before position p is the same in both. */
  ghost predicate KeepsBelow(d: Disk, e: Disk, p: Position) {
    && (forall f :: f in d && f < p.file ==> f in e && e[f] == d[f])
    && (p.file in d && p.off <= |d[p.file]| ==>
          p.file in e && p.off <= |e[p.file]| && e[p.file][..p.off] == d[p.file][..p.off])
  }

  /** All files up to position p exist, and the last one is long enough. */
  ghost predicate Reaches(d: Disk, p: Position) {
    && (forall f: nat :: f < p.file ==> f in d)
    && (p != Position(0, 0) ==> p.file in d && p.off <= |d[p.file]|)
  }

  /** File numbers and sizes fit 32 bits. */
  ghost predicate Sized(d: Disk) {
    forall f :: f in d ==> f < UINT32 && |d[f]| < UINT32
  }

  /** The record at a location. */
  ghost predicate Holds(d: Disk, loc: Location, record: seq<byte>) {
    && loc.blockLen == |record| && loc.blockFileNum in d
    && var end := loc.fileOffset + loc.blockLen;
       end <= |d[loc.blockFileNum]| && d[loc.blockFileNum][loc.fileOffset..end] == record
  }

  ghost predicate EndsBelow(loc: Location, p: Position) {
    loc.blockFileNum < p.file || (loc.blockFileNum == p.file && loc.fileOffset + loc.blockLen <= p.off)
  }

  lemma KeepsReflexive(d: Disk, p: Position)
    ensures KeepsBelow(d, d, p)
  {
  }

  lemma KeepsTransitive(d: Disk, e: Disk, g: Disk, p: Position)
    requires KeepsBelow(d, e, p) && KeepsBelow(e, g, p)
    ensures KeepsBelow(d, g, p)
  {
  }

  lemma KeepsEarlier(d: Disk, e: Disk, p: Position, q: Position)
    requires KeepsBelow(d, e, q) && AtMost(p, q) && Reaches(d, q)
    ensures KeepsBelow(d, e, p)
  {
    if p.file == q.file && p.file in d {
      assert d[p.file][..p.off] == d[p.file][..q.off][..p.off];
      assert p.file in e ==> e[p.file][..p.off] == e[p.file][..q.off][..p.off];
    }
  }

  lemma KeepsReaches(d: Disk, e: Disk, p: Position)
    requires KeepsBelow(d, e, p) && Reaches(d, p)
    ensures Reaches(e, p)
  {
  }

  lemma AtMostTransitive(p: Position, q: Position, r: Position)
    requires AtMost(p, q) && AtMost(q, r)
    ensures AtMost(p, r)
  {
  }

  lemma EndsEarlier(loc: Location, p: Position, q: Position)
    requires EndsBelow(loc, p) && AtMost(p, q)
    ensures EndsBelow(loc, q)
  {
  }

  lemma KeepsHolds(d: Disk, e: Disk, p: Position, loc: Location, record: seq<byte>)
    requires KeepsBelow(d, e, p) && Reaches(d, p) && Holds(d, loc, record) && EndsBelow(loc, p) && |record| > 0
    ensures Holds(e, loc, record)
  {
    var f := loc.blockFileNum;
    if f == p.file {
      var a, b := loc.fileOffset, loc.fileOffset + loc.blockLen;
      assert d[f][a..b] == d[f][..p.off][a..b];
      assert e[f][a..b] == e[f][..p.off][a..b];
    }
  }

  // What the system calls do to a file.

  function Zeros(n: nat): (z: seq<byte>)
    ensures |z| == n
  {
    seq(n, _ => 0)
  }

  function Resized(s: seq<byte>, size: nat): (r: seq<byte>)
    ensures |r| == size
    ensures forall p :: 0 <= p <= size && p <= |s| ==> r[..p] == s[..p]
  {
    if size <= |s| then s[..size] else s + Zeros(size - |s|)
  }

  /** Data written at an offset; a gap before it is filled with zeros. */
  function Written(s: seq<byte>, off: nat, data: seq<byte>): (r: seq<byte>) {
    var end := off + |data|;
    (if off <= |s| then s[..off] else Resized(s, off)) + data + (if end <= |s| then s[end..] else [])
  }

  lemma WrittenKeeps(s: seq<byte>, off: nat, data: seq<byte>)
    requires off <= |s|
    ensures var r := Written(s, off, data);
            |r| == (if off + |data| <= |s| then |s| else off + |data|)
            && r[..off] == s[..off] && r[off..off + |data|] == data
  {
  }

  lemma WriteKeepsBelow(d: Disk, p: Position, f: nat, off: nat, data: seq<byte>)
    requires f in d && off <= |d[f]| && (p.file < f || (p.file == f && p.off <= off))
    ensures KeepsBelow(d, d[f := Written(d[f], off, data)], p)
  {
    WrittenKeeps(d[f], off, data);
    if p.file == f {
      var r := Written(d[f], off, data);
      assert r[..p.off] == r[..off][..p.off] && d[f][..p.off] == d[f][..off][..p.off];
    }
  }

  /** Two writes in a row are one write. */
  lemma WrittenTwice(s: seq<byte>, off: nat, a: seq<byte>, b: seq<byte>)
    requires off <= |s|
    ensures Written(Written(s, off, a), off + |a|, b) == Written(s, off, a + b)
  {
    WrittenKeeps(s, off, a);
    var t := Written(s, off, a);
    assert t[..off + |a|] == s[..off] + a;
    if off + |a| + |b| <= |t| {
      assert t[off + |a| + |b|..] == if off + |a + b| <= |s| then s[off + |a + b|..] else [];
    }
  }

  // The states a crash may leave.

  /** In-order persistence cuts a write short at any byte. */
  function Torn(d: Disk, f: nat, off: nat, data: seq<byte>): seq<Disk>
    requires f in d
  {
    seq(|data| + 1, k requires 0 <= k <= |data| => d[f := Written(d[f], off, data[..k])])
  }

  /** All states since entry `from` keep what d had below p. */
  ghost predicate LogKeeps(log: seq<Disk>, from: nat, d: Disk, p: Position) {
    forall i :: from <= i < |log| ==> KeepsBelow(d, log[i], p) && Sized(log[i])
  }

  ghost predicate Extends(log: seq<Disk>, older: seq<Disk>) {
    older <= log
  }

  lemma ExtendsTransitive(a: seq<Disk>, b: seq<Disk>, c: seq<Disk>)
    requires Extends(b, a) && Extends(c, b)
    ensures Extends(c, a)
  {
  }

  lemma TornKeeps(log: seq<Disk>, from: nat, d: Disk, p: Position, e: Disk, f: nat, off: nat, data: seq<byte>)
    requires LogKeeps(log, from, d, p) && KeepsBelow(d, e, p) && Sized(e)
    requires f in e && off <= |e[f]| && (p.file < f || (p.file == f && p.off <= off)) && off + |data| < UINT32
    ensures LogKeeps(log + Torn(e, f, off, data), from, d, p)
    ensures var g := e[f := Written(e[f], off, data)]; KeepsBelow(d, g, p) && Sized(g)
  {
    hide KeepsBelow, Written;
    forall k | 0 <= k <= |data|
      ensures var g := e[f := Written(e[f], off, data[..k])]; KeepsBelow(d, g, p) && Sized(g)
    {
      WriteKeepsBelow(e, p, f, off, data[..k]);
      WrittenKeeps(e[f], off, data[..k]);
      KeepsTransitive(d, e, e[f := Written(e[f], off, data[..k])], p);
    }
    assert data[..|data|] == data;
  }

  lemma LogAppend(log: seq<Disk>, from: nat, d: Disk, p: Position, e: Disk, g: Disk)
    requires LogKeeps(log, from, d, p) && KeepsBelow(d, e, p) && KeepsBelow(e, g, p) && Sized(g)
    ensures LogKeeps(log + [g], from, d, p) && KeepsBelow(d, g, p)
  {
    KeepsTransitive(d, e, g, p);
    hide KeepsBelow, Sized;
  }

  /** A later stretch of the log that keeps more also keeps less. */
  lemma LogCompose(log: seq<Disk>, from: nat, mid: nat, d: Disk, p: Position, e: Disk, q: Position)
    requires from <= mid <= |log| && LogKeeps(log[..mid], from, d, p) && KeepsBelow(d, e, p)
    requires LogKeeps(log, mid, e, q) && AtMost(p, q) && Reaches(e, q)
    ensures LogKeeps(log, from, d, p)
  {
    hide KeepsBelow, AtMost, Reaches, Sized;
    forall i | from <= i < |log|
      ensures KeepsBelow(d, log[i], p) && Sized(log[i])
    {
      if i < mid {
        assert log[i] == log[..mid][i];
      } else {
        KeepsEarlier(e, log[i], p, q);
        KeepsTransitive(d, e, log[i], p);
      }
    }
  }

  /** Two stretches of work, the second keeping what was before a later position. */
  lemma LogExtend(log0: seq<Disk>, log1: seq<Disk>, from: nat, d: Disk, p: Position, e: Disk, q: Position, g: Disk)
    requires from <= |log0| && Extends(log1, log0) && LogKeeps(log0, from, d, p) && KeepsBelow(d, e, p)
    requires LogKeeps(log1, |log0|, e, q) && KeepsBelow(e, g, q) && AtMost(p, q) && Reaches(e, q)
    ensures from <= |log1| && LogKeeps(log1, from, d, p) && KeepsBelow(d, g, p)
  {
    assert log1[..|log0|] == log0;
    hide LogKeeps, KeepsBelow, AtMost, Reaches;
    LogCompose(log1, from, |log0|, d, p, e, q);
    KeepsEarlier(e, g, p, q);
    KeepsTransitive(d, e, g, p);
  }

  lemma RecordDone(pre: Disk, f: uint32, orig: uint32, record: seq<byte>)
    requires f in pre && orig <= |pre[f]| && orig + |record| < UINT32 && |record| > 0
    ensures var post := pre[f := Written(pre[f], orig, record)];
            && (Reaches(post, Position(f, orig + |record|)) <==> forall g: nat :: g < f ==> g in pre)
            && Holds(post, Location(f, orig, |record|), record)
  {
    WrittenKeeps(pre[f], orig, record);
    hide Written;
    var post := pre[f := Written(pre[f], orig, record)];
    assert forall g: nat :: g < f ==> (g in post <==> g in pre);
  }

  /** The record of a block: network, length, block, checksum of these. */
  ghost function Framed(network: uint32, raw: seq<byte>): (s: seq<byte>)
    requires |raw| < UINT32
    ensures |s| == |raw| + 8
  {
    PutUint32(network) + PutUint32(|raw|) + raw
  }

  ghost function Record(network: uint32, raw: seq<byte>, crc: Checksum): (s: seq<byte>)
    requires |raw| < UINT32
    ensures |s| == |raw| + 12
  {
    Framed(network, raw) + PutUint32BigEndian(crc(Framed(network, raw)))
  }
}
