/** The database: block files and metadata together, their commits, crashes and restarts. */
module Ffldb {
  import opened Bytes
  import opened BlockRows
  import opened BlockFiles
  import BlockStore
  import DbCache
  import opened Wrappers

  type Key = seq<byte>
  type Meta = map<seq<byte>, seq<byte>>
  type Blocks = map<seq<byte>, seq<byte>>

  /** The row of the write cursor, in the metadata bucket. */
  const WRITE_LOC: Key := [0, 0, 0, 0, 102, 102, 108, 100, 98, 45, 119, 114, 105, 116, 101, 108, 111, 99]
  const BLOCK_INDEX: Key := [0, 0, 0, 1]

  /** The row of a block, in the block index bucket. */
  function BlockKey(hash: seq<byte>): Key {
    BLOCK_INDEX + hash
  }

  lemma BlockKeyInjective(g: seq<byte>, h: seq<byte>)
    ensures BlockKey(g) == BlockKey(h) ==> g == h
    ensures BlockKey(g) != WRITE_LOC && BlockKey(g) != []
  {
    assert BlockKey(g)[3] == 1;
    assert BlockKey(g)[4..] == g && BlockKey(h)[4..] == h;
  }

  /** Keys that only the database itself writes. */
  ghost predicate Reserved(k: Key) {
    k == WRITE_LOC || exists h :: k == BlockKey(h)
  }

  /** What the records depend on. */
  datatype Params = Params(network: uint32, crc: Checksum)

  /** The row leads to the record of the block, which ends before c. */
  ghost predicate RowOf(row: seq<byte>, raw: seq<byte>, d: Disk, c: Position, ps: Params) {
    && |row| == 12 && |raw| + 12 < UINT32
    && var loc := DeserializeBlockLoc(row); Holds(d, loc, Record(ps.network, raw, ps.crc)) && EndsBelow(loc, c)
  }

  /** The index rows of m are those of the blocks. */
  ghost predicate Indexed(m: Meta, d: Disk, c: Position, blocks: Blocks, ps: Params) {
    && (forall h :: h in blocks ==> BlockKey(h) in m && RowOf(m[BlockKey(h)], blocks[h], d, c, ps))
    && (forall h :: BlockKey(h) in m ==> h in blocks)
  }

  /** Metadata m over disk d: the cursor row says c, the files reach it, and every recorded block is there. */
  ghost predicate Recorded(m: Meta, d: Disk, c: Position, blocks: Blocks, ps: Params) {
    && WRITE_LOC in m && m[WRITE_LOC] == SerializeWriteRow(c, ps.crc)
    && Reaches(d, c) && Indexed(m, d, c, blocks, ps)
  }

  lemma RowKept(row: seq<byte>, raw: seq<byte>, d: Disk, e: Disk, c: Position, q: Position, ps: Params)
    requires RowOf(row, raw, d, c, ps) && KeepsBelow(d, e, c) && Reaches(d, c) && AtMost(c, q)
    ensures RowOf(row, raw, e, q, ps)
  {
    hide Holds, EndsBelow, AtMost, Reaches, KeepsBelow, DeserializeBlockLoc;
    var loc := DeserializeBlockLoc(row);
    KeepsHolds(d, e, c, loc, Record(ps.network, raw, ps.crc));
    EndsEarlier(loc, c, q);
  }

  lemma IndexKept(m: Meta, d: Disk, e: Disk, c: Position, q: Position, blocks: Blocks, ps: Params)
    requires Indexed(m, d, c, blocks, ps) && KeepsBelow(d, e, c) && Reaches(d, c) && AtMost(c, q)
    ensures Indexed(m, e, q, blocks, ps)
  {
    hide RowOf, KeepsBelow, Reaches, AtMost, BlockKey;
    forall h | h in blocks
      ensures RowOf(m[BlockKey(h)], blocks[h], e, q, ps)
    {
      RowKept(m[BlockKey(h)], blocks[h], d, e, c, q, ps);
    }
  }

  /** Whatever keeps what was before the cursor w keeps a record made at or before w. */
  lemma RecordedKept(m: Meta, d: Disk, e: Disk, c: Position, w: Position, blocks: Blocks, ps: Params)
    requires Recorded(m, d, c, blocks, ps) && KeepsBelow(d, e, w) && Reaches(d, w) && AtMost(c, w)
    ensures Recorded(m, e, c, blocks, ps)
  {
    hide KeepsBelow, Reaches, Indexed, SerializeWriteRow;
    KeepsEarlier(d, e, c, w);
    KeepsReaches(d, e, c);
    IndexKept(m, d, e, c, c, blocks, ps);
  }

  lemma IndexPut(m: Meta, d: Disk, c: Position, blocks: Blocks, h: seq<byte>, raw: seq<byte>, row: seq<byte>, ps: Params)
    requires Indexed(m, d, c, blocks, ps) && RowOf(row, raw, d, c, ps)
    ensures Indexed(m[BlockKey(h) := row], d, c, blocks[h := raw], ps)
  {
    hide RowOf, BlockKey;
    var m1, blocks1 := m[BlockKey(h) := row], blocks[h := raw];
    forall g | g in blocks1
      ensures BlockKey(g) in m1 && RowOf(m1[BlockKey(g)], blocks1[g], d, c, ps)
    {
      BlockKeyInjective(g, h);
    }
    forall g | BlockKey(g) in m1
      ensures g in blocks1
    {
      BlockKeyInjective(g, h);
    }
  }

  lemma CursorPut(m: Meta, d: Disk, c: Position, blocks: Blocks, ps: Params, row: seq<byte>)
    requires Indexed(m, d, c, blocks, ps)
    ensures Indexed(m[WRITE_LOC := row], d, c, blocks, ps)
  {
    hide RowOf;
    forall g
      ensures BlockKey(g) != WRITE_LOC
    {
      BlockKeyInjective(g, g);
    }
    hide BlockKey;
  }

  lemma IndexApply(m: Meta, keys: Meta, removed: set<Key>, d: Disk, w: Position, blocks: Blocks, added: Blocks, ps: Params)
    requires Indexed(m, d, w, blocks, ps) && Indexed(keys, d, w, added, ps)
    requires forall k :: k in removed ==> !Reserved(k)
    ensures Indexed(DbCache.Apply(m, keys, removed), d, w, blocks + added, ps)
  {
    hide DbCache.Apply, RowOf, BlockKey;
    var r := DbCache.Apply(m, keys, removed);
    forall h
      ensures BlockKey(h) in r <==> BlockKey(h) in keys || BlockKey(h) in m
      ensures BlockKey(h) in keys ==> r[BlockKey(h)] == keys[BlockKey(h)]
      ensures BlockKey(h) in m && BlockKey(h) !in keys ==> r[BlockKey(h)] == m[BlockKey(h)]
    {
      assert Reserved(BlockKey(h));
      ApplyAt(m, keys, removed, BlockKey(h));
    }
  }

  lemma ApplyAt(m: Meta, keys: Meta, removed: set<Key>, k: Key)
    requires k !in removed
    ensures var r := DbCache.Apply(m, keys, removed);
            && (k in r <==> k in keys || k in m)
            && (k in keys ==> r[k] == keys[k])
            && (k in m && k !in keys ==> r[k] == m[k])
  {
  }

  /** Committing the rows of new blocks and the new cursor records them beside the old ones. */
  lemma RecordedApply(m: Meta, keys: Meta, removed: set<Key>, d: Disk, c: Position, blocks: Blocks,
                      w: Position, added: Blocks, ps: Params)
    requires Recorded(m, d, c, blocks, ps) && Indexed(keys, d, w, added, ps) && AtMost(c, w) && Reaches(d, w)
    requires WRITE_LOC in keys && keys[WRITE_LOC] == SerializeWriteRow(w, ps.crc)
    requires forall k :: k in removed ==> !Reserved(k)
    ensures Recorded(DbCache.Apply(m, keys, removed), d, w, blocks + added, ps)
  {
    hide Indexed, Reaches, AtMost, KeepsBelow, SerializeWriteRow, Reserved;
    KeepsReflexive(d, c);
    IndexKept(m, d, d, c, w, blocks, ps);
    IndexApply(m, keys, removed, d, w, blocks, added, ps);
  }

  /** A persistent state, with the cursor and blocks it records. */
  datatype Moment = Moment(disk: Disk, ldb: Meta, cursor: Position, blocks: Blocks)

  ghost predicate Safe(m: Moment, ps: Params) {
    Recorded(m.ldb, m.disk, m.cursor, m.blocks, ps) && Sized(m.disk)
  }

  ghost predicate AllSafe(trace: seq<Moment>, ps: Params) {
    forall i :: 0 <= i < |trace| ==> Safe(trace[i], ps)
  }

  /** The states of the disk since `from` under unchanged metadata. */
  function Moments(log: seq<Disk>, from: nat, ldb: Meta, c: Position, blocks: Blocks): seq<Moment>
    requires from <= |log|
  {
    seq(|log| - from, i requires 0 <= i < |log| - from => Moment(log[from + i], ldb, c, blocks))
  }

  lemma MomentsSafe(trace: seq<Moment>, log: seq<Disk>, from: nat, d: Disk, w: Position, ldb: Meta, c: Position,
                    blocks: Blocks, ps: Params)
    requires from <= |log| && AllSafe(trace, ps) && LogKeeps(log, from, d, w)
    requires Recorded(ldb, d, c, blocks, ps) && Reaches(d, w) && AtMost(c, w)
    ensures AllSafe(trace + Moments(log, from, ldb, c, blocks), ps)
  {
    hide Recorded, KeepsBelow, Reaches, AtMost, Sized;
    forall i | 0 <= i < |log| - from
      ensures Safe(Moments(log, from, ldb, c, blocks)[i], ps)
    {
      RecordedKept(ldb, d, log[from + i], c, w, blocks, ps);
    }
  }

  /** A scan of the disk is never behind a cursor that the disk reaches. */
  lemma ScanReaches(disk: Disk, c: Position, p: Position)
    requires Reaches(disk, c) && BlockStore.IsScan(disk, p)
    ensures AtMost(c, p)
  {
  }

  /** A block waiting to be stored by a transaction. */
  datatype PendingBlock = PendingBlock(hash: seq<byte>, raw: seq<byte>)

  function BlocksOf(pending: seq<PendingBlock>): Blocks {
    if pending == [] then map[]
    else BlocksOf(pending[..|pending| - 1])[pending[|pending| - 1].hash := pending[|pending| - 1].raw]
  }

  ghost predicate Within(a: Blocks, b: Blocks) {
    forall h :: h in a ==> h in b && b[h] == a[h]
  }

  class Database {
    const ps: Params
    const store: BlockStore.Store
    const cache: DbCache.Cache
    // Bookkeeping of the model: what leveldb and what the cache's view record, and every persistent
    // state there has been.
    var durable: Position
    var durableBlocks: Blocks
    var visible: Position
    var visibleBlocks: Blocks
    var trace: seq<Moment>

    /** Both what is durable and what is visible are recorded over the files, up to the cursor at most;
    every state a crash may have left so far is safe. */
    ghost predicate Valid()
      reads this, store, cache
    {
      && store.Valid() && cache.Valid() && store.network == ps.network && store.crc == ps.crc
      && Recorded(cache.ldb, store.files, durable, durableBlocks, ps) && AtMost(durable, store.Cursor())
      && Recorded(cache.Contents(), store.files, visible, visibleBlocks, ps) && AtMost(visible, store.Cursor())
      && Within(durableBlocks, visibleBlocks)
      && AllSafe(trace, ps) && |trace| > 0
      && trace[|trace| - 1] == Moment(store.files, cache.ldb, durable, durableBlocks)
    }

    constructor (params: Params, s: BlockStore.Store, k: DbCache.Cache, c: Position, blocks: Blocks, moments: seq<Moment>)
      ensures ps == params && store == s && cache == k && trace == moments
      ensures durable == visible == c && durableBlocks == visibleBlocks == blocks
    {
      ps, store, cache := params, s, k;
      durable, visible, durableBlocks, visibleBlocks, trace := c, c, blocks, blocks, moments;
    }

    /** Writes the pending blocks and collects their rows; on failure the writes are rolled back. */
    method WriteBlocks(pending: seq<PendingBlock>, userKeys: Meta) returns (ok: bool, keys: Meta)
      requires store.Valid() && store.network == ps.network && store.crc == ps.crc
      requires forall i :: 0 <= i < |pending| ==> |pending[i].raw| + 12 < UINT32
      requires pending != [] ==> store.Continues(pending[0].raw)
      requires store.curFileNum + |pending| < UINT32
      requires forall k :: k in userKeys ==> !Reserved(k)
      modifies store
      ensures store.Valid() && AtMost(old(store.Cursor()), store.Cursor())
      ensures store.curFileNum <= old(store.curFileNum) + |pending|
      ensures Extends(store.log, old(store.log)) && store.Kept(|old(store.log)|, old(store.files), old(store.Cursor()))
      ensures ok ==> Indexed(keys, store.files, store.Cursor(), BlocksOf(pending), ps)
      ensures !ok ==> store.faulty && store.Cursor() == old(store.Cursor())
      ensures forall k :: k in keys ==> k in userKeys || Reserved(k)
    {
      hide *;
      ghost var from, d := |store.log|, store.files;
      var w := store.Cursor();
      assert w.file == store.curFileNum by { AtCursor(); }
      keys := userKeys;
      Begin(userKeys);
      assert pending[..0] == [];
      for i := 0 to |pending|
        invariant store.Valid() && store.Kept(from, d, w) && AtMost(w, store.Cursor()) && Extends(store.log, old(store.log))
        invariant store.curFileNum <= old(store.curFileNum) + i
        invariant if i > 0 then store.curFileNum in store.files else pending != [] ==> store.Continues(pending[0].raw)
        invariant Indexed(keys, store.files, store.Cursor(), BlocksOf(pending[..i]), ps)
        invariant forall k :: k in keys ==> k in userKeys || Reserved(k)
      {
        ghost var log1, d1, w1 := store.log, store.files, store.Cursor();
        ghost var keys1 := keys;
        Going(pending, i);
        Parts(from, d, w);
        var loc := store.WriteBlock(pending[i].raw);
        Composed(log1, from, d, w, d1, w1);
        ExtendsTransitive(old(store.log), log1, store.log);
        ghost var log2 := store.log;
        if loc.None? {
          RollBack(from, d, w);
          ExtendsTransitive(old(store.log), log2, store.log);
          return false, keys;
        }
        keys := keys[BlockKey(pending[i].hash) := SerializeBlockLoc(loc.value)];
        ReservedKey(pending[i].hash);
        Added(keys1, pending, i, d1, w1, loc.value);
        if store.faulty {
          if * {
            RollBack(from, d, w);
            ExtendsTransitive(old(store.log), log2, store.log);
            return false, keys;
          }
        }
      }
      assert pending[..|pending|] == pending;
      ok := true;
    }

    lemma AtCursor()
      ensures store.Cursor().file == store.curFileNum
    {
    }

    lemma Begin(userKeys: Meta)
      requires store.Valid() && forall k :: k in userKeys ==> !Reserved(k)
      ensures store.Kept(|store.log|, store.files, store.Cursor()) && AtMost(store.Cursor(), store.Cursor())
      ensures Extends(store.log, store.log) && Reaches(store.files, store.Cursor())
      ensures Indexed(userKeys, store.files, store.Cursor(), BlocksOf([]), ps)
    {
      KeepsReflexive(store.files, store.Cursor());
      hide BlockKey;
    }

    lemma Going(pending: seq<PendingBlock>, i: nat)
      requires i < |pending| && |pending[i].raw| + 12 < UINT32
      requires if i > 0 then store.curFileNum in store.files else store.Continues(pending[0].raw)
      ensures store.Continues(pending[i].raw) && |pending[i].raw| + BlockStore.EXTRA_BYTES < UINT32
    {
    }

    lemma Parts(from: nat, d: Disk, w: Position)
      requires store.Kept(from, d, w) && store.Valid()
      ensures from <= |store.log| && LogKeeps(store.log, from, d, w) && KeepsBelow(d, store.files, w)
      ensures Reaches(store.files, store.Cursor())
    {
    }

    lemma Composed(log1: seq<Disk>, from: nat, d: Disk, w: Position, d1: Disk, w1: Position)
      requires from <= |log1| && LogKeeps(log1, from, d, w) && KeepsBelow(d, d1, w) && AtMost(w, w1) && Reaches(d1, w1)
      requires Extends(store.log, log1) && store.Kept(|log1|, d1, w1) && AtMost(w1, store.Cursor())
      ensures store.Kept(from, d, w) && AtMost(w, store.Cursor()) && KeepsBelow(d1, store.files, w1)
    {
      LogExtend(log1, store.log, from, d, w, d1, w1, store.files);
      AtMostTransitive(w, w1, store.Cursor());
    }

    lemma ReservedKey(h: seq<byte>)
      ensures Reserved(BlockKey(h))
    {
    }

    lemma Added(keys1: Meta, pending: seq<PendingBlock>, i: nat, d1: Disk, w1: Position, loc: Location)
      requires i < |pending| && |pending[i].raw| + 12 < UINT32 && store.network == ps.network && store.crc == ps.crc
      requires Indexed(keys1, d1, w1, BlocksOf(pending[..i]), ps)
      requires KeepsBelow(d1, store.files, w1) && Reaches(d1, w1) && AtMost(w1, store.Cursor())
      requires Holds(store.files, loc, Record(store.network, pending[i].raw, store.crc)) && EndsBelow(loc, store.Cursor())
      ensures Indexed(keys1[BlockKey(pending[i].hash) := SerializeBlockLoc(loc)], store.files, store.Cursor(),
                      BlocksOf(pending[..i + 1]), ps)
    {
      IndexKept(keys1, d1, store.files, w1, store.Cursor(), BlocksOf(pending[..i]), ps);
      BlockLocRoundTrip(loc);
      IndexPut(keys1, store.files, store.Cursor(), BlocksOf(pending[..i]), pending[i].hash, pending[i].raw,
               SerializeBlockLoc(loc), ps);
      assert pending[..i + 1][..i] == pending[..i];
      hide Indexed, SerializeBlockLoc;
    }

    method RollBack(ghost from: nat, ghost d: Disk, w: Position)
      requires store.Consistent() && store.Kept(from, d, w) && AtMost(w, store.Cursor()) && Reaches(d, w)
      modifies store
      ensures store.Valid() && store.Cursor() == w && store.curFileNum == w.file && store.Kept(from, d, w)
      ensures Extends(store.log, old(store.log))
    {
      ghost var log1, d1 := store.log, store.files;
      KeepsReaches(d, d1, w);
      store.HandleRollback(w);
      LogExtend(log1, store.log, from, d, w, d1, w, store.files);
    }

    /** The new states all hold the blocks that were durable, up to a file number. */
    static ghost predicate Later(trace: seq<Moment>, from: nat, blocks: Blocks, maxFile: int) {
      from < |trace| && forall i :: from <= i < |trace| ==> Within(blocks, trace[i].blocks) && trace[i].cursor.file <= maxFile
    }

    /** After block writes that kept everything below the cursor w, all is recorded as before. */
    lemma StillRecorded(from: nat, d: Disk, w: Position)
      requires store.Valid() && store.Kept(from, d, w) && Reaches(d, w)
      requires Recorded(cache.ldb, d, durable, durableBlocks, ps) && AtMost(durable, w)
      requires Recorded(cache.Contents(), d, visible, visibleBlocks, ps) && AtMost(visible, w) && AtMost(w, store.Cursor())
      requires AllSafe(trace, ps)
      ensures Recorded(cache.ldb, store.files, durable, durableBlocks, ps) && AtMost(durable, store.Cursor())
      ensures Recorded(cache.Contents(), store.files, visible, visibleBlocks, ps) && AtMost(visible, store.Cursor())
      ensures from <= |store.log|
      ensures AllSafe(trace + Moments(store.log, from, cache.ldb, durable, durableBlocks)
                      + [Moment(store.files, cache.ldb, durable, durableBlocks)], ps)
    {
      Parts(from, d, w);
      assert Sized(store.files);
      hide Recorded, AtMost, Reaches, KeepsBelow, LogKeeps, Moments, Sized;
      RecordedKept(cache.ldb, d, store.files, durable, w, durableBlocks, ps);
      RecordedKept(cache.Contents(), d, store.files, visible, w, visibleBlocks, ps);
      AtMostTransitive(durable, w, store.Cursor());
      AtMostTransitive(visible, w, store.Cursor());
      MomentsSafe(trace, store.log, from, d, w, cache.ldb, durable, durableBlocks, ps);
    }

    lemma LaterMoments(log: seq<Disk>, from: nat, maxFile: int)
      requires from <= |log| && durable.file <= maxFile
      ensures Later(trace + Moments(log, from, cache.ldb, durable, durableBlocks)
                    + [Moment(store.files, cache.ldb, durable, durableBlocks)], |trace|, durableBlocks, maxFile)
    {
    }

    lemma ValidParts()
      requires Valid()
      ensures store.Valid() && cache.Valid() && store.network == ps.network && store.crc == ps.crc
      ensures Recorded(cache.ldb, store.files, durable, durableBlocks, ps) && AtMost(durable, store.Cursor())
      ensures Recorded(cache.Contents(), store.files, visible, visibleBlocks, ps) && AtMost(visible, store.Cursor())
      ensures Within(durableBlocks, visibleBlocks) && AllSafe(trace, ps) && Reaches(store.files, store.Cursor())
      ensures durable.file <= store.curFileNum && visible.file <= store.curFileNum && Sized(store.files)
    {
      hide Recorded;
    }

    lemma MakeValid()
      requires store.Valid() && cache.Valid() && store.network == ps.network && store.crc == ps.crc
      requires Recorded(cache.ldb, store.files, durable, durableBlocks, ps) && AtMost(durable, store.Cursor())
      requires Recorded(cache.Contents(), store.files, visible, visibleBlocks, ps) && AtMost(visible, store.Cursor())
      requires Within(durableBlocks, visibleBlocks) && AllSafe(trace, ps)
      requires |trace| > 0 && trace[|trace| - 1] == Moment(store.files, cache.ldb, durable, durableBlocks)
      ensures Valid()
    {
      hide Recorded;
    }

    /** The rows go to the cache, or with a flush to leveldb. */
    method CommitRows(keys: Meta, removed: set<Key>, needsFlush: bool, added: Blocks) returns (ok: bool)
      requires Valid() && keys.Keys !! removed && forall k :: k in removed ==> !Reserved(k)
      requires Indexed(keys, store.files, store.Cursor(), added, ps)
      requires WRITE_LOC in keys && keys[WRITE_LOC] == SerializeWriteRow(store.Cursor(), ps.crc)
      requires forall h :: h in added ==> h !in visibleBlocks
      modifies this, cache
      ensures Valid()
      ensures visibleBlocks == if ok then old(visibleBlocks) + added else old(visibleBlocks)
      ensures !ok ==> cache.faulty && needsFlush
      ensures ok && needsFlush ==> durableBlocks == visibleBlocks
      ensures Within(old(durableBlocks), durableBlocks)
      ensures old(trace) <= trace && Later(trace, |old(trace)|, old(durableBlocks), store.curFileNum)
    {
      hide *;
      ValidParts();
      AtSelf();
      var ldb0, view0 := cache.ldb, cache.Contents();
      RecordedApply(view0, keys, removed, store.files, visible, visibleBlocks, store.Cursor(), added, ps);
      MoreBlocks(durableBlocks, visibleBlocks, added);
      var flushed := Moment(store.files, view0, visible, visibleBlocks);
      SafeIntro(flushed);
      ok := cache.CommitTx(keys, removed, needsFlush);
      var now := if ok && needsFlush then Moment(store.files, cache.ldb, store.Cursor(), visibleBlocks + added)
                 else if cache.ldb == ldb0 then Moment(store.files, cache.ldb, durable, durableBlocks)
                 else Moment(store.files, cache.ldb, visible, visibleBlocks);
      Outcome(ok, needsFlush, ldb0, view0, added, now);
      LaterTwo(flushed, now, durableBlocks, trace, store.curFileNum);
      if ok {
        visible, visibleBlocks := store.Cursor(), visibleBlocks + added;
      }
      durable, durableBlocks := now.cursor, now.blocks;
      trace := trace + [flushed, now];
      MakeValid();
    }

    /** What leveldb records after a commit: what it did, what was visible, or what is visible now. */
    lemma Outcome(ok: bool, needsFlush: bool, ldb0: Meta, view0: Meta, added: Blocks, now: Moment)
      requires Recorded(ldb0, store.files, durable, durableBlocks, ps) && AtMost(durable, store.Cursor())
      requires Recorded(view0, store.files, visible, visibleBlocks, ps) && AtMost(visible, store.Cursor())
      requires ok ==> Recorded(cache.Contents(), store.files, store.Cursor(), visibleBlocks + added, ps)
      requires Sized(store.files) && Within(durableBlocks, visibleBlocks) && forall h :: h in added ==> h !in visibleBlocks
      requires cache.ldb == ldb0 || cache.ldb == view0 || (ok && cache.ldb == cache.Contents())
      requires (ok && !needsFlush ==> cache.ldb == ldb0) && (ok && needsFlush ==> cache.ldb == cache.Contents())
      requires now == if ok && needsFlush then Moment(store.files, cache.ldb, store.Cursor(), visibleBlocks + added)
                      else if cache.ldb == ldb0 then Moment(store.files, cache.ldb, durable, durableBlocks)
                      else Moment(store.files, cache.ldb, visible, visibleBlocks)
      ensures AtMost(now.cursor, store.Cursor())
      ensures Safe(now, ps) && Recorded(now.ldb, now.disk, now.cursor, now.blocks, ps)
      ensures Within(durableBlocks, now.blocks) && now.cursor.file <= store.curFileNum
      ensures Within(now.blocks, if ok then visibleBlocks + added else visibleBlocks)
      ensures ok && needsFlush ==> now.blocks == visibleBlocks + added
    {
      MoreBlocks(durableBlocks, visibleBlocks, added);
      hide Recorded, Within, Sized;
    }

    lemma SafeIntro(m: Moment)
      requires Recorded(m.ldb, m.disk, m.cursor, m.blocks, ps) && Sized(m.disk)
      ensures Safe(m, ps)
    {
    }

    lemma AtSelf()
      ensures AtMost(store.Cursor(), store.Cursor()) && store.Cursor().file == store.curFileNum
    {
    }

    lemma MoreBlocks(a: Blocks, b: Blocks, added: Blocks)
      requires Within(a, b) && forall h :: h in added ==> h !in b
      ensures Within(a, b + added) && Within(b, b + added)
      ensures Within(a, a) && Within(b, b) && Within(b + added, b + added)
    {
    }

    lemma LaterTwo(a: Moment, b: Moment, blocks: Blocks, was: seq<Moment>, maxFile: int)
      requires Within(blocks, a.blocks) && Within(blocks, b.blocks) && a.cursor.file <= maxFile && b.cursor.file <= maxFile
      requires AllSafe(was, ps) && Safe(a, ps) && Safe(b, ps)
      ensures Later(was + [a, b], |was|, blocks, maxFile) && AllSafe(was + [a, b], ps)
    {
      hide Safe, Within;
    }

    lemma LaterJoin(a: seq<Moment>, b: seq<Moment>, from: nat, blocks: Blocks, max1: int, max2: int)
      requires Later(a, from, blocks, max1) && a <= b && Later(b, |a|, blocks, max2) && max2 <= max1
      ensures Later(b, from, blocks, max1)
    {
      forall i | from <= i < |b|
        ensures Within(blocks, b[i].blocks) && b[i].cursor.file <= max1
      {
        if i < |a| {
          assert b[i] == a[i];
        }
      }
    }

    lemma KeysDisjoint(keys: Meta, userKeys: Meta, userRemove: set<Key>)
      requires userKeys.Keys !! userRemove && forall k :: k in userKeys || k in userRemove ==> !Reserved(k)
      requires forall k :: k in keys ==> k in userKeys || Reserved(k)
      ensures keys.Keys !! userRemove && WRITE_LOC !in userRemove
    {
      hide BlockKey;
    }

    /** writePendingAndCommit.  The blocks and their rows become visible together or not at all; what was
    durable stays so at every moment. */
    method Commit(pending: seq<PendingBlock>, userKeys: Meta, userRemove: set<Key>, needsFlush: bool) returns (ok: bool)
      requires Valid()
      requires forall i :: 0 <= i < |pending| ==> |pending[i].raw| + 12 < UINT32 && pending[i].hash !in visibleBlocks
      requires pending != [] ==> store.Continues(pending[0].raw)
      requires store.curFileNum + |pending| < UINT32
      requires userKeys.Keys !! userRemove && forall k :: k in userKeys || k in userRemove ==> !Reserved(k)
      modifies this, store, cache
      ensures Valid()
      ensures visibleBlocks == if ok then old(visibleBlocks) + BlocksOf(pending) else old(visibleBlocks)
      ensures !ok ==> store.faulty || (cache.faulty && needsFlush)
      ensures ok && needsFlush ==> durableBlocks == visibleBlocks
      ensures Within(old(durableBlocks), durableBlocks)
      ensures old(trace) <= trace && Later(trace, |old(trace)|, old(durableBlocks), old(store.curFileNum) + |pending|)
      ensures store.curFileNum <= old(store.curFileNum) + |pending|
    {
      hide *;
      var from, w := |store.log|, store.Cursor();
      ghost var d := store.files;
      ValidParts();
      var keys;
      ok, keys := WriteBlocks(pending, userKeys);
      StillRecorded(from, d, w);
      LaterMoments(store.log, from, old(store.curFileNum) + |pending|);
      trace := trace + Moments(store.log, from, cache.ldb, durable, durableBlocks) + [Moment(store.files, cache.ldb, durable, durableBlocks)];
      MakeValid();
      if !ok {
        return;
      }
      KeysDisjoint(keys, userKeys, userRemove);
      NewBlocks(pending, visibleBlocks);
      CursorPut(keys, store.files, store.Cursor(), BlocksOf(pending), ps, SerializeWriteRow(store.Cursor(), ps.crc));
      keys := keys[WRITE_LOC := SerializeWriteRow(store.Cursor(), ps.crc)];
      ghost var mid := trace;
      ok := CommitRows(keys, userRemove, needsFlush, BlocksOf(pending));
      LaterJoin(mid, trace, |old(trace)|, old(durableBlocks), old(store.curFileNum) + |pending|, store.curFileNum);
    }

    /** A repaired database records what was durable, and so did every state of the repair. */
    lemma Reopened(disk: Disk)
      requires store.Valid() && cache.Valid() && store.network == ps.network && store.crc == ps.crc
      requires store.Cursor() == durable == visible && durableBlocks == visibleBlocks && cache.Contents() == cache.ldb
      requires Recorded(cache.ldb, disk, durable, durableBlocks, ps) && Sized(disk)
      requires Extends(store.log, [disk]) && store.Kept(1, disk, durable)
      requires trace == Moments(store.log, 0, cache.ldb, durable, durableBlocks)
                        + [Moment(store.files, cache.ldb, durable, durableBlocks)]
      ensures Valid() && Later(trace, 0, durableBlocks, durable.file)
    {
      hide *;
      WholeLog(disk);
      RepairParts(disk);
      MomentsSafe([], store.log, 0, disk, durable, cache.ldb, durable, durableBlocks, ps);
      RecordedKept(cache.ldb, disk, store.files, durable, durable, durableBlocks, ps);
      var now := Moment(store.files, cache.ldb, durable, durableBlocks);
      SafeIntro(now);
      assert [] + Moments(store.log, 0, cache.ldb, durable, durableBlocks)
             == Moments(store.log, 0, cache.ldb, durable, durableBlocks);
      AppendSafe(Moments(store.log, 0, cache.ldb, durable, durableBlocks), now);
      MakeValid();
    }

    lemma WholeLog(disk: Disk)
      requires Extends(store.log, [disk]) && store.Kept(1, disk, durable) && Sized(disk)
      ensures LogKeeps(store.log, 0, disk, durable) && KeepsBelow(disk, store.files, durable)
    {
      hide Sized;
      KeepsReflexive(disk, durable);
    }

    lemma RepairParts(disk: Disk)
      requires store.Valid() && Recorded(cache.ldb, disk, durable, durableBlocks, ps)
      requires trace == Moments(store.log, 0, cache.ldb, durable, durableBlocks)
                        + [Moment(store.files, cache.ldb, durable, durableBlocks)]
      ensures Sized(store.files) && Reaches(disk, durable) && AtMost(durable, durable)
      ensures Within(durableBlocks, durableBlocks) && Later(trace, 0, durableBlocks, durable.file)
      ensures AllSafe([], ps)
    {
      hide Indexed, Safe;
    }

    lemma AppendSafe(was: seq<Moment>, now: Moment)
      requires AllSafe(was, ps) && Safe(now, ps)
      ensures AllSafe(was + [now], ps)
    {
      hide Safe;
    }

    /** StoreBlock for each block: those already stored or pending are rejected. */
    method StoreBlocks(blocks: seq<PendingBlock>) returns (pending: seq<PendingBlock>)
      requires Valid()
      ensures |pending| <= |blocks| && forall i :: 0 <= i < |pending| ==> pending[i] in blocks
      ensures forall i :: 0 <= i < |pending| ==> pending[i].hash !in visibleBlocks
      ensures forall i, j :: 0 <= i < j < |pending| ==> pending[i].hash != pending[j].hash
      ensures forall b :: b in blocks ==> b.hash in visibleBlocks || exists p :: p in pending && p.hash == b.hash
    {
      hide *;
      ValidParts();
      pending := [];
      var hashes: set<seq<byte>> := {};
      for i := 0 to |blocks|
        invariant |pending| <= i && hashes == set p | p in pending :: p.hash
        invariant forall j :: 0 <= j < |pending| ==> pending[j] in blocks && pending[j].hash !in visibleBlocks
        invariant forall j, k :: 0 <= j < k < |pending| ==> pending[j].hash != pending[k].hash
        invariant forall j :: 0 <= j < i ==> blocks[j].hash in visibleBlocks || blocks[j].hash in hashes
      {
        var b := blocks[i];
        Lookup(b.hash);
        if b.hash !in hashes && BlockKey(b.hash) !in cache.Contents() {
          pending := pending + [b];
          hashes := hashes + {b.hash};
        }
      }
    }

    /** Close and the periodic flush. */
    method FlushCache() returns (ok: bool)
      requires Valid()
      modifies this, cache
      ensures Valid() && visibleBlocks == old(visibleBlocks)
      ensures !ok ==> cache.faulty
      ensures ok ==> durableBlocks == visibleBlocks
      ensures Within(old(durableBlocks), durableBlocks)
      ensures old(trace) <= trace && Later(trace, |old(trace)|, old(durableBlocks), store.curFileNum)
    {
      hide *;
      ValidParts();
      MoreBlocks(durableBlocks, visibleBlocks, map[]);
      ok := cache.Flush();
      if ok {
        durable, durableBlocks := visible, visibleBlocks;
      }
      var now := Moment(store.files, cache.ldb, durable, durableBlocks);
      SafeIntro(now);
      LaterTwo(now, now, old(durableBlocks), trace, store.curFileNum);
      trace := trace + [now, now];
      MakeValid();
    }

    /** FetchBlock: every visible block reads back exactly; others are not found. */
    method FetchBlock(hash: seq<byte>) returns (r: Option<BlockStore.ReadResult>)
      requires Valid()
      ensures hash in visibleBlocks ==> r == Some(BlockStore.Block(visibleBlocks[hash]))
      ensures hash !in visibleBlocks ==> r == None
    {
      hide *;
      ValidParts();
      var view := cache.Contents();
      Lookup(hash);
      if BlockKey(hash) !in view {
        return None;
      }
      var loc := DeserializeBlockLoc(view[BlockKey(hash)]);
      var block := store.ReadBlock(loc, visibleBlocks[hash]);
      return Some(block);
    }

    lemma Lookup(hash: seq<byte>)
      requires Recorded(cache.Contents(), store.files, visible, visibleBlocks, ps)
      requires store.network == ps.network && store.crc == ps.crc
      ensures BlockKey(hash) in cache.Contents() <==> hash in visibleBlocks
      ensures hash in visibleBlocks ==>
                var row := cache.Contents()[BlockKey(hash)];
                |row| == 12 && |visibleBlocks[hash]| < UINT32
                && Holds(store.files, DeserializeBlockLoc(row), Record(store.network, visibleBlocks[hash], store.crc))
                && DeserializeBlockLoc(row).blockLen >= BlockStore.EXTRA_BYTES
    {
      hide BlockKey, DeserializeBlockLoc, SerializeWriteRow, Record;
    }
  }

  lemma {:induction false} NewBlocks(pending: seq<PendingBlock>, blocks: Blocks)
    requires forall i :: 0 <= i < |pending| ==> pending[i].hash !in blocks
    ensures forall h :: h in BlocksOf(pending) ==> h !in blocks
  {
    if pending != [] {
      NewBlocks(pending[..|pending| - 1], blocks);
    }
  }

  // Restart.

  datatype OpenResult = Opened(db: Database) | NoCursor | BadRow | CorruptFiles

  /** The cursor found by scanning the files is repaired to the recorded one, or found behind it. */
  method Repair(store: BlockStore.Store, cur: Position) returns (behind: bool)
    requires store.Consistent()
    modifies store
    ensures behind <==> !old(AtMost(cur, store.Cursor()))
    ensures !behind ==> store.Consistent() && store.Cursor() == cur
    ensures !behind ==> Extends(store.log, old(store.log)) && store.Kept(|old(store.log)|, old(store.files), cur)
    ensures !behind && old(Reaches(store.files, cur)) ==> store.Valid()
  {
    hide KeepsBelow;
    KeepsReflexive(store.files, cur);
    if store.curFileNum > cur.file || (store.curFileNum == cur.file && store.curOffset > cur.off) {
      store.HandleRollback(cur);
    }
    behind := store.curFileNum < cur.file || (store.curFileNum == cur.file && store.curOffset < cur.off);
  }

  /** A file before the position is missing. */
  ghost predicate Gap(disk: Disk, p: Position) {
    exists f: nat :: f < p.file && f !in disk
  }

  lemma GapStopsScan(disk: Disk, p: Position, scan: Position)
    requires Gap(disk, p) && BlockStore.IsScan(disk, scan)
    ensures !AtMost(p, scan)
  {
  }

  /** reconcileDB: opens the database on what a shutdown or a crash has left.  On a safe state neither
  corruption branch is taken, the cursor is the recorded one and exactly the recorded blocks are there. */
  method Reconcile(ps: Params, maxSize: uint32, disk: Disk, ldb: Meta, c: Position, blocks: Blocks)
    returns (r: OpenResult)
    requires Sized(disk) && (WRITE_LOC in ldb ==> |ldb[WRITE_LOC]| >= 12)
    ensures r == NoCursor <==> WRITE_LOC !in ldb
    ensures r == BadRow <==> WRITE_LOC in ldb && DeserializeWriteRow(ldb[WRITE_LOC], ps.crc) == None
    ensures WRITE_LOC in ldb ==>
              var row := DeserializeWriteRow(ldb[WRITE_LOC], ps.crc); row.Some? && Gap(disk, row.value) ==> r == CorruptFiles
    ensures Recorded(ldb, disk, c, blocks, ps) ==>
              && r.Opened? && fresh(r.db) && fresh(r.db.store) && fresh(r.db.cache) && r.db.Valid()
              && r.db.ps == ps && r.db.store.maxBlockFileSize == maxSize && r.db.store.Cursor() == c
              && r.db.durableBlocks == r.db.visibleBlocks == blocks && Database.Later(r.db.trace, 0, blocks, c.file)
  {
    hide *;
    var faults := *;
    var store := new BlockStore.Store(ps.network, maxSize, ps.crc, disk, faults);
    var cache := new DbCache.Cache(ldb, faults);
    if Recorded(ldb, disk, c, blocks, ps) {
      CursorRow(ldb, disk, c, blocks, ps);
      ScanReaches(disk, c, store.Cursor());
    }
    if WRITE_LOC !in ldb {
      return NoCursor;
    }
    var row := DeserializeWriteRow(ldb[WRITE_LOC], ps.crc);
    if row.None? {
      return BadRow;
    }
    if Gap(disk, row.value) {
      GapStopsScan(disk, row.value, store.Cursor());
    }
    var behind := Repair(store, row.value);
    if behind {
      return CorruptFiles;
    }
    var moments := Moments(store.log, 0, ldb, c, blocks) + [Moment(store.files, ldb, c, blocks)];
    var db := new Database(ps, store, cache, c, blocks, moments);
    if Recorded(ldb, disk, c, blocks, ps) {
      db.Reopened(disk);
    }
    return Opened(db);
  }

  lemma CursorRow(ldb: Meta, disk: Disk, c: Position, blocks: Blocks, ps: Params)
    requires Recorded(ldb, disk, c, blocks, ps)
    ensures WRITE_LOC in ldb && |ldb[WRITE_LOC]| >= 12 && DeserializeWriteRow(ldb[WRITE_LOC], ps.crc) == Some(c)
    ensures Reaches(disk, c)
  {
    WriteRowRoundTrip(c, ps.crc);
    hide Indexed;
  }

  // Whole runs.

  /** What initDB writes: the cursor at the start, and the two entries of the bucket index. */
  function InitialMeta(crc: Checksum): Meta {
    map[WRITE_LOC := SerializeWriteRow(Position(0, 0), crc), BLOCK_BUCKET := BLOCK_INDEX, BUCKET_COUNTER := BLOCK_INDEX]
  }

  const BLOCK_BUCKET: Key :=
    [98, 105, 100, 120, 0, 0, 0, 0, 102, 102, 108, 100, 98, 45, 98, 108, 111, 99, 107, 105, 100, 120]
  const BUCKET_COUNTER: Key := [98, 105, 100, 120, 45, 99, 98, 105, 100]

  lemma InitialRecorded(ps: Params)
    ensures Recorded(InitialMeta(ps.crc), map[], Position(0, 0), map[], ps)
  {
    forall h
      ensures BlockKey(h) !in InitialMeta(ps.crc)
    {
      assert BlockKey(h)[0] == 0 && BlockKey(h)[3] == 1;
      assert WRITE_LOC[3] == 0 && BLOCK_BUCKET[0] == 98 && BUCKET_COUNTER[0] == 98;
    }
    hide BlockKey, SerializeWriteRow;
  }

  /** A new, empty database. */
  method Create(ps: Params, maxSize: uint32) returns (db: Database)
    ensures fresh(db) && fresh(db.store) && fresh(db.cache) && db.Valid() && db.ps == ps
    ensures db.store.maxBlockFileSize == maxSize && db.store.Cursor() == Position(0, 0) && db.visibleBlocks == map[]
  {
    hide *;
    InitialRecorded(ps);
    CursorRow(InitialMeta(ps.crc), map[], Position(0, 0), map[], ps);
    EmptySized();
    var r := Reconcile(ps, maxSize, map[], InitialMeta(ps.crc), Position(0, 0), map[]);
    return r.db;
  }

  lemma EmptySized()
    ensures Sized(map[])
  {
  }

  datatype Action =
    | Transact(blocks: seq<PendingBlock>, keys: Meta, removed: set<Key>, needsFlush: bool)
    | Flush
    | Crash(moment: nat)

  /** Blocks fit the files, and users leave the reserved keys alone. */
  ghost predicate Proper(a: Action, maxSize: uint32) {
    a.Transact? ==>
      && (forall i :: 0 <= i < |a.blocks| ==> |a.blocks[i].raw| + 12 <= maxSize)
      && a.keys.Keys !! a.removed && forall k :: k in a.keys || k in a.removed ==> !Reserved(k)
  }

  ghost function BlockCount(script: seq<Action>): nat {
    if script == [] then 0 else Weight(script[0]) + BlockCount(script[1..])
  }

  function Weight(a: Action): nat {
    if a.Transact? then |a.blocks| else 0
  }

  lemma WithinTransitive(a: Blocks, b: Blocks, c: Blocks)
    requires Within(a, b) && Within(b, c)
    ensures Within(a, c)
  {
  }

  lemma LaterWeaken(trace: seq<Moment>, from: nat, a: Blocks, b: Blocks, max1: int, max2: int)
    requires Database.Later(trace, from, b, max1) && Within(a, b) && max1 <= max2
    ensures Database.Later(trace, from, a, max2)
  {
    hide Within;
    forall i | from <= i < |trace|
      ensures Within(a, trace[i].blocks) && trace[i].cursor.file <= max2
    {
      WithinTransitive(a, b, trace[i].blocks);
    }
  }

  lemma LaterAt(trace: seq<Moment>, from: nat, blocks: Blocks, maxFile: int, i: nat, ps: Params)
    requires Database.Later(trace, from, blocks, maxFile) && from <= i < |trace| && AllSafe(trace, ps)
    ensures Within(blocks, trace[i].blocks) && trace[i].cursor.file <= maxFile && Safe(trace[i], ps)
    ensures Recorded(trace[i].ldb, trace[i].disk, trace[i].cursor, trace[i].blocks, ps) && Sized(trace[i].disk)
  {
    hide Recorded;
  }

  /** One action.  D is a set of blocks durable at every moment since the last action began; `bound`
  bounds the file numbers. */
  method Act(db0: Database, a: Action, since: nat, ghost D: Blocks, ghost bound: nat)
    returns (db: Database, began: nat, corrupt: bool)
    requires db0.Valid() && Proper(a, db0.store.maxBlockFileSize)
    requires Database.Later(db0.trace, since, D, bound) && Within(D, db0.durableBlocks)
    requires db0.store.curFileNum <= bound && bound + Weight(a) < UINT32
    modifies db0, db0.store, db0.cache
    ensures !corrupt && db.Valid()
    ensures Database.Later(db.trace, began, D, bound + Weight(a)) && Within(D, db.durableBlocks)
    ensures db.store.curFileNum <= bound + Weight(a) && db.store.maxBlockFileSize == db0.store.maxBlockFileSize
    ensures if a.Crash? then fresh(db) && fresh(db.store) && fresh(db.cache) else db == db0
    ensures a.Transact? && !db0.store.faulty && !db0.cache.faulty ==>
              && (forall b :: b in a.blocks ==> b.hash in db.visibleBlocks) && Within(old(db0.visibleBlocks), db.visibleBlocks)
              && (a.needsFlush ==> db.durableBlocks == db.visibleBlocks)
    ensures a.Flush? && !db0.cache.faulty ==> db.durableBlocks == db.visibleBlocks == old(db0.visibleBlocks)
    ensures a.Crash? ==>
              && since < old(|db0.trace|)
              && db.durableBlocks == db.visibleBlocks == old(db0.trace)[since + a.moment % (old(|db0.trace|) - since)].blocks
  {
    hide *;
    db, began, corrupt := db0, |db0.trace|, false;
    db0.ValidParts();
    match a
    case Transact(blocks, keys, removed, needsFlush) =>
      var pending := db0.StoreBlocks(blocks);
      ProperBlocks(a, db0.store.maxBlockFileSize, pending, db0.store);
      ghost var before := db0.durableBlocks;
      var ok := db0.Commit(pending, keys, removed, needsFlush);
      LaterWeaken(db.trace, began, D, before, old(db0.store.curFileNum) + |pending|, bound + Weight(a));
      WithinTransitive(D, before, db.durableBlocks);
      if ok {
        AllStored(blocks, pending, old(db0.visibleBlocks));
        NewBlocks(pending, old(db0.visibleBlocks));
        MoreIsWithin(old(db0.visibleBlocks), BlocksOf(pending));
      }
    case Flush =>
      ghost var before := db0.durableBlocks;
      var ok := db0.FlushCache();
      LaterWeaken(db.trace, began, D, before, db0.store.curFileNum, bound + Weight(a));
      WithinTransitive(D, before, db.durableBlocks);
    case Crash(moment) =>
      LaterLength(db0.trace, since, D, bound);
      var i := since + moment % (|db0.trace| - since);
      var m := db0.trace[i];
      LaterAt(db0.trace, since, D, bound, i, db0.ps);
      CursorRow(m.ldb, m.disk, m.cursor, m.blocks, db0.ps);
      var r := Reconcile(db0.ps, db0.store.maxBlockFileSize, m.disk, m.ldb, m.cursor, m.blocks);
      if !r.Opened? {
        corrupt := true;
        return;
      }
      db, began := r.db, 0;
      db.ValidParts();
      db.AtSelf();
      LaterWeaken(db.trace, 0, D, m.blocks, m.cursor.file, bound + Weight(a));
  }

  /** Every given block was stored before or is pending. */
  lemma AllStored(blocks: seq<PendingBlock>, pending: seq<PendingBlock>, stored: Blocks)
    requires forall b :: b in blocks ==> b.hash in stored || exists p :: p in pending && p.hash == b.hash
    ensures forall b :: b in blocks ==> b.hash in stored + BlocksOf(pending)
  {
    forall b | b in blocks
      ensures b.hash in stored + BlocksOf(pending)
    {
      if b.hash !in stored {
        var p :| p in pending && p.hash == b.hash;
        Pending(pending, p);
      }
    }
  }

  lemma {:induction false} Pending(pending: seq<PendingBlock>, p: PendingBlock)
    requires p in pending
    ensures p.hash in BlocksOf(pending)
  {
    var k := |pending| - 1;
    if p != pending[k] {
      assert p in pending[..k];
      Pending(pending[..k], p);
    }
  }

  lemma MoreIsWithin(a: Blocks, added: Blocks)
    requires forall h :: h in added ==> h !in a
    ensures Within(a, a + added)
  {
  }

  lemma LaterLength(trace: seq<Moment>, from: nat, blocks: Blocks, maxFile: int)
    requires Database.Later(trace, from, blocks, maxFile)
    ensures from < |trace|
  {
  }

  lemma ProperBlocks(a: Action, maxSize: uint32, pending: seq<PendingBlock>, store: BlockStore.Store)
    requires a.Transact? && Proper(a, maxSize) && store.maxBlockFileSize == maxSize
    requires forall i :: 0 <= i < |pending| ==> pending[i] in a.blocks
    ensures forall i :: 0 <= i < |pending| ==> |pending[i].raw| + 12 < UINT32
    ensures pending != [] ==> store.Continues(pending[0].raw)
    ensures a.keys.Keys !! a.removed && forall k :: k in a.keys || k in a.removed ==> !Reserved(k)
    ensures Weight(a) == |a.blocks|
  {
    hide Reserved;
    assert pending != [] ==> pending[0] in a.blocks;
  }

  /** Any run of transactions and flushes, crashing at any of the moments since the last action began, also
  during the repair after an earlier crash: a restart never finds corruption, and the blocks that were
  durable remain so, each reading back exactly. */
  method Run(first: Database, script: seq<Action>) returns (db: Database, corrupt: bool)
    requires first.Valid() && forall i :: 0 <= i < |script| ==> Proper(script[i], first.store.maxBlockFileSize)
    requires first.store.curFileNum + BlockCount(script) < UINT32
    modifies first, first.store, first.cache
    ensures !corrupt && db.Valid() && Within(old(first.durableBlocks), db.durableBlocks)
  {
    hide *;
    LastMoment(first);
    db, corrupt := first, false;
    var since: nat := |db.trace| - 1;
    ghost var D, bound := first.durableBlocks, first.store.curFileNum;
    assert script[0..] == script;
    for i := 0 to |script|
      invariant db.Valid() && !corrupt && Within(D, db.durableBlocks) && Database.Later(db.trace, since, D, bound)
      invariant db.store.curFileNum <= bound && bound + BlockCount(script[i..]) < UINT32
      invariant db.store.maxBlockFileSize == first.store.maxBlockFileSize
      invariant db == first || (fresh(db) && fresh(db.store) && fresh(db.cache))
    {
      CountStep(script, i);
      db, since, corrupt := Act(db, script[i], since, D, bound);
      bound := bound + Weight(script[i]);
    }
  }

  lemma CountStep(script: seq<Action>, i: nat)
    requires i < |script|
    ensures BlockCount(script[i..]) == Weight(script[i]) + BlockCount(script[i + 1..])
  {
    assert script[i..][1..] == script[i + 1..];
  }

  lemma LastMoment(db: Database)
    requires db.Valid()
    ensures |db.trace| > 0 && Within(db.durableBlocks, db.durableBlocks)
    ensures Database.Later(db.trace, |db.trace| - 1, db.durableBlocks, db.store.curFileNum)
  {
    hide Recorded, AllSafe, Within, BlockStore.Store.Valid, DbCache.Cache.Valid, AtMost;
    db.ValidParts();
    SelfWithin(db.durableBlocks);
  }

  lemma SelfWithin(blocks: Blocks)
    ensures Within(blocks, blocks)
  {
  }

  /** The limit on block sizes matters.  A new store that takes its first block and is started again has exactly
  that block if the block fits an empty file.  Otherwise the block goes to file 1, file 0 never exists, and
  the next start reports corruption. */
  method FirstBlock(ps: Params, maxSize: uint32, hash: seq<byte>, raw: seq<byte>) returns (r: OpenResult)
    requires |raw| + 12 < UINT32
    ensures r == CorruptFiles <==> |raw| + 12 > maxSize
    ensures |raw| + 12 <= maxSize ==> r.Opened? && r.db.Valid() && r.db.durableBlocks == map[hash := raw]
  {
    hide *;
    EmptySized();
    InitialRecorded(ps);
    var store := new BlockStore.Store(ps.network, maxSize, ps.crc, map[], false);
    FreshStore(store, raw);
    var loc := store.WriteBlock(raw);
    var p := store.Cursor();
    WriteRowRoundTrip(p, ps.crc);
    var ldb := InitialMeta(ps.crc)[BlockKey(hash) := SerializeBlockLoc(loc.value)][WRITE_LOC := SerializeWriteRow(p, ps.crc)];
    if |raw| + 12 <= maxSize {
      FirstRecorded(store, loc.value, hash, raw, ps);
    } else {
      AtGap(store);
    }
    SizedNow(store);
    r := Reconcile(ps, maxSize, store.files, ldb, p, map[hash := raw]);
  }

  lemma FreshStore(store: BlockStore.Store, raw: seq<byte>)
    requires store.Consistent() && store.files == map[] && BlockStore.IsScan(map[], store.Cursor())
    requires |raw| + 12 < UINT32
    ensures store.Valid() && store.Cursor() == Position(0, 0) && store.curFileNum == 0
    ensures |raw| + BlockStore.EXTRA_BYTES < UINT32 && 1 < UINT32 && Reaches(map[], Position(0, 0))
    ensures store.Continues(raw) <==> |raw| + 12 <= store.maxBlockFileSize
  {
  }

  lemma FirstRecorded(store: BlockStore.Store, loc: Location, hash: seq<byte>, raw: seq<byte>, ps: Params)
    requires store.Valid() && store.Kept(1, map[], Position(0, 0)) && AtMost(Position(0, 0), store.Cursor())
    requires Reaches(map[], Position(0, 0)) && |raw| + 12 < UINT32
    requires Holds(store.files, loc, Record(ps.network, raw, ps.crc)) && EndsBelow(loc, store.Cursor())
    ensures var p := store.Cursor();
            var ldb := InitialMeta(ps.crc)[BlockKey(hash) := SerializeBlockLoc(loc)][WRITE_LOC := SerializeWriteRow(p, ps.crc)];
            Recorded(ldb, store.files, p, map[hash := raw], ps)
  {
    var start, p, row := Position(0, 0), store.Cursor(), SerializeBlockLoc(loc);
    InitialRecorded(ps);
    BlockLocRoundTrip(loc);
    assert RowOf(row, raw, store.files, p, ps);
    hide SerializeBlockLoc, SerializeWriteRow, Indexed, RowOf, InitialMeta, BlockKey, KeepsBelow, Reaches;
    IndexKept(InitialMeta(ps.crc), map[], store.files, start, p, map[], ps);
    IndexPut(InitialMeta(ps.crc), store.files, p, map[], hash, raw, row, ps);
    assert map[][hash := raw] == map[hash := raw];
    CursorPut(InitialMeta(ps.crc)[BlockKey(hash) := row], store.files, p, map[hash := raw], ps, SerializeWriteRow(p, ps.crc));
  }

  lemma SizedNow(store: BlockStore.Store)
    requires store.Consistent()
    ensures Sized(store.files)
  {
  }

  lemma AtGap(store: BlockStore.Store)
    requires store.curFileNum == 1 && 0 !in store.files
    ensures Gap(store.files, store.Cursor())
  {
  }
}
