/** The write-back cache over the metadata store.

leveldb is a finite map that a transaction replaces as a whole or leaves alone; treaps are finite
maps and sets.  Whether leveldb succeeds and whether a flush is due are decided by the environment. */
module DbCache {
  import opened Bytes
  import opened Wrappers

  type Bytestring = seq<byte>
  type Store = map<Bytestring, Bytestring>

  /** A store with some keys removed and some entries put on top. */
  function Apply(base: Store, keys: Store, removed: set<Bytestring>): Store {
    (base - removed) + keys
  }

  lemma ApplyNothing(base: Store)
    ensures Apply(base, map[], {}) == base
  {
  }

  lemma ApplyPut(base: Store, keys: Store, removed: set<Bytestring>, k: Bytestring, v: Bytestring)
    ensures Apply(base, keys[k := v], removed - {k}) == Apply(base, keys, removed)[k := v]
  {
  }

  lemma ApplyDelete(base: Store, keys: Store, removed: set<Bytestring>, k: Bytestring)
    ensures Apply(base, keys - {k}, removed + {k}) == Apply(base, keys, removed) - {k}
  {
  }

  lemma ApplyInto(ldb: Store, keys: Store, removed: set<Bytestring>)
    requires keys.Keys !! removed
    ensures (ldb + keys) - removed == Apply(ldb, keys, removed)
  {
  }

  /** Updates combine: applying the second after the first is applying their merger. */
  lemma ApplyTwice(ldb: Store, keys: Store, removed: set<Bytestring>, keys': Store, removed': set<Bytestring>)
    requires keys'.Keys !! removed'
    ensures Apply(ldb, (keys + keys') - removed', (removed - keys'.Keys) + removed')
            == Apply(Apply(ldb, keys, removed), keys', removed')
  {
  }

  /** A view fixed at one moment. */
  datatype Snapshot = Snapshot(db: Store, pendingKeys: Store, pendingRemove: set<Bytestring>) {
    ghost predicate Valid() {
      pendingKeys.Keys !! pendingRemove
    }

    function Contents(): Store {
      Apply(db, pendingKeys, pendingRemove)
    }

    function Has(key: Bytestring): (found: bool)
      requires Valid()
      ensures found <==> key in Contents()
    {
      if key in pendingRemove then false
      else if key in pendingKeys then true
      else key in db
    }

    function Get(key: Bytestring): (v: Option<Bytestring>)
      requires Valid()
      ensures v == if key in Contents() then Some(Contents()[key]) else None
    {
      if key in pendingRemove then None
      else if key in pendingKeys then Some(pendingKeys[key])
      else if key in db then Some(db[key])
      else None
    }
  }

  /** The pending changes of a transaction. */
  class Transaction {
    const snapshot: Snapshot
    var pendingKeys: Store
    var pendingRemove: set<Bytestring>

    ghost predicate Valid()
      reads this
    {
      snapshot.Valid() && pendingKeys.Keys !! pendingRemove
    }

    /** What the transaction sees. */
    function Contents(): Store
      reads this
    {
      Apply(snapshot.Contents(), pendingKeys, pendingRemove)
    }

    constructor (s: Snapshot)
      requires s.Valid()
      ensures Valid() && snapshot == s && Contents() == s.Contents()
      ensures pendingKeys == map[] && pendingRemove == {}
    {
      snapshot, pendingKeys, pendingRemove := s, map[], {};
    }

    method PutKey(key: Bytestring, value: Bytestring)
      requires Valid()
      modifies this
      ensures Valid() && Contents() == old(Contents())[key := value]
      ensures pendingKeys == old(pendingKeys)[key := value] && pendingRemove == old(pendingRemove) - {key}
    {
      hide Apply;
      ApplyPut(snapshot.Contents(), pendingKeys, pendingRemove, key, value);
      pendingRemove := pendingRemove - {key};
      pendingKeys := pendingKeys[key := value];
    }

    method DeleteKey(key: Bytestring)
      requires Valid()
      modifies this
      ensures Valid() && Contents() == old(Contents()) - {key}
    {
      hide Apply;
      ApplyDelete(snapshot.Contents(), pendingKeys, pendingRemove, key);
      pendingKeys := pendingKeys - {key};
      pendingRemove := pendingRemove + {key};
    }

    method HasKey(key: Bytestring) returns (found: bool)
      requires Valid()
      ensures found <==> key in Contents()
    {
      if key in pendingRemove {
        return false;
      }
      if key in pendingKeys {
        return true;
      }
      return snapshot.Has(key);
    }

    method FetchKey(key: Bytestring) returns (v: Option<Bytestring>)
      requires Valid()
      ensures v == if key in Contents() then Some(Contents()[key]) else None
    {
      if key in pendingRemove {
        return None;
      }
      if key in pendingKeys {
        return Some(pendingKeys[key]);
      }
      return snapshot.Get(key);
    }
  }

  /** With leveldb; system calls fail only on a faulty device. */
  class Cache {
    const faulty: bool
    var ldb: Store
    var cachedKeys: Store
    var cachedRemove: set<Bytestring>

    ghost predicate Valid()
      reads this
    {
      cachedKeys.Keys !! cachedRemove
    }

    function Contents(): Store
      reads this
    {
      Apply(ldb, cachedKeys, cachedRemove)
    }

    constructor (db: Store, faults: bool)
      ensures Valid() && ldb == db && Contents() == db && faulty == faults
    {
      faulty := faults;
      ldb, cachedKeys, cachedRemove := db, map[], {};
    }

    /** The snapshot is a value: later changes of the cache do not reach it. */
    method TakeSnapshot() returns (s: Snapshot)
      requires Valid()
      ensures s.Valid() && s.Contents() == Contents()
    {
      return Snapshot(ldb, cachedKeys, cachedRemove);
    }

    /** One leveldb transaction: all puts, then all deletes, or nothing. */
    method CommitTreaps(keys: Store, removed: set<Bytestring>) returns (ok: bool)
      requires keys.Keys !! removed
      modifies this`ldb
      ensures ldb == if ok then Apply(old(ldb), keys, removed) else old(ldb)
      ensures !faulty ==> ok
    {
      var ldbTx := ldb;
      var left := keys.Keys;
      while left != {}
        invariant left <= keys.Keys
        invariant ldbTx == ldb + (keys - left)
      {
        var k :| k in left;
        if faulty {
          if * {
            return false;
          }
        }
        ldbTx := ldbTx[k := keys[k]];
        left := left - {k};
        assert (keys - (left + {k}))[k := keys[k]] == keys - left;
      }
      assert keys - {} == keys;
      left := removed;
      while left != {}
        invariant left <= removed
        invariant ldbTx == (ldb + keys) - (removed - left)
      {
        var k :| k in left;
        if faulty {
          if * {
            return false;
          }
        }
        ldbTx := ldbTx - {k};
        left := left - {k};
      }
      if faulty {
        if * {
          return false;
        }
      }
      ApplyInto(ldb, keys, removed);
      ldb := ldbTx;
      return true;
    }

    /** Flushing never changes what is visible; on success all of it is in leveldb. */
    method Flush() returns (ok: bool)
      requires Valid()
      modifies this
      ensures Valid() && Contents() == old(Contents())
      ensures ok ==> ldb == old(Contents()) && cachedKeys == map[] && cachedRemove == {}
      ensures !ok ==> faulty && ldb == old(ldb) && cachedKeys == old(cachedKeys) && cachedRemove == old(cachedRemove)
    {
      hide Apply;
      ApplyNothing(ldb);
      if faulty {
        if * {
          return false;
        }
      }
      if |cachedKeys| == 0 && |cachedRemove| == 0 {
        assert cachedKeys == map[];
        return true;
      }
      ok := CommitTreaps(cachedKeys, cachedRemove);
      if !ok {
        return false;
      }
      ApplyNothing(ldb);
      cachedKeys := map[];
      cachedRemove := {};
    }

    /** The cache with the transaction's changes on top. */
    method Merge(keys: Store, removed: set<Bytestring>) returns (newKeys: Store, newRemove: set<Bytestring>)
      requires keys.Keys !! removed
      ensures newKeys == (cachedKeys + keys) - removed && newRemove == (cachedRemove - keys.Keys) + removed
    {
      newKeys, newRemove := cachedKeys, cachedRemove;
      var left := keys.Keys;
      while left != {}
        invariant left <= keys.Keys
        invariant newKeys == cachedKeys + (keys - left) && newRemove == cachedRemove - (keys.Keys - left)
      {
        var k :| k in left;
        newRemove := newRemove - {k};
        newKeys := newKeys[k := keys[k]];
        left := left - {k};
        assert (keys - (left + {k}))[k := keys[k]] == keys - left;
      }
      assert keys - {} == keys;
      left := removed;
      while left != {}
        invariant left <= removed
        invariant newKeys == (cachedKeys + keys) - (removed - left)
        invariant newRemove == (cachedRemove - keys.Keys) + (removed - left)
      {
        var k :| k in left;
        newKeys := newKeys - {k};
        newRemove := newRemove + {k};
        left := left - {k};
      }
    }

    /** All of the transaction becomes visible, or none of it.  leveldb holds what it held, what was
    visible before, or what is visible now. */
    method CommitTx(keys: Store, removed: set<Bytestring>, needsFlush: bool) returns (ok: bool)
      requires Valid() && keys.Keys !! removed
      modifies this
      ensures Valid()
      ensures Contents() == if ok then Apply(old(Contents()), keys, removed) else old(Contents())
      ensures ldb == old(ldb) || ldb == old(Contents()) || (ok && ldb == Contents())
      ensures ok && !needsFlush ==> ldb == old(ldb)
      ensures ok && needsFlush ==> ldb == Contents()
      ensures !ok ==> faulty && needsFlush
    {
      hide Apply;
      if needsFlush {
        ok := Flush();
        if !ok {
          return false;
        }
        ok := CommitTreaps(keys, removed);
        ApplyNothing(ldb);
        return ok;
      }
      var newKeys, newRemove := Merge(keys, removed);
      ApplyTwice(ldb, cachedKeys, cachedRemove, keys, removed);
      cachedKeys := newKeys;
      cachedRemove := newRemove;
      return true;
    }
  }
}
