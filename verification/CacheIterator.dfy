/** The iterator that merges the cached keys with those of the store.

The store's iterator and the treap's iterator over a range of keys are positions in two ascending
sequences; a position outside a sequence is an exhausted iterator. */
module CacheIterator {
  import opened DbCache

  // The order of bytes.Compare.

  predicate Less(a: Bytestring, b: Bytestring) {
    if b == [] then false
    else if a == [] then true
    else if a[0] != b[0] then a[0] < b[0]
    else Less(a[1..], b[1..])
  }

  lemma {:induction false} LessTransitive(a: Bytestring, b: Bytestring, c: Bytestring)
    requires Less(a, b) && Less(b, c)
    ensures Less(a, c)
  {
    if a != [] && a[0] == b[0] && b[0] == c[0] {
      LessTransitive(a[1..], b[1..], c[1..]);
    }
  }

  lemma {:induction false} LessTotal(a: Bytestring, b: Bytestring)
    ensures Less(a, b) || a == b || Less(b, a)
  {
    if a != [] && b != [] && a[0] == b[0] {
      LessTotal(a[1..], b[1..]);
      assert a == [a[0]] + a[1..] && b == [b[0]] + b[1..];
    }
  }

  lemma {:induction false} LessIrreflexive(a: Bytestring)
    ensures !Less(a, a)
  {
    if a != [] {
      LessIrreflexive(a[1..]);
    }
  }

  lemma LessAsymmetric(a: Bytestring, b: Bytestring)
    requires Less(a, b)
    ensures !Less(b, a) && a != b
  {
    LessIrreflexive(a);
    if Less(b, a) {
      LessTransitive(a, b, a);
    }
  }

  // Runs in either direction.

  ghost predicate Before(forwards: bool, a: Bytestring, b: Bytestring) {
    if forwards then Less(a, b) else Less(b, a)
  }

  ghost predicate Ascending(s: seq<Bytestring>) {
    forall i, j :: 0 <= i < j < |s| ==> Less(s[i], s[j])
  }

  /** k comes first among r. */
  ghost predicate IsNext(forwards: bool, k: Bytestring, r: set<Bytestring>) {
    k in r && forall x :: x in r ==> x == k || Before(forwards, k, x)
  }

  /** The keys of s that an iterator standing at i has yet to visit. */
  ghost function Rest(forwards: bool, s: seq<Bytestring>, i: int): set<Bytestring> {
    set n | 0 <= n < |s| && (if forwards then i <= n else n <= i) :: s[n]
  }

  ghost function All(s: seq<Bytestring>): set<Bytestring> {
    set n | 0 <= n < |s| :: s[n]
  }

  /** On a key, or beyond the end of the run. */
  ghost predicate OnRun(forwards: bool, s: seq<Bytestring>, i: int) {
    if forwards then 0 <= i <= |s| else -1 <= i < |s|
  }

  function Advance(forwards: bool, i: int): int {
    if forwards then i + 1 else i - 1
  }

  /** Strictly ordered in the direction of the run, so without duplicates. */
  ghost predicate InOrder(forwards: bool, s: seq<Bytestring>) {
    forall i, j :: 0 <= i < j < |s| ==> Before(forwards, s[i], s[j])
  }

  lemma AllAppend(s: seq<Bytestring>, k: Bytestring)
    ensures All(s + [k]) == All(s) + {k}
  {
    forall x | x in All(s)
      ensures x in All(s + [k])
    {
      var n :| 0 <= n < |s| && s[n] == x;
      assert (s + [k])[n] == x;
    }
    assert (s + [k])[|s|] == k;
  }

  lemma RestStep(forwards: bool, s: seq<Bytestring>, i: nat)
    requires Ascending(s) && i < |s|
    ensures Rest(forwards, s, Advance(forwards, i)) == Rest(forwards, s, i) - {s[i]}
    ensures IsNext(forwards, s[i], Rest(forwards, s, i))
  {
    hide Less;
    forall n | 0 <= n < |s| && n != i
      ensures s[n] != s[i] && Before(n > i, s[i], s[n])
    {
      LessAsymmetric(if n < i then s[n] else s[i], if n < i then s[i] else s[n]);
    }
  }

  lemma RestEnds(forwards: bool, s: seq<Bytestring>)
    ensures Rest(forwards, s, if forwards then |s| else -1) == {}
    ensures Rest(forwards, s, if forwards then 0 else |s| - 1) == All(s)
  {
  }

  /** The first of two firsts comes first of all. */
  lemma NextOfUnion(forwards: bool, a: Bytestring, r: set<Bytestring>, b: Bytestring, q: set<Bytestring>)
    requires IsNext(forwards, a, r) && IsNext(forwards, b, q) && !Before(forwards, b, a)
    ensures IsNext(forwards, a, r + q)
  {
    hide Less;
    LessTotal(a, b);
    forall x | x in q
      ensures x == a || Before(forwards, a, x)
    {
      if x != b && a != b {
        LessTransitive(if forwards then a else x, b, if forwards then x else a);
      }
    }
  }

  /** A run that started with the keys of `start` has visited some and has the others left. */
  ghost predicate Visiting(forwards: bool, visited: seq<Bytestring>, left: set<Bytestring>, start: set<Bytestring>) {
    && InOrder(forwards, visited) && All(visited) + left == start
    && forall i, x :: 0 <= i < |visited| && x in left ==> Before(forwards, visited[i], x)
  }

  lemma VisitStart(forwards: bool, start: set<Bytestring>)
    ensures Visiting(forwards, [], start, start)
  {
  }

  lemma VisitEnd(forwards: bool, visited: seq<Bytestring>, start: set<Bytestring>)
    requires Visiting(forwards, visited, {}, start)
    ensures InOrder(forwards, visited) && All(visited) == start
  {
  }

  lemma VisitStep(forwards: bool, visited: seq<Bytestring>, left: set<Bytestring>, start: set<Bytestring>, k: Bytestring)
    requires Visiting(forwards, visited, left, start) && IsNext(forwards, k, left)
    ensures Visiting(forwards, visited + [k], left - {k}, start)
    ensures |left - {k}| < |left|
  {
    hide Less;
    AllAppend(visited, k);
  }

  /** Where an iterator stands after seeking k: on the first key not below it. */
  ghost predicate Sought(s: seq<Bytestring>, k: Bytestring, i: nat) {
    i <= |s| && (forall n :: 0 <= n < i ==> Less(s[n], k)) && (forall n :: i <= n < |s| ==> !Less(s[n], k))
  }

  method SeekIn(s: seq<Bytestring>, k: Bytestring) returns (i: nat)
    requires Ascending(s)
    ensures Sought(s, k, i)
  {
    hide Less;
    i := 0;
    while i < |s| && Less(s[i], k)
      invariant i <= |s| && forall n :: 0 <= n < i ==> Less(s[n], k)
    {
      i := i + 1;
    }
    forall n | i <= n < |s|
      ensures !Less(s[n], k)
    {
      if n > i && Less(s[n], k) {
        LessTransitive(s[i], s[n], k);
      }
    }
  }

  ghost function NotBelow(r: set<Bytestring>, k: Bytestring): set<Bytestring> {
    set x | x in r && !Less(x, k)
  }

  lemma RestSought(s: seq<Bytestring>, k: Bytestring, i: nat)
    requires Sought(s, k, i)
    ensures Rest(true, s, i) == NotBelow(All(s), k)
  {
  }

  // The merged iterator.

  datatype Source = Nothing | Database | Cached

  class MergedIterator {
    const dbKeys: seq<Bytestring>
    const cacheKeys: seq<Bytestring>
    const pendingKeys: set<Bytestring>
    const pendingRemove: set<Bytestring>
    var dbPos: int
    var cachePos: int
    var current: Source

    /** Both sequences ascend, and the cached keys in range are the pending ones. */
    ghost predicate Sound() {
      && Ascending(dbKeys) && Ascending(cacheKeys)
      && All(cacheKeys) <= pendingKeys && pendingKeys * All(dbKeys) <= All(cacheKeys)
    }

    predicate DbValid()
      reads this
    {
      0 <= dbPos < |dbKeys|
    }

    predicate CacheValid()
      reads this
    {
      0 <= cachePos < |cacheKeys|
    }

    predicate Hidden(k: Bytestring) {
      k in pendingRemove || k in pendingKeys
    }

    ghost function HiddenKeys(): set<Bytestring> {
      pendingRemove + pendingKeys
    }

    /** The keys in range of the cache's view. */
    ghost function Visible(): set<Bytestring> {
      (All(dbKeys) - HiddenKeys()) + All(cacheKeys)
    }

    /** The visible keys of the store that its iterator at i has yet to visit. */
    ghost function DbLeft(forwards: bool, i: int): set<Bytestring> {
      Rest(forwards, dbKeys, i) - HiddenKeys()
    }

    /** What a run has yet to visit, the current key included. */
    ghost function Pending(forwards: bool): set<Bytestring>
      reads this
    {
      DbLeft(forwards, dbPos) + Rest(forwards, cacheKeys, cachePos)
    }

    constructor (db: seq<Bytestring>, cache: seq<Bytestring>, pending: set<Bytestring>, removed: set<Bytestring>)
      requires Ascending(db) && Ascending(cache) && All(cache) <= pending && pending * All(db) <= All(cache)
      ensures Sound() && current == Nothing
      ensures dbKeys == db && cacheKeys == cache && pendingKeys == pending && pendingRemove == removed
    {
      dbKeys, cacheKeys, pendingKeys, pendingRemove := db, cache, pending, removed;
      dbPos, cachePos, current := -1, -1, Nothing;
    }

    /** The state between calls: the current iterator, if any, stands on a key. */
    ghost predicate Standing()
      reads this
    {
      && Sound() && -1 <= dbPos <= |dbKeys| && -1 <= cachePos <= |cacheKeys|
      && (current == Database ==> DbValid()) && (current == Cached ==> CacheValid())
    }

    /** The iterator to read from: the valid one, or the one whose key comes first. */
    function Choice(forwards: bool): Source
      reads this
    {
      if !DbValid() && !CacheValid() then Nothing
      else if !CacheValid() then Database
      else if !DbValid() then Cached
      else if (forwards && Less(cacheKeys[cachePos], dbKeys[dbPos]))
           || (!forwards && Less(dbKeys[dbPos], cacheKeys[cachePos])) then Cached
      else Database
    }

    /** The state between the calls of a run: the current key is the first of those left. */
    ghost predicate Running(forwards: bool)
      reads this
    {
      && Sound() && OnRun(forwards, dbKeys, dbPos) && OnRun(forwards, cacheKeys, cachePos)
      && (DbValid() ==> !Hidden(dbKeys[dbPos]))
      && (current == Database ==> DbValid() && IsNext(forwards, dbKeys[dbPos], Pending(forwards)))
      && (current == Cached ==> CacheValid() && IsNext(forwards, cacheKeys[cachePos], Pending(forwards)))
      && (current == Nothing ==> Pending(forwards) == {})
    }

    /** The key the iterator points to; empty when it is exhausted. */
    function Key(): Bytestring
      reads this
    {
      if current == Database && DbValid() then dbKeys[dbPos]
      else if current == Cached && CacheValid() then cacheKeys[cachePos]
      else []
    }

    /** Skips the keys of the store that the cache replaces or removes. */
    method SkipPendingUpdates(forwards: bool)
      requires Sound() && -1 <= dbPos <= |dbKeys|
      modifies this`dbPos
      ensures -1 <= dbPos <= |dbKeys| && (DbValid() ==> !Hidden(dbKeys[dbPos]))
      ensures !old(DbValid() && Hidden(dbKeys[dbPos])) ==> dbPos == old(dbPos)
      ensures old(OnRun(forwards, dbKeys, dbPos)) ==>
                OnRun(forwards, dbKeys, dbPos) && DbLeft(forwards, dbPos) == old(DbLeft(forwards, dbPos))
    {
      hide Rest, IsNext, Ascending;
      while DbValid() && Hidden(dbKeys[dbPos])
        invariant -1 <= dbPos <= |dbKeys|
        invariant dbPos == old(dbPos) || old(DbValid() && Hidden(dbKeys[dbPos]))
        invariant old(OnRun(forwards, dbKeys, dbPos)) ==>
                    OnRun(forwards, dbKeys, dbPos) && DbLeft(forwards, dbPos) == old(DbLeft(forwards, dbPos))
        decreases if forwards then |dbKeys| - dbPos else dbPos
      {
        RestStep(forwards, dbKeys, dbPos);
        dbPos := Advance(forwards, dbPos);
      }
    }

    /** Each iterator stands on the first of the keys it has left. */
    lemma Stands(forwards: bool)
      requires Sound() && OnRun(forwards, dbKeys, dbPos) && OnRun(forwards, cacheKeys, cachePos)
      requires DbValid() ==> !Hidden(dbKeys[dbPos])
      ensures !DbValid() ==> Rest(forwards, dbKeys, dbPos) == {}
      ensures DbValid() ==> IsNext(forwards, dbKeys[dbPos], Rest(forwards, dbKeys, dbPos) - HiddenKeys())
      ensures !CacheValid() ==> Rest(forwards, cacheKeys, cachePos) == {}
      ensures CacheValid() ==> IsNext(forwards, cacheKeys[cachePos], Rest(forwards, cacheKeys, cachePos))
    {
      hide Rest, Less;
      RestEnds(forwards, dbKeys);
      RestEnds(forwards, cacheKeys);
      if DbValid() {
        RestStep(forwards, dbKeys, dbPos);
      }
      if CacheValid() {
        RestStep(forwards, cacheKeys, cachePos);
      }
    }

    lemma ChoiceIsNext(forwards: bool)
      requires Sound() && OnRun(forwards, dbKeys, dbPos) && OnRun(forwards, cacheKeys, cachePos)
      requires DbValid() ==> !Hidden(dbKeys[dbPos])
      ensures Choice(forwards) == Database ==> IsNext(forwards, dbKeys[dbPos], Pending(forwards))
      ensures Choice(forwards) == Cached ==> IsNext(forwards, cacheKeys[cachePos], Pending(forwards))
      ensures Choice(forwards) == Nothing ==> Pending(forwards) == {}
    {
      hide Rest, IsNext, Less, Ascending;
      Stands(forwards);
      var db, cached := Rest(forwards, dbKeys, dbPos) - HiddenKeys(), Rest(forwards, cacheKeys, cachePos);
      if DbValid() && CacheValid() {
        var a, b := dbKeys[dbPos], cacheKeys[cachePos];
        if Choice(forwards) == Cached {
          LessAsymmetric(if forwards then b else a, if forwards then a else b);
          NextOfUnion(forwards, b, cached, a, db);
          assert db + cached == cached + db;
        } else {
          NextOfUnion(forwards, a, db, b, cached);
        }
      } else {
        assert !CacheValid() ==> db + cached == db;
        assert !DbValid() ==> db + cached == cached;
      }
    }

    method ChooseIterator(forwards: bool) returns (found: bool)
      requires Sound() && -1 <= dbPos <= |dbKeys| && -1 <= cachePos <= |cacheKeys|
      modifies this`dbPos, this`current
      ensures Standing() && current == Choice(forwards) && (found <==> current != Nothing)
      ensures !old(DbValid() && Hidden(dbKeys[dbPos])) ==> dbPos == old(dbPos)
      ensures DbValid() ==> !Hidden(dbKeys[dbPos])
      ensures old(OnRun(forwards, dbKeys, dbPos)) ==>
                OnRun(forwards, dbKeys, dbPos) && DbLeft(forwards, dbPos) == old(DbLeft(forwards, dbPos))
      ensures old(OnRun(forwards, dbKeys, dbPos) && OnRun(forwards, cacheKeys, cachePos)) ==>
                Running(forwards) && Pending(forwards) == old(Pending(forwards))
    {
      hide Rest, IsNext, Less, Ascending;
      SkipPendingUpdates(forwards);
      if OnRun(forwards, dbKeys, dbPos) && OnRun(forwards, cacheKeys, cachePos) {
        ChoiceIsNext(forwards);
      }
      if !DbValid() && !CacheValid() {
        current := Nothing;
        return false;
      }
      if !CacheValid() {
        current := Database;
        return true;
      }
      if !DbValid() {
        current := Cached;
        return true;
      }
      if (forwards && Less(cacheKeys[cachePos], dbKeys[dbPos]))
      || (!forwards && Less(dbKeys[dbPos], cacheKeys[cachePos])) {
        current := Cached;
      } else {
        current := Database;
      }
      return true;
    }

    method First() returns (found: bool)
      requires Sound()
      modifies this
      ensures Running(true) && Pending(true) == Visible() && (found <==> current != Nothing)
      ensures cachePos == 0 && current == Choice(true)
      ensures dbPos == 0 || (|dbKeys| > 0 && Hidden(dbKeys[0]))
    {
      hide Rest, IsNext, Ascending;
      dbPos, cachePos := 0, 0;
      RestEnds(true, dbKeys);
      RestEnds(true, cacheKeys);
      found := ChooseIterator(true);
    }

    method Last() returns (found: bool)
      requires Sound()
      modifies this
      ensures Running(false) && Pending(false) == Visible() && (found <==> current != Nothing)
    {
      hide Rest, IsNext, Ascending;
      dbPos, cachePos := |dbKeys| - 1, |cacheKeys| - 1;
      RestEnds(false, dbKeys);
      RestEnds(false, cacheKeys);
      found := ChooseIterator(false);
    }

    /** In a run in one direction, a step does exactly the current key. */
    method Step(forwards: bool) returns (found: bool)
      requires Standing()
      modifies this
      ensures Standing() && (found <==> current != Nothing)
      ensures old(current) == Nothing ==> current == Nothing && dbPos == old(dbPos) && cachePos == old(cachePos)
      ensures old(current) != Nothing ==> current == Choice(forwards)
      ensures old(current) == Cached ==>
                cachePos == Advance(forwards, old(cachePos))
                && (!old(DbValid() && Hidden(dbKeys[dbPos])) ==> dbPos == old(dbPos))
      ensures old(current) == Database ==>
                cachePos == old(cachePos)
                && var p := Advance(forwards, old(dbPos)); (0 <= p < |dbKeys| && Hidden(dbKeys[p])) || dbPos == p
      ensures old(current) == Database ==>
                OnRun(forwards, dbKeys, dbPos) && DbLeft(forwards, dbPos) == DbLeft(forwards, Advance(forwards, old(dbPos)))
      ensures old(current) != Nothing ==> DbValid() ==> !Hidden(dbKeys[dbPos])
      ensures old(Running(forwards)) ==>
                Running(forwards) && Pending(forwards) == old(Pending(forwards)) - {old(Key())}
    {
      hide Rest, IsNext, Ascending, Less;
      if current == Nothing {
        return false;
      }
      if current == Database {
        RestStep(forwards, dbKeys, dbPos);
        if !Hidden(dbKeys[dbPos]) {
          NotCached(dbKeys[dbPos], forwards);
        }
        dbPos := Advance(forwards, dbPos);
      } else {
        RestStep(forwards, cacheKeys, cachePos);
        CachedHidden(cachePos);
        cachePos := Advance(forwards, cachePos);
      }
      found := ChooseIterator(forwards);
    }

    lemma NotCached(k: Bytestring, forwards: bool)
      requires Sound() && !Hidden(k)
      ensures k !in Rest(forwards, cacheKeys, cachePos)
    {
      assert Rest(forwards, cacheKeys, cachePos) <= All(cacheKeys);
    }

    lemma CachedHidden(i: nat)
      requires Sound() && i < |cacheKeys|
      ensures cacheKeys[i] in HiddenKeys()
    {
      assert cacheKeys[i] in All(cacheKeys);
    }

    method Next() returns (found: bool)
      requires Standing()
      modifies this
      ensures Standing() && (found <==> current != Nothing)
      ensures old(Running(true)) ==> Running(true) && Pending(true) == old(Pending(true)) - {old(Key())}
    {
      hide Rest, IsNext, Ascending, Less;
      found := Step(true);
    }

    method Prev() returns (found: bool)
      requires Standing()
      modifies this
      ensures Standing() && (found <==> current != Nothing)
      ensures old(Running(false)) ==> Running(false) && Pending(false) == old(Pending(false)) - {old(Key())}
    {
      hide Rest, IsNext, Ascending, Less;
      found := Step(false);
    }

    method Seek(k: Bytestring) returns (found: bool)
      requires Sound()
      modifies this
      ensures Running(true) && Pending(true) == NotBelow(Visible(), k) && (found <==> current != Nothing)
    {
      hide Rest, IsNext, Ascending, Sought, Less;
      var i := SeekIn(dbKeys, k);
      var j := SeekIn(cacheKeys, k);
      RestSought(dbKeys, k, i);
      RestSought(cacheKeys, k, j);
      SoughtOnRun(dbKeys, k, i);
      SoughtOnRun(cacheKeys, k, j);
      dbPos, cachePos := i, j;
      found := ChooseIterator(true);
    }

    lemma SoughtOnRun(s: seq<Bytestring>, k: Bytestring, i: nat)
      requires Sought(s, k, i)
      ensures OnRun(true, s, i)
    {
    }

    // Turning round.

    /** The visible keys that the iterator now read from covers. */
    ghost function Own(): set<Bytestring>
      reads this
    {
      if current == Database then All(dbKeys) - HiddenKeys() else All(cacheKeys)
    }

    ghost function Others(): set<Bytestring>
      reads this
    {
      if current == Database then All(cacheKeys) else All(dbKeys) - HiddenKeys()
    }

    /** The iterator not read from has run out, and the key just behind the current one, if any, is not one of its. */
    ghost predicate CanTurn(forwards: bool)
      reads this
    {
      && !(if current == Database then CacheValid() else DbValid())
      && Covered(!forwards, Behind(forwards, Key(), Others()), Behind(forwards, Key(), Own()))
    }

    lemma Apart()
      requires Sound()
      ensures Own() !! Others() && Own() + Others() == Visible()
    {
    }

    lemma BehindSplits(forwards: bool, k: Bytestring)
      requires Sound()
      ensures Behind(forwards, k, Own()) !! Behind(forwards, k, Others())
      ensures Behind(forwards, k, Own()) + Behind(forwards, k, Others()) == Behind(forwards, k, Visible())
    {
      hide *;
      Apart();
      BehindUnion(forwards, k, Own(), Others());
    }

    /** With the other iterator on a key, a step back from a run leads on to that key. */
    lemma OtherIsAhead(forwards: bool)
      requires Running(forwards) && current != Nothing
      ensures current == Database && CacheValid() ==> Before(forwards, dbKeys[dbPos], cacheKeys[cachePos])
      ensures current == Cached && DbValid() ==> Before(forwards, cacheKeys[cachePos], dbKeys[dbPos])
    {
      hide Less;
      if CacheValid() && DbValid() {
        assert cacheKeys[cachePos] in Rest(forwards, cacheKeys, cachePos);
        assert dbKeys[dbPos] in DbLeft(forwards, dbPos);
        CachedHidden(cachePos);
      }
    }

    lemma DbFirst(forwards: bool)
      requires Sound() && OnRun(forwards, dbKeys, dbPos) && (DbValid() ==> !Hidden(dbKeys[dbPos]))
      ensures NextOrNone(forwards, DbValid(), if DbValid() then dbKeys[dbPos] else [], DbLeft(forwards, dbPos))
    {
      hide Rest, Less, Ascending;
      RestEnds(forwards, dbKeys);
      if DbValid() {
        RestStep(forwards, dbKeys, dbPos);
      }
    }

    lemma CacheFirst(forwards: bool)
      requires Sound() && OnRun(forwards, cacheKeys, cachePos)
      ensures NextOrNone(forwards, CacheValid(), if CacheValid() then cacheKeys[cachePos] else [],
                         Rest(forwards, cacheKeys, cachePos))
    {
      hide Rest, Less, Ascending;
      RestEnds(forwards, cacheKeys);
      if CacheValid() {
        RestStep(forwards, cacheKeys, cachePos);
      }
    }

    /** The iterator that stands ahead of k wins over the one that has gone behind k. */
    lemma AheadWins(forwards: bool, k: Bytestring)
      ensures CacheValid() && Before(forwards, k, cacheKeys[cachePos]) ==>
                (DbValid() ==> Before(forwards, dbKeys[dbPos], k)) ==> Choice(!forwards) == Cached
      ensures DbValid() && Before(forwards, k, dbKeys[dbPos]) ==>
                (CacheValid() ==> Before(forwards, cacheKeys[cachePos], k)) ==> Choice(!forwards) == Database
    {
      hide Less;
      if CacheValid() && DbValid() {
        var a, b := dbKeys[dbPos], cacheKeys[cachePos];
        if Before(forwards, k, b) && Before(forwards, a, k) {
          LessTransitive(if forwards then a else b, k, if forwards then b else a);
        }
        if Before(forwards, k, a) && Before(forwards, b, k) {
          LessTransitive(if forwards then b else a, k, if forwards then a else b);
          LessAsymmetric(if forwards then b else a, if forwards then a else b);
        }
      }
    }

    /** What is left of the store's keys when its iterator turns round at i. */
    lemma DbTurned(forwards: bool, i: nat)
      requires Sound() && i < |dbKeys|
      ensures DbLeft(!forwards, Advance(!forwards, i)) == Behind(forwards, dbKeys[i], All(dbKeys) - HiddenKeys())
    {
      hide Less, Ascending, Rest, Behind;
      RestBehind(forwards, dbKeys, i);
      BehindHides(forwards, dbKeys[i], All(dbKeys), HiddenKeys());
    }

    /** The step back of the store's iterator. */
    lemma DbTurn(forwards: bool, k: Bytestring, own: set<Bytestring>, others: set<Bytestring>, ahead: bool)
      requires Sound() && OnRun(!forwards, dbKeys, dbPos) && (DbValid() ==> !Hidden(dbKeys[dbPos]))
      requires DbLeft(!forwards, dbPos) == own == Behind(forwards, k, All(dbKeys) - HiddenKeys()) && own !! others
      requires current == Choice(!forwards) && own + others == Behind(forwards, k, Visible())
      requires ahead == CacheValid() && (ahead ==> Before(forwards, k, cacheKeys[cachePos]))
      ensures NextOrNone(!forwards, current != Nothing, Key(), Behind(forwards, k, Visible()))
              <==> !ahead && Covered(!forwards, others, own)
    {
      hide Less, Ascending, Rest, Covered;
      DbFirst(!forwards);
      if ahead {
        AheadWins(forwards, k);
        NotBehind(forwards, k, cacheKeys[cachePos], Visible());
      } else {
        NextCovers(!forwards, current != Nothing, Key(), own, others);
      }
    }

    /** The step back of the cache's iterator. */
    lemma CacheTurn(forwards: bool, k: Bytestring, own: set<Bytestring>, others: set<Bytestring>, ahead: bool)
      requires Sound() && OnRun(!forwards, cacheKeys, cachePos)
      requires Rest(!forwards, cacheKeys, cachePos) == own == Behind(forwards, k, All(cacheKeys)) && own !! others
      requires current == Choice(!forwards) && own + others == Behind(forwards, k, Visible())
      requires ahead == DbValid() && (ahead ==> Before(forwards, k, dbKeys[dbPos]))
      ensures NextOrNone(!forwards, current != Nothing, Key(), Behind(forwards, k, Visible()))
              <==> !ahead && Covered(!forwards, others, own)
    {
      hide Less, Ascending, Rest, Covered;
      CacheFirst(!forwards);
      if ahead {
        AheadWins(forwards, k);
        NotBehind(forwards, k, dbKeys[dbPos], Visible());
      } else {
        NextCovers(!forwards, current != Nothing, Key(), own, others);
      }
    }

    /** Turning round after a run finds the visible key just behind the current one, or that there is none, exactly
    if the iterator can turn there. */
    method Turn(forwards: bool) returns (found: bool)
      requires Running(forwards) && current != Nothing
      modifies this
      ensures Standing() && (found <==> current != Nothing)
      ensures NextOrNone(!forwards, found, Key(), Behind(forwards, old(Key()), Visible())) <==> old(CanTurn(forwards))
    {
      ghost var k, fromDb := Key(), current == Database;
      ghost var own, others := Behind(forwards, k, Own()), Behind(forwards, k, Others());
      ghost var ahead := if fromDb then CacheValid() else DbValid();
      hide Less, Ascending, Rest, Covered, IsNext, NextOrNone, Behind, DbLeft;
      BehindSplits(forwards, k);
      OtherIsAhead(forwards);
      if fromDb {
        DbTurned(forwards, dbPos);
      } else {
        RestBehind(forwards, cacheKeys, cachePos);
      }
      found := Step(!forwards);
      if fromDb {
        DbTurn(forwards, k, own, others, ahead);
      } else {
        CacheTurn(forwards, k, own, others, ahead);
      }
    }

    /** A run to the end visits exactly the keys pending at its start, each once and in order. */
    method Walk(forwards: bool) returns (visited: seq<Bytestring>)
      requires Running(forwards)
      modifies this
      ensures InOrder(forwards, visited) && All(visited) == old(Pending(forwards))
      ensures current == Nothing
    {
      hide *;
      visited := [];
      ghost var start := Pending(forwards);
      VisitStart(forwards, start);
      RunningKey(forwards);
      while current != Nothing
        invariant Standing() && Running(forwards) && Visiting(forwards, visited, Pending(forwards), start)
        invariant current != Nothing ==> IsNext(forwards, Key(), Pending(forwards))
        invariant current == Nothing ==> Pending(forwards) == {}
        decreases |Pending(forwards)|
      {
        ghost var left := Pending(forwards);
        var key := Key();
        VisitStep(forwards, visited, left, start, key);
        var more := Step(forwards);
        visited := visited + [key];
        RunningKey(forwards);
      }
      VisitEnd(forwards, visited, start);
    }

    lemma RunningKey(forwards: bool)
      requires Running(forwards)
      ensures Standing()
      ensures current != Nothing ==> IsNext(forwards, Key(), Pending(forwards))
      ensures current == Nothing ==> Pending(forwards) == {}
    {
    }

    method WalkVisible(forwards: bool) returns (visited: seq<Bytestring>)
      requires Sound()
      modifies this
      ensures InOrder(forwards, visited) && All(visited) == Visible()
    {
      var found;
      if forwards {
        found := First();
      } else {
        found := Last();
      }
      visited := Walk(forwards);
    }

    method WalkFrom(k: Bytestring) returns (visited: seq<Bytestring>)
      requires Sound()
      modifies this
      ensures InOrder(true, visited) && All(visited) == NotBelow(Visible(), k)
    {
      var found := Seek(k);
      visited := Walk(true);
    }
  }

  // Turning round.

  /** The keys of r that come before k. */
  ghost function Behind(forwards: bool, k: Bytestring, r: set<Bytestring>): set<Bytestring> {
    set x | x in r && Before(forwards, x, k)
  }

  /** An iterator that turns round at a key has the keys behind it left. */
  lemma RestBehind(forwards: bool, s: seq<Bytestring>, i: nat)
    requires Ascending(s) && i < |s|
    ensures Rest(!forwards, s, Advance(!forwards, i)) == Behind(forwards, s[i], All(s))
  {
    hide Less;
    LessIrreflexive(s[i]);
    forall n | 0 <= n < |s| && n != i
      ensures Before(n < i, s[n], s[i]) && !Before(n > i, s[n], s[i])
    {
      LessAsymmetric(if n < i then s[n] else s[i], if n < i then s[i] else s[n]);
    }
  }

  lemma BehindUnion(forwards: bool, k: Bytestring, r: set<Bytestring>, q: set<Bytestring>)
    requires r !! q
    ensures Behind(forwards, k, r) !! Behind(forwards, k, q)
    ensures Behind(forwards, k, r) + Behind(forwards, k, q) == Behind(forwards, k, r + q)
  {
    hide Less;
  }

  lemma BehindHides(forwards: bool, k: Bytestring, r: set<Bytestring>, hidden: set<Bytestring>)
    ensures Behind(forwards, k, r) - hidden == Behind(forwards, k, r - hidden)
  {
    hide Less;
  }

  lemma NotBehind(forwards: bool, k: Bytestring, o: Bytestring, r: set<Bytestring>)
    requires Before(forwards, k, o)
    ensures !NextOrNone(!forwards, true, o, Behind(forwards, k, r))
  {
    hide Less;
    LessAsymmetric(if forwards then k else o, if forwards then o else k);
  }

  /** k is the key that comes next in the set, if there is one. */
  ghost predicate NextOrNone(forwards: bool, found: bool, k: Bytestring, r: set<Bytestring>) {
    if found then IsNext(forwards, k, r) else r == {}
  }

  /** Every key of q lies behind one of r. */
  ghost predicate Covered(forwards: bool, q: set<Bytestring>, r: set<Bytestring>) {
    forall x :: x in q ==> exists y :: y in r && Before(forwards, y, x)
  }

  /** What comes next in r comes next in r + q exactly if nothing of q comes before it. */
  lemma NextCovers(forwards: bool, found: bool, k: Bytestring, r: set<Bytestring>, q: set<Bytestring>)
    requires NextOrNone(forwards, found, k, r) && r !! q
    ensures NextOrNone(forwards, found, k, r + q) <==> Covered(forwards, q, r)
  {
    hide Less;
    if found {
      if Covered(forwards, q, r) {
        forall x | x in q
          ensures Before(forwards, k, x)
        {
          var y :| y in r && Before(forwards, y, x);
          if y != k {
            LessTransitive(if forwards then k else x, y, if forwards then x else k);
          }
        }
      }
    } else {
      assert r + q == q;
    }
  }

  /** A range of keys: start inclusive, limit exclusive, no limit when that is empty. */
  predicate InRange(k: Bytestring, start: Bytestring, limit: Bytestring) {
    !Less(k, start) && (limit == [] || Less(k, limit))
  }

  ghost predicate KeysInRange(s: seq<Bytestring>, keys: set<Bytestring>, start: Bytestring, limit: Bytestring) {
    Ascending(s) && forall k :: k in All(s) <==> k in keys && InRange(k, start, limit)
  }

  /** NewIterator over a snapshot: its visible keys are those of the snapshot's view in range. */
  method NewIterator(snap: Snapshot, start: Bytestring, limit: Bytestring, dbSlice: seq<Bytestring>, cacheSlice: seq<Bytestring>)
    returns (iter: MergedIterator)
    requires snap.Valid()
    requires KeysInRange(dbSlice, snap.db.Keys, start, limit)
    requires KeysInRange(cacheSlice, snap.pendingKeys.Keys, start, limit)
    ensures fresh(iter) && iter.Sound() && iter.current == Nothing
    ensures forall k :: k in iter.Visible() <==> k in snap.Contents() && InRange(k, start, limit)
  {
    hide Less, Ascending;
    iter := new MergedIterator(dbSlice, cacheSlice, snap.pendingKeys.Keys, snap.pendingRemove);
  }

  /** Turning round is not supported: one step forward and one back from [1] leads to [3], although
  [1] is the visible key before [2]. */
  method TurnBack() returns (first: Bytestring, second: Bytestring, third: Bytestring)
    ensures first == [1] && second == [2] && third == [3]
  {
    var one: Bytestring, two: Bytestring, three: Bytestring := [1], [2], [3];
    var iter := new MergedIterator([one, three], [two], {two}, {});
    hide Rest, IsNext, Ascending, MergedIterator.Running, MergedIterator.Pending;
    var found := iter.First();
    first := iter.Key();
    found := iter.Step(true);
    second := iter.Key();
    found := iter.Step(false);
    third := iter.Key();
  }
}
