/**
 * The database wrapper's read cache: what a cached read returns while the database file
 * is out of reach, and when that can be stale.
 */
module ReadCache {
  import opened Options
  import opened ObjectForest
  import ObjectNodes

  /** What a write function did: it may throw, and may have changed the data before it threw. */
  datatype WriteEffect<Db, T> = WriteEffect(db: Db, result: Option<T>)

  /** Every cached entry is what its key's query gives on the data. */
  ghost predicate Coherent<Db(!new), T>(queries: (string, Db) -> seq<T>, db: Db, cache: map<string, seq<T>>) {
    forall key | key in cache :: cache[key] == queries(key, db)
  }

  // ---------------------------------------------------------------- specification

  /** A call on the wrapper and what the file system says during it. */
  datatype Call<Db> =
    | Read(key: string, reachable: bool, fails: bool)
    | Write(after: Db, throws: bool, reachable: bool)
    | Clear
    | Close

  datatype Store<Db, T> = Store(db: Db, open: bool, cache: map<string, seq<T>>)

  ghost function Step<Db(!new), T>(queries: (string, Db) -> seq<T>, s: Store<Db, T>, c: Call<Db>): Store<Db, T> {
    match c
    case Read(key, reachable, fails) =>
      if s.open && reachable && !fails then s.(cache := s.cache[key := queries(key, s.db)]) else s
    case Write(after, throws, reachable) =>
      if !s.open || !reachable then s else s.(db := after, cache := if throws then s.cache else map[])
    case Clear => s.(cache := map[])
    case Close => s.(open := false)
  }

  /** What a read returns in a state; `None` is the error "unavailable". */
  ghost function Answer<Db(!new), T>(queries: (string, Db) -> seq<T>, s: Store<Db, T>, c: Call<Db>): Option<seq<T>>
    requires c.Read?
  {
    if s.open && c.reachable && !c.fails then Some(queries(c.key, s.db))
    else if c.key in s.cache then Some(s.cache[c.key])
    else None
  }

  // ---------------------------------------------------------------- the wrapper

  class Database<Db(!new), T> {
    /** The query behind each cache key. */
    ghost const queries: (string, Db) -> seq<T>
    /** The contents of the database file. */
    var db: Db
    var open: bool
    var accessible: bool
    var cache: map<string, seq<T>>

    ghost predicate Valid()
      reads this
    {
      Coherent(queries, db, cache)
    }

    ghost function View(): Store<Db, T>
      reads this
    {
      Store(db, open, cache)
    }

    constructor (db: Db, ghost queries: (string, Db) -> seq<T>)
      ensures Valid() && this.db == db && this.queries == queries && cache == map[] && open && accessible
    {
      this.db, this.queries, cache := db, queries, map[];
      open, accessible := true, true;
    }

    /** The probe `SELECT 1`; `reachable` is what the file system says at this moment. */
    method IsAccessible(reachable: bool) returns (yes: bool)
      modifies this`accessible
      ensures yes == accessible == (open && reachable)
    {
      accessible := open && reachable;
      return accessible;
    }

    /** An uncached statement goes wrong: there is no connection to be had, or it throws. */
    predicate Misses(fails: bool)
      reads this`open, this`accessible
    {
      !open || !accessible || fails
    }

    /** The connection for uncached statements; `None` is the error "unavailable". */
    method GetConnection() returns (r: Option<Db>)
      ensures r == if open && accessible then Some(db) else None
    {
      return if !open || !accessible then None else Some(db);
    }

    /**
     * A lookup that takes its own connection and catches whatever is thrown, as the mapping
     * checks do: it may miss a row that is there, but finds none that is not.
     */
    method LookUp<R>(query: Db -> Option<R>, fails: bool) returns (r: Option<R>)
      ensures r == None || r == query(db)
      ensures r == query(db) <==> query(db) == None || !Misses(fails)
    {
      var connection := GetConnection();
      if connection.None? || fails {
        return None;
      }
      return query(connection.value);
    }

    /** `readWithCache`; `fails` says that the query itself throws, and `None` is the error thrown. */
    method ReadWithCache(cacheKey: string, queryFn: Db -> seq<T>, reachable: bool, fails: bool)
        returns (r: Option<seq<T>>)
      requires Valid() && forall d :: queryFn(d) == queries(cacheKey, d)
      modifies this`accessible, this`cache
      ensures Valid() && View() == Step(queries, old(View()), Call<Db>.Read(cacheKey, reachable, fails))
      ensures r == Answer(queries, old(View()), Call<Db>.Read(cacheKey, reachable, fails))
      ensures r.Some? ==> r.value == queries(cacheKey, db)
      ensures accessible == (open && reachable)
    {
      var yes := IsAccessible(reachable);
      if yes && !fails {
        var result := queryFn(db);
        cache := cache[cacheKey := result];
        return Some(result);
      }
      if cacheKey in cache {
        return Some(cache[cacheKey]);
      }
      return None;
    }

    /** `write`; `thrown` covers both the unavailable error and what the write function throws. */
    method Write<R>(writeFn: Db -> WriteEffect<Db, R>, reachable: bool) returns (r: Option<R>)
      requires Valid()
      modifies this`accessible, this`db, this`cache
      ensures r.Some? <==> open && reachable && writeFn(old(db)).result.Some?
      ensures r.Some? ==> r == writeFn(old(db)).result
      ensures var effect := writeFn(old(db));
        View() == Step(queries, old(View()), Call.Write(effect.db, effect.result.None?, reachable))
      // a write that throws keeps the cache right exactly when it left every cached query's answer alone
      ensures Valid() <==> r.Some? || forall key | key in cache :: queries(key, db) == queries(key, old(db))
    {
      var yes := IsAccessible(reachable);
      if !yes {
        return None;
      }
      var effect := writeFn(db);
      db := effect.db;
      if effect.result.None? {
        return None;
      }
      ClearCache();
      return effect.result;
    }

    method ClearCache()
      modifies this`cache
      ensures Valid() && View() == Step(queries, old(View()), Call<Db>.Clear)
    {
      cache := map[];
    }

    method Close()
      requires Valid()
      modifies this`open, this`accessible
      ensures Valid() && View() == Step(queries, old(View()), Call<Db>.Close) && !accessible
    {
      open, accessible := false, false;
    }
  }

  // ---------------------------------------------------------------- every run

  /** Every answer given during the run is what its query gives on the data of that moment. */
  ghost predicate AnswersRight<Db(!new), T>(queries: (string, Db) -> seq<T>, s: Store<Db, T>, cs: seq<Call<Db>>)
    decreases |cs|
  {
    cs == [] ||
    (&& (cs[0].Read? && Answer(queries, s, cs[0]).Some? ==>
          Answer(queries, s, cs[0]).value == queries(cs[0].key, s.db))
     && AnswersRight(queries, Step(queries, s, cs[0]), cs[1..]))
  }

  /** No write throws after it has changed the data. */
  ghost predicate CleanThrows<Db(!new), T>(queries: (string, Db) -> seq<T>, s: Store<Db, T>, cs: seq<Call<Db>>)
    decreases |cs|
  {
    cs == [] ||
    (&& (cs[0].Write? && cs[0].throws ==> cs[0].after == s.db)
     && CleanThrows(queries, Step(queries, s, cs[0]), cs[1..]))
  }

  /** In every such run, from an empty cache, cached reads are never stale. */
  lemma {:induction false} CachedReadsAreFresh<Db(!new), T>(queries: (string, Db) -> seq<T>, s: Store<Db, T>,
                                                            cs: seq<Call<Db>>)
    requires Coherent(queries, s.db, s.cache) && CleanThrows(queries, s, cs)
    ensures AnswersRight(queries, s, cs)
    decreases |cs|
  {
    if cs != [] {
      CachedReadsAreFresh(queries, Step(queries, s, cs[0]), cs[1..]);
    }
  }

  /** The cache is right in every state of the run. */
  ghost predicate CoherentRun<Db(!new), T>(queries: (string, Db) -> seq<T>, s: Store<Db, T>, cs: seq<Call<Db>>)
    decreases |cs|
  {
    Coherent(queries, s.db, s.cache) && (cs != [] ==> CoherentRun(queries, Step(queries, s, cs[0]), cs[1..]))
  }

  /** A write that throws may have changed the data, but not the answer of a cached query. */
  ghost predicate HarmlessThrows<Db(!new), T>(queries: (string, Db) -> seq<T>, s: Store<Db, T>, cs: seq<Call<Db>>)
    decreases |cs|
  {
    cs != [] ==>
      && (cs[0].Write? && cs[0].throws && s.open && cs[0].reachable ==>
            forall key | key in s.cache :: queries(key, cs[0].after) == queries(key, s.db))
      && HarmlessThrows(queries, Step(queries, s, cs[0]), cs[1..])
  }

  /** The cache stays right if and only if no throwing write changes a cached answer; then every answer is right. */
  lemma {:induction false} CacheStaysRightIff<Db(!new), T>(queries: (string, Db) -> seq<T>, s: Store<Db, T>,
                                                           cs: seq<Call<Db>>)
    requires Coherent(queries, s.db, s.cache)
    ensures CoherentRun(queries, s, cs) <==> HarmlessThrows(queries, s, cs)
    ensures CoherentRun(queries, s, cs) ==> AnswersRight(queries, s, cs)
    decreases |cs|
  {
    if cs != [] {
      var t := Step(queries, s, cs[0]);
      if Coherent(queries, t.db, t.cache) {
        CacheStaysRightIff(queries, t, cs[1..]);
      } else {
        var key :| key in t.cache && t.cache[key] != queries(key, t.db);
        assert key in s.cache && s.cache[key] == queries(key, s.db);
      }
    }
  }

  /** A read that reaches the database answers from it and sets its entry right, even where the cache was wrong. */
  lemma ReachingReadHeals<Db(!new), T>(queries: (string, Db) -> seq<T>, s: Store<Db, T>, key: string)
    requires s.open
    ensures var r := Read(key, true, false);
      && Answer(queries, s, r) == Some(queries(key, s.db))
      && var t := Step(queries, s, r);
         && key in t.cache && t.cache[key] == queries(key, s.db) && t.db == s.db && t.open
         && forall k | k != key :: k in t.cache <==> k in s.cache
  {
  }

  /** A read that does not reach it changes nothing, and answers what was last cached under its key, if anything. */
  lemma CutOffRead<Db(!new), T>(queries: (string, Db) -> seq<T>, s: Store<Db, T>, key: string,
                                reachable: bool, fails: bool)
    requires !s.open || !reachable || fails
    ensures var r := Read(key, reachable, fails);
      && Step(queries, s, r) == s
      && (Answer(queries, s, r).Some? <==> key in s.cache)
      && (key in s.cache ==> Answer(queries, s, r).value == s.cache[key])
  {
  }

  /** A write that reaches the database leaves its data; only one that does not throw empties the cache. */
  lemma WritesAre<Db(!new), T>(queries: (string, Db) -> seq<T>, s: Store<Db, T>, after: Db, throws: bool)
    requires s.open
    ensures Step(queries, s, Call.Write(after, throws, true)) == Store(after, true, if throws then s.cache else map[])
    ensures Step(queries, s, Call.Write(after, throws, false)) == s
  {
  }

  // ---------------------------------------------------------------- a write that does not throw cleanly

  /** The two tables an object-node delete touches. */
  datatype Tables = Tables(objectNodes: ObjectNodes.Table, nodes: map<Id, ObjectNodes.Variable>)

  /** The cached answer to "where is variable `v`?", whatever the key. */
  function PlaceOf(v: Id): (string, Tables) -> seq<Option<Id>> {
    (key: string, t: Tables) => if v in t.nodes then [t.nodes[v].objectNode] else []
  }

  /**
   * An object-node delete that fails on the UNIQUE constraint has already moved the
   * node's variables, and throws before the cache is cleared: the next read that cannot
   * reach the database answers with the old place.
   */
  lemma FailedDeleteLeavesStaleRead(t: Tables, id: Id, v: Id, key: string)
    requires ObjectNodes.Forest(t.objectNodes) && id in t.objectNodes
    requires !ObjectNodes.CanMoveUp(t.objectNodes, id)
    requires v in t.nodes && t.nodes[v].objectNode == Some(id)
    ensures var moved := t.(nodes := ObjectNodes.MoveVariables(t.nodes, id, t.objectNodes[id].parent));
      var calls := [Read(key, true, false), Write(moved, true, true), Read(key, false, false)];
      !AnswersRight(PlaceOf(v), Store(t, true, map[]), calls)
  {
    var q := PlaceOf(v);
    var moved := t.(nodes := ObjectNodes.MoveVariables(t.nodes, id, t.objectNodes[id].parent));
    var r0, w, r1 := Read(key, true, false), Write(moved, true, true), Read(key, false, false);
    var calls := [r0, w, r1];
    ObjectNodes.NoSelfParent(t.objectNodes, id);
    var s0 := Store(t, true, map[]);
    var s1 := Step(q, s0, r0);
    var s2 := Step(q, s1, w);
    assert calls[1..] == [w, r1] && [w, r1][1..] == [r1];
    assert Answer(q, s2, r1) == Some([Some(id)]);
    assert q(key, s2.db) == [t.objectNodes[id].parent];
    assert !AnswersRight(q, s2, [r1]);
  }
}
