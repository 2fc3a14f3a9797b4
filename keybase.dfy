/**
 * The `Keybase` facade of `keybase.go`: hard-wired statements (every read
 * demands `expiration > timestamp`, and `unique` picks the DISTINCT twin),
 * the table as the `log` field of the store, and the two helpers that turn
 * rows into a count or a list of keys.
 */
module Keybase {
  import opened Wrappers
  import opened Table
  import opened Driver
  import Glob
  import Like

  /** The default TTL of ten seconds, in milliseconds. */
  const DefaultTtl: int := 10000

  // ---------------------------------------------------------------------------
  // The statement constants, with their placeholders as parameters.

  function PutStatement(namespace: string, key: string, expiration: int): Command {
    Insert(Entry(namespace, key, expiration))
  }

  function MatchKeyStatement(namespace: string, pattern: string, unique: bool, timestamp: int): Select {
    Select(unique, SelectColumn(KeyColumn), [NamespaceEq(namespace), KeyLike(pattern), ExpirationGt(timestamp)])
  }

  function CountKeyStatement(namespace: string, key: string, timestamp: int): Select {
    Select(false, CountStar, [NamespaceEq(namespace), KeyEq(key), ExpirationGt(timestamp)])
  }

  function GetKeysStatement(namespace: string, unique: bool, timestamp: int): Select {
    Select(unique, SelectColumn(KeyColumn), [NamespaceEq(namespace), ExpirationGt(timestamp)])
  }

  function CountKeysStatement(namespace: string, unique: bool, timestamp: int): Select {
    Select(false, if unique then CountDistinctColumn(KeyColumn) else CountColumn(KeyColumn),
      [NamespaceEq(namespace), ExpirationGt(timestamp)])
  }

  function GetNamespacesStatement(timestamp: int): Select {
    Select(true, SelectColumn(NamespaceColumn), [ExpirationGt(timestamp)])
  }

  function CountNamespacesStatement(timestamp: int): Select {
    Select(false, CountDistinctColumn(NamespaceColumn), [ExpirationGt(timestamp)])
  }

  function CountEntriesStatement(unique: bool, timestamp: int): Select {
    Select(false, if unique then CountDistinctColumn(NamespaceKeyColumn) else CountStar, [ExpirationGt(timestamp)])
  }

  function PruneEntriesStatement(timestamp: int): Command {
    Delete([ExpirationLe(timestamp)])
  }

  // ---------------------------------------------------------------------------
  // Row helpers.

  /** `queryCount`: the integer in the first row; -1 when there is no row and alongside any error. */
  method QueryCount(response: Response) returns (count: int, err: Option<Error>)
    ensures response.Failed? ==> count == -1 && err == Some(response.error)
    ensures response.Rows? && response.rows == [] ==> count == -1 && err == None
    ensures response.Rows? && response.rows != [] && ScanInt(response.rows[0]).Some? ==>
      count == ScanInt(response.rows[0]).value && err == None
    ensures response.Rows? && response.rows != [] && ScanInt(response.rows[0]).None? ==>
      count == -1 && err == Some(ScanError)
  {
    count := -1;
    if response.Failed? {
      return count, Some(response.error);
    }
    if response.rows != [] {
      var scanned := ScanInt(response.rows[0]);
      if scanned.None? {
        return count, Some(ScanError);
      }
      count := scanned.value;
    }
    return count, None;
  }

  /**
   * `queryKeys`: one string per row, in row order; a failed query, or the
   * first row that is not a single column, gives no keys and an error.
   */
  method QueryKeys(response: Response) returns (r: Result<seq<string>, Error>)
    ensures response.Failed? ==> r == Failure(response.error)
    ensures response.Rows? ==> (r.Success? <==> forall i :: 0 <= i < |response.rows| ==> |response.rows[i]| == 1)
    ensures response.Rows? && r.Success? ==> |r.value| == |response.rows|
    ensures response.Rows? && r.Success? ==>
      forall i :: 0 <= i < |response.rows| ==> ScanText(response.rows[i]) == Some(r.value[i])
    ensures response.Rows? && r.Failure? ==> r.error == ScanError
  {
    if response.Failed? {
      return Failure(response.error);
    }
    var rows := response.rows;
    var keys: seq<string> := [];
    for i := 0 to |rows|
      invariant |keys| == i
      invariant forall j :: 0 <= j < i ==> ScanText(rows[j]) == Some(keys[j])
    {
      var key := ScanText(rows[i]);
      if key.None? {
        return Failure(ScanError);
      }
      keys := keys + [key.value];
    }
    return Success(keys);
  }

  /** The engine's value rows scan back into exactly the values. */
  lemma ScannedValues(vs: seq<string>, got: seq<string>)
    requires |got| == |vs|
    requires forall i :: 0 <= i < |vs| ==> ScanText(AsRows(Values(vs))[i]) == Some(got[i])
    ensures got == vs
  {
    forall i | 0 <= i < |vs| ensures got[i] == vs[i] {
      assert ScanText(AsRows(Values(vs))[i]) == Some(vs[i]);
    }
  }

  // ---------------------------------------------------------------------------
  // The store.

  class Keybase {
    /** The table, in insertion order. */
    var log: seq<Entry>
    /** The TTL in milliseconds, fixed when the store is opened. */
    const ttl: int

    /** A fresh in-memory store. */
    constructor (ttl: int)
      ensures this.ttl == ttl && log == []
    {
      this.ttl := ttl;
      log := [];
    }

    /** A fresh in-memory store opened without options: the default TTL. */
    constructor Open()
      ensures ttl == DefaultTtl && log == []
    {
      ttl := DefaultTtl;
      log := [];
    }

    /** Appends one hit expiring at `now + ttl`; on an engine error nothing changes. */
    method Put(ctx: Context, now: int, namespace: string, key: string) returns (err: Option<Error>)
      modifies this
      ensures err.None? <==> ctx.Pending?
      ensures log == if err.None? then old(log) + [Entry(namespace, key, now + ttl)] else old(log)
    {
      var outcome := Exec(ctx, PutStatement(namespace, key, now + ttl), log);
      if outcome.Failure? {
        return Some(outcome.error);
      }
      log := outcome.value;
      return None;
    }

    /** The keys of `namespace` live at `now` that match `pattern`, with only `*` rewritten. */
    method MatchKey(ctx: Context, now: int, namespace: string, pattern: string, unique: bool)
      returns (r: Result<seq<string>, Error>)
      ensures r.Success? <==> ctx.Pending?
      ensures r.Success? ==>
        r.value == Eval(MatchKeyStatement(namespace, Glob.KeybasePattern(pattern), unique, now), log).values
    {
      var q := MatchKeyStatement(namespace, Glob.KeybasePattern(pattern), unique, now);
      r := QueryKeys(Query(ctx, q, log));
      if r.Success? {
        ScannedValues(Eval(q, log).values, r.value);
      }
    }

    /** How many live hits `key` has in `namespace`; -1 with an error. */
    method CountKey(ctx: Context, now: int, namespace: string, key: string) returns (count: int, err: Option<Error>)
      ensures err.None? <==> ctx.Pending?
      ensures err.Some? ==> count == -1
      ensures err.None? ==> Number(count) == Eval(CountKeyStatement(namespace, key, now), log)
    {
      count, err := QueryCount(Query(ctx, CountKeyStatement(namespace, key, now), log));
      if err.Some? {
        return -1, err;
      }
    }

    /** The keys of `namespace` live at `now`, deduplicated when `unique`. */
    method GetKeys(ctx: Context, now: int, namespace: string, unique: bool) returns (r: Result<seq<string>, Error>)
      ensures r.Success? <==> ctx.Pending?
      ensures r.Success? ==> r.value == Eval(GetKeysStatement(namespace, unique, now), log).values
    {
      var q := GetKeysStatement(namespace, unique, now);
      r := QueryKeys(Query(ctx, q, log));
      if r.Success? {
        ScannedValues(Eval(q, log).values, r.value);
      }
    }

    /** How many live keys `namespace` holds, counting repeats unless `unique`; -1 with an error. */
    method CountKeys(ctx: Context, now: int, namespace: string, unique: bool) returns (count: int, err: Option<Error>)
      ensures err.None? <==> ctx.Pending?
      ensures err.Some? ==> count == -1
      ensures err.None? ==> Number(count) == Eval(CountKeysStatement(namespace, unique, now), log)
    {
      count, err := QueryCount(Query(ctx, CountKeysStatement(namespace, unique, now), log));
      if err.Some? {
        return -1, err;
      }
    }

    /** The namespaces with a live entry at `now`, each once. */
    method GetNamespaces(ctx: Context, now: int) returns (r: Result<seq<string>, Error>)
      ensures r.Success? <==> ctx.Pending?
      ensures r.Success? ==> r.value == Eval(GetNamespacesStatement(now), log).values
    {
      var q := GetNamespacesStatement(now);
      r := QueryKeys(Query(ctx, q, log));
      if r.Success? {
        ScannedValues(Eval(q, log).values, r.value);
      }
    }

    /** How many namespaces hold a live entry at `now`; -1 with an error. */
    method CountNamespaces(ctx: Context, now: int) returns (count: int, err: Option<Error>)
      ensures err.None? <==> ctx.Pending?
      ensures err.Some? ==> count == -1
      ensures err.None? ==> Number(count) == Eval(CountNamespacesStatement(now), log)
    {
      count, err := QueryCount(Query(ctx, CountNamespacesStatement(now), log));
      if err.Some? {
        return -1, err;
      }
    }

    /** How many live entries the store holds, or how many distinct `namespace + key` strings; -1 with an error. */
    method CountEntries(ctx: Context, now: int, unique: bool) returns (count: int, err: Option<Error>)
      ensures err.None? <==> ctx.Pending?
      ensures err.Some? ==> count == -1
      ensures err.None? ==> Number(count) == Eval(CountEntriesStatement(unique, now), log)
    {
      count, err := QueryCount(Query(ctx, CountEntriesStatement(unique, now), log));
      if err.Some? {
        return -1, err;
      }
    }

    /** Deletes every entry expiring at or before `now + ttl`; on an engine error nothing changes. */
    method PruneEntries(ctx: Context, now: int) returns (err: Option<Error>)
      modifies this
      ensures err.None? <==> ctx.Pending?
      ensures log == if err.None? then Remove(old(log), [ExpirationLe(now + ttl)]) else old(log)
    {
      var outcome := Exec(ctx, PruneEntriesStatement(now + ttl), log);
      if outcome.Failure? {
        return Some(outcome.error);
      }
      log := outcome.value;
      return None;
    }
  }

  // ---------------------------------------------------------------------------
  // What the facade's operations promise.

  /**
   * A put adds one hit to the count of its own key when it is live at the
   * reading timestamp, and changes no other key's count.
   */
  lemma PutCountsOnce(log: seq<Entry>, namespace: string, key: string, expiration: int, timestamp: int)
    ensures Eval(CountKeyStatement(namespace, key, timestamp), Apply(PutStatement(namespace, key, expiration), log)).number ==
      Eval(CountKeyStatement(namespace, key, timestamp), log).number + (if expiration > timestamp then 1 else 0)
    ensures forall ns, k | ns != namespace || k != key ::
      Eval(CountKeyStatement(ns, k, timestamp), Apply(PutStatement(namespace, key, expiration), log)) ==
      Eval(CountKeyStatement(ns, k, timestamp), log)
  {
    var e := Entry(namespace, key, expiration);
    CountKeySnoc(log, e, namespace, key, timestamp);
    forall ns, k | ns != namespace || k != key
      ensures Eval(CountKeyStatement(ns, k, timestamp), log + [e]) == Eval(CountKeyStatement(ns, k, timestamp), log)
    {
      CountKeySnoc(log, e, ns, k, timestamp);
    }
  }

  /** Appending one entry raises one count by one, when the entry is a live hit of that key. */
  lemma CountKeySnoc(log: seq<Entry>, e: Entry, namespace: string, key: string, timestamp: int)
    ensures Eval(CountKeyStatement(namespace, key, timestamp), log + [e]).number ==
      Eval(CountKeyStatement(namespace, key, timestamp), log).number +
      (if e.namespace == namespace && e.key == key && e.expiration > timestamp then 1 else 0)
  {
    FilterSnoc(log, e, CountKeyStatement(namespace, key, timestamp).where);
    SatisfiesTriple(e, NamespaceEq(namespace), KeyEq(key), ExpirationGt(timestamp));
  }

  /** Two puts of the same key into an empty store, read before they expire, count 2. */
  lemma TwoPutsCountTwo(namespace: string, key: string, now: int, ttl: int)
    requires ttl > 0
    ensures var e := Entry(namespace, key, now + ttl);
      Eval(CountKeyStatement(namespace, key, now), [e, e]) == Number(2)
  {
    var e := Entry(namespace, key, now + ttl);
    PutCountsOnce([], namespace, key, now + ttl, now);
    PutCountsOnce([e], namespace, key, now + ttl, now);
    assert [] + [e] == [e] && [e] + [e] == [e, e];
  }

  /**
   * Appending entries of other namespaces changes no namespace-scoped read:
   * `MatchKey`, `CountKey`, `GetKeys` and `CountKeys` see only their own
   * namespace.
   */
  lemma NamespaceIsolation(log: seq<Entry>, extra: seq<Entry>, namespace: string, key: string, pattern: string,
                           unique: bool, timestamp: int)
    requires forall e :: e in extra ==> e.namespace != namespace
    ensures Eval(MatchKeyStatement(namespace, pattern, unique, timestamp), log + extra) ==
      Eval(MatchKeyStatement(namespace, pattern, unique, timestamp), log)
    ensures Eval(CountKeyStatement(namespace, key, timestamp), log + extra) ==
      Eval(CountKeyStatement(namespace, key, timestamp), log)
    ensures Eval(GetKeysStatement(namespace, unique, timestamp), log + extra) ==
      Eval(GetKeysStatement(namespace, unique, timestamp), log)
    ensures Eval(CountKeysStatement(namespace, unique, timestamp), log + extra) ==
      Eval(CountKeysStatement(namespace, unique, timestamp), log)
  {
    EvalScoped(MatchKeyStatement(namespace, pattern, unique, timestamp), log, extra, namespace);
    EvalScoped(CountKeyStatement(namespace, key, timestamp), log, extra, namespace);
    EvalScoped(GetKeysStatement(namespace, unique, timestamp), log, extra, namespace);
    EvalScoped(CountKeysStatement(namespace, unique, timestamp), log, extra, namespace);
  }

  /** MatchKey's selection is GetKeys' selection filtered by the pattern. */
  lemma MatchKeyFilter(log: seq<Entry>, namespace: string, pattern: string, unique: bool, timestamp: int)
    ensures Filter(log, MatchKeyStatement(namespace, pattern, unique, timestamp).where) ==
      Filter(Filter(log, GetKeysStatement(namespace, unique, timestamp).where), [KeyLike(pattern)])
  {
    var wm := [NamespaceEq(namespace), KeyLike(pattern), ExpirationGt(timestamp)];
    var wg := [NamespaceEq(namespace), ExpirationGt(timestamp)];
    forall e ensures Satisfies(e, wm) <==> Satisfies(e, wg) && Satisfies(e, [KeyLike(pattern)]) {
      SatisfiesSingle(e, KeyLike(pattern));
      SatisfiesPair(e, NamespaceEq(namespace), ExpirationGt(timestamp));
      SatisfiesTriple(e, NamespaceEq(namespace), KeyLike(pattern), ExpirationGt(timestamp));
    }
    FilterFilter(log, wg, [KeyLike(pattern)], wm);
  }

  /**
   * `MatchKey` narrows `GetKeys`: with or without `unique`, the keys it
   * returns form a sub-multiset of the keys `GetKeys` returns.
   */
  lemma MatchKeyWithinGetKeys(log: seq<Entry>, namespace: string, glob: string, unique: bool, timestamp: int)
    ensures multiset(Eval(MatchKeyStatement(namespace, Glob.KeybasePattern(glob), unique, timestamp), log).values) <=
      multiset(Eval(GetKeysStatement(namespace, unique, timestamp), log).values)
  {
    var p := Glob.KeybasePattern(glob);
    MatchKeyFilter(log, namespace, p, unique, timestamp);
    var live := Filter(log, GetKeysStatement(namespace, unique, timestamp).where);
    if unique {
      MatchKeyMembers(log, namespace, glob, unique, timestamp);
      var matched := Distinct(Project(Filter(live, [KeyLike(p)]), KeyColumn));
      var all := Distinct(Project(live, KeyColumn));
      NoDuplicatesSubMultiset(matched, all);
    } else {
      FilterSubMultiset(live, [KeyLike(p)], KeyColumn);
    }
  }

  /**
   * With or without `unique`, every key `MatchKey` returns matches the
   * pattern and is one that `GetKeys` returns.
   */
  lemma MatchKeyMembers(log: seq<Entry>, namespace: string, glob: string, unique: bool, timestamp: int)
    ensures forall k :: k in Eval(MatchKeyStatement(namespace, Glob.KeybasePattern(glob), unique, timestamp), log).values ==>
      Like.Matches(k, Glob.KeybasePattern(glob)) && k in Eval(GetKeysStatement(namespace, unique, timestamp), log).values
  {
    var p := Glob.KeybasePattern(glob);
    MatchKeyFilter(log, namespace, p, unique, timestamp);
    var live := Filter(log, GetKeysStatement(namespace, unique, timestamp).where);
    var matched := Filter(log, MatchKeyStatement(namespace, p, unique, timestamp).where);
    forall k | k in Project(matched, KeyColumn)
      ensures Like.Matches(k, p) && k in Project(live, KeyColumn)
    {
      var i :| 0 <= i < |matched| && Project(matched, KeyColumn)[i] == k;
      var e := matched[i];
      assert e in live && Satisfies(e, [KeyLike(p)]);
      SatisfiesSingle(e, KeyLike(p));
      var j :| 0 <= j < |live| && live[j] == e;
      assert Project(live, KeyColumn)[j] == k;
    }
  }

  /**
   * The facade's prune at `now` deletes exactly the entries expiring at or
   * before `now + ttl`: the survivors are every later-expiring entry, each
   * occurrence kept, in their old order. With a non-negative TTL no entry
   * that has already expired at `now` survives.
   */
  lemma PruneMeaning(log: seq<Entry>, now: int, ttl: int) returns (idx: seq<int>)
    ensures Apply(PruneEntriesStatement(now + ttl), log) == Live(log, now + ttl)
    ensures |Apply(PruneEntriesStatement(now + ttl), log)| == |set i | 0 <= i < |log| && log[i].expiration > now + ttl|
    ensures var kept := Apply(PruneEntriesStatement(now + ttl), log);
      forall e :: e in kept <==> e in log && e.expiration > now + ttl
    ensures var kept := Apply(PruneEntriesStatement(now + ttl), log);
      ttl >= 0 ==> forall e :: e in kept ==> e.expiration > now
    ensures var kept := Apply(PruneEntriesStatement(now + ttl), log);
      |idx| == |kept| && (forall k :: 0 <= k < |idx| ==> 0 <= idx[k] < |log| && kept[k] == log[idx[k]]) &&
      forall k, l :: 0 <= k < l < |idx| ==> idx[k] < idx[l]
  {
    var t := now + ttl;
    forall e ensures Satisfies(e, [ExpirationGt(t)]) <==> !Satisfies(e, [ExpirationLe(t)]) {
      SatisfiesSingle(e, ExpirationGt(t));
      SatisfiesSingle(e, ExpirationLe(t));
    }
    RemoveIsComplement(log, [ExpirationLe(t)], [ExpirationGt(t)]);
    forall e ensures Satisfies(e, [ExpirationLe(t)]) <==> e.expiration <= t {
      SatisfiesSingle(e, ExpirationLe(t));
    }
    idx := FilterKeepsOrder(log, [ExpirationGt(t)]);
    FilterSize(log, [ExpirationGt(t)]);
    assert Positions(log, [ExpirationGt(t)]) == set i | 0 <= i < |log| && log[i].expiration > t;
  }

  /**
   * With a positive TTL, the facade's prune deletes an entry put at the same
   * instant, although `CountKey` at that instant still counts it as live.
   */
  lemma PruneDeletesLivePut(log: seq<Entry>, namespace: string, key: string, now: int, ttl: int)
    requires ttl > 0
    ensures var stored := Apply(PutStatement(namespace, key, now + ttl), log);
      Eval(CountKeyStatement(namespace, key, now), stored).number ==
        Eval(CountKeyStatement(namespace, key, now), log).number + 1 &&
      Entry(namespace, key, now + ttl) !in Apply(PruneEntriesStatement(now + ttl), stored)
  {
    PutCountsOnce(log, namespace, key, now + ttl, now);
    var stored := log + [Entry(namespace, key, now + ttl)];
    SatisfiesSingle(Entry(namespace, key, now + ttl), ExpirationLe(now + ttl));
  }

  // ---------------------------------------------------------------------------
  // Worked examples.

  /** Three live hits `key0, key0, key1` in the namespace "default". */
  function DefaultHits(expiration: int): seq<Entry> {
    [Entry("default", "key0", expiration), Entry("default", "key0", expiration), Entry("default", "key1", expiration)]
  }

  /** The same hits followed by a hit of `key0` in another namespace. */
  function KeyHits(expiration: int): seq<Entry> {
    DefaultHits(expiration) + [Entry("othernamespace", "key0", expiration)]
  }

  /** All of `DefaultHits` is live in "default", and its keys are `key0, key0, key1`. */
  lemma DefaultKeys(expiration: int, timestamp: int, unique: bool)
    requires expiration > timestamp
    ensures Filter(DefaultHits(expiration), GetKeysStatement("default", unique, timestamp).where) == DefaultHits(expiration)
    ensures Project(DefaultHits(expiration), KeyColumn) == ["key0", "key0", "key1"]
  {
    var mine := DefaultHits(expiration);
    var w := GetKeysStatement("default", unique, timestamp).where;
    forall e | e in mine ensures Satisfies(e, w) {
      SatisfiesPair(e, NamespaceEq("default"), ExpirationGt(timestamp));
    }
    FilterAll(mine, w);
  }

  lemma DistinctKeys()
    ensures Distinct(["key0", "key0", "key1"]) == ["key0", "key1"]
  {
    assert ["key0", "key0", "key1"][..2] == ["key0", "key0"];
    assert ["key0", "key0"][..1] == ["key0"];
    assert ["key0"][..0] == [];
    assert Distinct(["key0"]) == ["key0"];
    assert Distinct(["key0", "key0"]) == ["key0"];
  }

  /** `GetKeys` and `CountKeys` over `KeyHits`: three keys, two distinct. */
  lemma GetKeysExample(expiration: int, timestamp: int)
    requires expiration > timestamp
    ensures |Eval(GetKeysStatement("default", false, timestamp), KeyHits(expiration)).values| == 3
    ensures |Eval(GetKeysStatement("default", true, timestamp), KeyHits(expiration)).values| == 2
    ensures Eval(CountKeysStatement("default", false, timestamp), KeyHits(expiration)) == Number(3)
    ensures Eval(CountKeysStatement("default", true, timestamp), KeyHits(expiration)) == Number(2)
  {
    var other := [Entry("othernamespace", "key0", expiration)];
    DefaultKeys(expiration, timestamp, false);
    DefaultKeys(expiration, timestamp, true);
    DistinctKeys();
    EvalScoped(GetKeysStatement("default", false, timestamp), DefaultHits(expiration), other, "default");
    EvalScoped(GetKeysStatement("default", true, timestamp), DefaultHits(expiration), other, "default");
    EvalScoped(CountKeysStatement("default", false, timestamp), DefaultHits(expiration), other, "default");
    EvalScoped(CountKeysStatement("default", true, timestamp), DefaultHits(expiration), other, "default");
  }

  /** `MatchKey` with the glob `key*` over `KeyHits`: three keys, two when unique. */
  lemma MatchKeyExample(expiration: int, timestamp: int)
    requires expiration > timestamp
    ensures |Eval(MatchKeyStatement("default", Glob.KeybasePattern("key*"), false, timestamp), KeyHits(expiration)).values| == 3
    ensures |Eval(MatchKeyStatement("default", Glob.KeybasePattern("key*"), true, timestamp), KeyHits(expiration)).values| == 2
  {
    assert Glob.KeybasePattern("key*") == "key%";
    DefaultMatches(expiration, timestamp);
    var other := [Entry("othernamespace", "key0", expiration)];
    EvalScoped(MatchKeyStatement("default", "key%", false, timestamp), DefaultHits(expiration), other, "default");
    EvalScoped(MatchKeyStatement("default", "key%", true, timestamp), DefaultHits(expiration), other, "default");
    DefaultKeys(expiration, timestamp, false);
    DistinctKeys();
  }

  /** The pattern `key%` selects all of `DefaultHits`. */
  lemma DefaultMatches(expiration: int, timestamp: int)
    requires expiration > timestamp
    ensures Filter(DefaultHits(expiration), [NamespaceEq("default"), KeyLike("key%"), ExpirationGt(timestamp)]) ==
      DefaultHits(expiration)
  {
    var mine := DefaultHits(expiration);
    KeysMatchPattern();
    var w := [NamespaceEq("default"), KeyLike("key%"), ExpirationGt(timestamp)];
    forall e | e in mine ensures Satisfies(e, w) {
      SatisfiesTriple(e, NamespaceEq("default"), KeyLike("key%"), ExpirationGt(timestamp));
    }
    FilterAll(mine, w);
  }

  /** The pattern `key%` matches `key0` and `key1`. */
  lemma KeysMatchPattern()
    ensures Like.Matches("key0", "key%") && Like.Matches("key1", "key%")
  {
    Like.PrefixPattern("key0", "key");
    Like.PrefixPattern("key1", "key");
  }

  /** `CountKey` of `key0` over `KeyHits`: two. */
  lemma CountKeyExample(expiration: int, timestamp: int)
    requires expiration > timestamp
    ensures Eval(CountKeyStatement("default", "key0", timestamp), KeyHits(expiration)) == Number(2)
  {
    var e0, e1 := Entry("default", "key0", expiration), Entry("default", "key1", expiration);
    PutCountsOnce([], "default", "key0", expiration, timestamp);
    PutCountsOnce([e0], "default", "key0", expiration, timestamp);
    PutCountsOnce([e0, e0], "default", "key1", expiration, timestamp);
    assert [] + [e0] == [e0] && [e0] + [e0] == [e0, e0] && [e0, e0] + [e1] == DefaultHits(expiration);
    EvalScoped(CountKeyStatement("default", "key0", timestamp), DefaultHits(expiration),
      [Entry("othernamespace", "key0", expiration)], "default");
  }

  /** The nine hits of three namespaces, each `key0, key0, key1`. */
  function NineHits(expiration: int): seq<Entry> {
    [Entry("namespace0", "key0", expiration), Entry("namespace0", "key0", expiration), Entry("namespace0", "key1", expiration),
     Entry("namespace1", "key0", expiration), Entry("namespace1", "key0", expiration), Entry("namespace1", "key1", expiration),
     Entry("namespace2", "key0", expiration), Entry("namespace2", "key0", expiration), Entry("namespace2", "key1", expiration)]
  }

  /** The `namespace + key` strings of `NineHits`, in order. */
  lemma NineConcatenations(expiration: int)
    ensures Project(NineHits(expiration), NamespaceKeyColumn) ==
      ["namespace0key0", "namespace0key0", "namespace0key1", "namespace1key0", "namespace1key0", "namespace1key1",
       "namespace2key0", "namespace2key0", "namespace2key1"]
  {
    assert "namespace0" + "key0" == "namespace0key0" && "namespace0" + "key1" == "namespace0key1";
    assert "namespace1" + "key0" == "namespace1key0" && "namespace1" + "key1" == "namespace1key1";
    assert "namespace2" + "key0" == "namespace2key0" && "namespace2" + "key1" == "namespace2key1";
  }

  /** Every hit of `NineHits` is live at `timestamp`. */
  lemma NineLive(expiration: int, timestamp: int)
    requires expiration > timestamp
    ensures Filter(NineHits(expiration), [ExpirationGt(timestamp)]) == NineHits(expiration)
  {
    forall e | e in NineHits(expiration) ensures Satisfies(e, [ExpirationGt(timestamp)]) {
      SatisfiesSingle(e, ExpirationGt(timestamp));
    }
    FilterAll(NineHits(expiration), [ExpirationGt(timestamp)]);
  }

  /** Nine live hits count 9 entries. */
  lemma EntriesExample(expiration: int, timestamp: int)
    requires expiration > timestamp
    ensures Eval(CountEntriesStatement(false, timestamp), NineHits(expiration)) == Number(9)
  {
    NineLive(expiration, timestamp);
  }

  /** The nine live hits lie in 3 namespaces, each listed once. */
  lemma NamespacesExample(expiration: int, timestamp: int)
    requires expiration > timestamp
    ensures |Eval(GetNamespacesStatement(timestamp), NineHits(expiration)).values| == 3
    ensures Eval(CountNamespacesStatement(timestamp), NineHits(expiration)) == Number(3)
  {
    NineLive(expiration, timestamp);
    NineNamespaces(expiration);
    ThreeNamespaceValues(Project(NineHits(expiration), NamespaceColumn));
  }

  /** The namespaces of `NineHits`, in order. */
  lemma NineNamespaces(expiration: int)
    ensures Project(NineHits(expiration), NamespaceColumn) ==
      ["namespace0", "namespace0", "namespace0", "namespace1", "namespace1", "namespace1",
       "namespace2", "namespace2", "namespace2"]
  {
  }

  /** Of the nine live hits, 6 `namespace + key` strings are distinct. */
  lemma UniqueEntriesExample(expiration: int, timestamp: int)
    requires expiration > timestamp
    ensures Eval(CountEntriesStatement(true, timestamp), NineHits(expiration)) == Number(6)
  {
    NineLive(expiration, timestamp);
    NineConcatenations(expiration);
    SixConcatenations(Project(NineHits(expiration), NamespaceKeyColumn));
  }

  lemma SixConcatenationValues(concats: seq<string>)
    requires concats == ["namespace0key0", "namespace0key0", "namespace0key1", "namespace1key0", "namespace1key0",
                         "namespace1key1", "namespace2key0", "namespace2key0", "namespace2key1"]
    ensures (set x | x in concats) ==
      {"namespace0key0", "namespace0key1", "namespace1key0", "namespace1key1", "namespace2key0", "namespace2key1"}
  {
  }

  lemma SixStrings()
    ensures |{"namespace0key0", "namespace0key1", "namespace1key0", "namespace1key1", "namespace2key0", "namespace2key1"}| == 6
  {
  }

  lemma SixConcatenations(concats: seq<string>)
    requires concats == ["namespace0key0", "namespace0key0", "namespace0key1", "namespace1key0", "namespace1key0",
                         "namespace1key1", "namespace2key0", "namespace2key0", "namespace2key1"]
    ensures |Distinct(concats)| == 6
  {
    SixConcatenationValues(concats);
    SixStrings();
    DistinctSize(concats);
  }

  lemma ThreeNamespaceValues(namespaces: seq<string>)
    requires namespaces == ["namespace0", "namespace0", "namespace0", "namespace1", "namespace1", "namespace1",
                            "namespace2", "namespace2", "namespace2"]
    ensures |Distinct(namespaces)| == 3
  {
    ThreeNamespaceSet(namespaces);
    assert |{"namespace0", "namespace1", "namespace2"}| == 3;
    DistinctSize(namespaces);
  }

  lemma ThreeNamespaceSet(namespaces: seq<string>)
    requires namespaces == ["namespace0", "namespace0", "namespace0", "namespace1", "namespace1", "namespace1",
                            "namespace2", "namespace2", "namespace2"]
    ensures (set x | x in namespaces) == {"namespace0", "namespace1", "namespace2"}
  {
  }

  /**
   * The unique entry count deduplicates `namespace + key` strings, so the
   * two different hits ("ab", "c") and ("a", "bc") count once.
   */
  lemma ConcatCollision(expiration: int, timestamp: int)
    requires expiration > timestamp
    ensures var log := [Entry("ab", "c", expiration), Entry("a", "bc", expiration)];
      Eval(CountEntriesStatement(false, timestamp), log) == Number(2) &&
      Eval(CountEntriesStatement(true, timestamp), log) == Number(1) &&
      log[0] != log[1]
  {
    var log := [Entry("ab", "c", expiration), Entry("a", "bc", expiration)];
    forall e | e in log ensures Satisfies(e, [ExpirationGt(timestamp)]) {
      SatisfiesSingle(e, ExpirationGt(timestamp));
    }
    FilterAll(log, [ExpirationGt(timestamp)]);
    assert "ab" + "c" == "abc" && "a" + "bc" == "abc";
    var concats := Project(log, NamespaceKeyColumn);
    assert concats == ["abc", "abc"];
    DistinctSize(concats);
    assert (set x | x in concats) == {"abc"};
  }
}
