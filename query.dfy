/**
 * The flag-parameterised statement builders of `query.go` and the two
 * row-collecting methods of `dbtx`. Each builder takes `active` (add the
 * constraint `expiration > timestamp`) and, where it has one, `unique`
 * (deduplicate the projected column or count it with DISTINCT).
 */
module Query {
  import opened Wrappers
  import opened Table
  import opened Driver
  import Glob
  import Like

  /** The constraint `active` appends to a builder's WHERE clause. */
  function ActiveClause(active: bool, timestamp: int): seq<Constraint> {
    if active then [ExpirationGt(timestamp)] else []
  }

  function NewPutQuery(namespace: string, key: string, expiration: int): Command {
    Insert(Entry(namespace, key, expiration))
  }

  function NewMatchKeyQuery(namespace: string, pattern: string, active: bool, unique: bool, timestamp: int): Select {
    Select(unique, SelectColumn(KeyColumn),
      [NamespaceEq(namespace), KeyLike(Glob.QueryPattern(pattern))] + ActiveClause(active, timestamp))
  }

  function NewCountKeyQuery(namespace: string, key: string, active: bool, timestamp: int): Select {
    Select(false, CountColumn(KeyColumn), [NamespaceEq(namespace), KeyEq(key)] + ActiveClause(active, timestamp))
  }

  function NewGetKeysQuery(namespace: string, active: bool, unique: bool, timestamp: int): Select {
    Select(unique, SelectColumn(KeyColumn), [NamespaceEq(namespace)] + ActiveClause(active, timestamp))
  }

  function NewCountKeysQuery(namespace: string, active: bool, unique: bool, timestamp: int): Select {
    Select(false, if unique then CountDistinctColumn(KeyColumn) else CountColumn(KeyColumn),
      [NamespaceEq(namespace)] + ActiveClause(active, timestamp))
  }

  function NewGetNamespacesQuery(active: bool, timestamp: int): Select {
    Select(true, SelectColumn(NamespaceColumn), ActiveClause(active, timestamp))
  }

  function NewCountNamespacesQuery(active: bool, timestamp: int): Select {
    Select(false, CountDistinctColumn(NamespaceColumn), ActiveClause(active, timestamp))
  }

  function NewCountEntriesQuery(active: bool, unique: bool, timestamp: int): Select {
    Select(false, if unique then CountDistinctColumn(NamespaceKeyColumn) else CountColumn(NamespaceKeyColumn),
      ActiveClause(active, timestamp))
  }

  function NewPruneEntriesQuery(timestamp: int): Command {
    Delete([ExpirationLe(timestamp)])
  }

  function NewClearEntriesQuery(): Command {
    Delete([])
  }

  /** `dbtx.queryCount`: the integer in the first row, 0 when there is no row, 0 alongside any error. */
  method QueryCount(response: Response) returns (count: int, err: Option<Error>)
    ensures response.Failed? ==> count == 0 && err == Some(response.error)
    ensures response.Rows? && response.rows == [] ==> count == 0 && err == None
    ensures response.Rows? && response.rows != [] && ScanInt(response.rows[0]).Some? ==>
      count == ScanInt(response.rows[0]).value && err == None
    ensures response.Rows? && response.rows != [] && ScanInt(response.rows[0]).None? ==>
      count == 0 && err == Some(ScanError)
  {
    count := 0;
    if response.Failed? {
      return count, Some(response.error);
    }
    if response.rows != [] {
      var scanned := ScanInt(response.rows[0]);
      if scanned.None? {
        return count, Some(ScanError);
      }
      count := scanned.value;
    }
    return count, None;
  }

  /**
   * `dbtx.queryValues`: one string per row, in row order; a failed query, or
   * any row that is not a single column, gives no values and an error.
   */
  method QueryValues(response: Response) returns (r: Result<seq<string>, Error>)
    ensures response.Failed? ==> r == Failure(response.error)
    ensures response.Rows? ==> (r.Success? <==> forall i :: 0 <= i < |response.rows| ==> |response.rows[i]| == 1)
    ensures response.Rows? && r.Success? ==> |r.value| == |response.rows|
    ensures response.Rows? && r.Success? ==>
      forall i :: 0 <= i < |response.rows| ==> ScanText(response.rows[i]) == Some(r.value[i])
    ensures response.Rows? && r.Failure? ==> r.error == ScanError
  {
    if response.Failed? {
      return Failure(response.error);
    }
    var rows := response.rows;
    var values: seq<string> := [];
    var i := 0;
    while i < |rows|
      invariant 0 <= i <= |rows|
      invariant |values| == i
      invariant forall j :: 0 <= j < i ==> ScanText(rows[j]) == Some(values[j])
    {
      var value := ScanText(rows[i]);
      if value.None? {
        return Failure(ScanError);
      }
      values := values + [value.value];
      i := i + 1;
    }
    return Success(values);
  }

  // ---------------------------------------------------------------------------
  // Reference predicates, stated on entries rather than on descriptors.

  /** An entry a namespace-scoped builder considers. */
  ghost predicate InScope(e: Entry, namespace: string, active: bool, timestamp: int) {
    e.namespace == namespace && (active ==> e.expiration > timestamp)
  }

  /** An entry an all-namespace builder considers. */
  ghost predicate Considered(e: Entry, active: bool, timestamp: int) {
    active ==> e.expiration > timestamp
  }

  lemma ActiveScope(active: bool, timestamp: int)
    ensures forall e :: Satisfies(e, ActiveClause(active, timestamp)) <==> Considered(e, active, timestamp)
  {
    forall e ensures Satisfies(e, ActiveClause(active, timestamp)) <==> Considered(e, active, timestamp) {
      if active {
        SatisfiesSingle(e, ExpirationGt(timestamp));
      }
    }
  }

  lemma ScopeClause(namespace: string, active: bool, timestamp: int)
    ensures forall e :: Satisfies(e, [NamespaceEq(namespace)] + ActiveClause(active, timestamp)) <==>
      InScope(e, namespace, active, timestamp)
  {
    ActiveScope(active, timestamp);
    forall e ensures Satisfies(e, [NamespaceEq(namespace)] + ActiveClause(active, timestamp)) <==>
      InScope(e, namespace, active, timestamp) {
      SatisfiesAppend(e, [NamespaceEq(namespace)], ActiveClause(active, timestamp));
      SatisfiesSingle(e, NamespaceEq(namespace));
    }
  }

  /** The positions a namespace-scoped clause selects are those of the in-scope entries. */
  lemma ScopedPositions(log: seq<Entry>, namespace: string, active: bool, timestamp: int)
    ensures Positions(log, [NamespaceEq(namespace)] + ActiveClause(active, timestamp)) ==
      set i | 0 <= i < |log| && InScope(log[i], namespace, active, timestamp)
  {
    ScopeClause(namespace, active, timestamp);
  }

  /** The keys a namespace-scoped clause selects are those of the in-scope entries. */
  lemma ScopedKeys(log: seq<Entry>, namespace: string, active: bool, timestamp: int)
    ensures ValueSet(log, [NamespaceEq(namespace)] + ActiveClause(active, timestamp), KeyColumn) ==
      set e | e in log && InScope(e, namespace, active, timestamp) :: e.key
  {
    var w := [NamespaceEq(namespace)] + ActiveClause(active, timestamp);
    ScopeClause(namespace, active, timestamp);
    forall x | x in ValueSet(log, w, KeyColumn) ensures x in set e | e in log && InScope(e, namespace, active, timestamp) :: e.key {
      var e :| e in log && Satisfies(e, w) && ValueOf(e, KeyColumn) == x;
    }
  }

  /** The positions the `active` clause selects are those of the considered entries. */
  lemma ConsideredPositions(log: seq<Entry>, active: bool, timestamp: int)
    ensures Positions(log, ActiveClause(active, timestamp)) == set i | 0 <= i < |log| && Considered(log[i], active, timestamp)
  {
    ActiveScope(active, timestamp);
  }

  /** The namespaces and the concatenations the `active` clause selects are those of the considered entries. */
  lemma ConsideredValues(log: seq<Entry>, active: bool, timestamp: int)
    ensures ValueSet(log, ActiveClause(active, timestamp), NamespaceColumn) ==
      set e | e in log && Considered(e, active, timestamp) :: e.namespace
    ensures ValueSet(log, ActiveClause(active, timestamp), NamespaceKeyColumn) ==
      set e | e in log && Considered(e, active, timestamp) :: e.namespace + e.key
  {
    var w := ActiveClause(active, timestamp);
    ActiveScope(active, timestamp);
    forall x | x in ValueSet(log, w, NamespaceColumn) ensures x in set e | e in log && Considered(e, active, timestamp) :: e.namespace {
      var e :| e in log && Satisfies(e, w) && ValueOf(e, NamespaceColumn) == x;
    }
    forall x | x in ValueSet(log, w, NamespaceKeyColumn)
      ensures x in set e | e in log && Considered(e, active, timestamp) :: e.namespace + e.key
    {
      var e :| e in log && Satisfies(e, w) && ValueOf(e, NamespaceKeyColumn) == x;
    }
  }

  // ---------------------------------------------------------------------------
  // What each builder's statement selects.

  /**
   * `newGetKeysQuery`: without `unique`, each key once per in-scope entry
   * that carries it; with `unique`, each in-scope key exactly once.
   */
  lemma GetKeysQueryMeaning(log: seq<Entry>, namespace: string, active: bool, timestamp: int, key: string)
    ensures multiset(Eval(NewGetKeysQuery(namespace, active, false, timestamp), log).values)[key] ==
      |set i | 0 <= i < |log| && InScope(log[i], namespace, active, timestamp) && log[i].key == key|
    ensures var u := Eval(NewGetKeysQuery(namespace, active, true, timestamp), log).values;
      NoDuplicates(u) && (key in u <==> exists e :: e in log && InScope(e, namespace, active, timestamp) && e.key == key)
  {
    var scope := [NamespaceEq(namespace)] + ActiveClause(active, timestamp);
    ScopeClause(namespace, active, timestamp);
    ProjectMultiplicity(log, scope, KeyColumn, key);
    assert Occurrences(log, scope, KeyColumn, key) ==
      set i | 0 <= i < |log| && InScope(log[i], namespace, active, timestamp) && log[i].key == key;
    DistinctColumn(log, scope, KeyColumn);
    assert key in ValueSet(log, scope, KeyColumn) <==>
      exists e :: e in log && InScope(e, namespace, active, timestamp) && e.key == key;
  }

  /**
   * `newCountKeysQuery`: without `unique`, the number of in-scope entries;
   * with `unique`, the number of distinct in-scope keys.
   */
  lemma CountKeysQueryMeaning(log: seq<Entry>, namespace: string, active: bool, timestamp: int)
    ensures Eval(NewCountKeysQuery(namespace, active, false, timestamp), log) ==
      Number(|set i | 0 <= i < |log| && InScope(log[i], namespace, active, timestamp)|)
    ensures Eval(NewCountKeysQuery(namespace, active, true, timestamp), log) ==
      Number(|set e | e in log && InScope(e, namespace, active, timestamp) :: e.key|)
  {
    var scope := [NamespaceEq(namespace)] + ActiveClause(active, timestamp);
    DistinctColumn(log, scope, KeyColumn);
    ScopedKeys(log, namespace, active, timestamp);
    FilterSize(log, scope);
    ScopedPositions(log, namespace, active, timestamp);
  }

  /** `newCountKeyQuery`: the number of in-scope entries for exactly this key. */
  lemma CountKeyQueryMeaning(log: seq<Entry>, namespace: string, key: string, active: bool, timestamp: int)
    ensures Eval(NewCountKeyQuery(namespace, key, active, timestamp), log) ==
      Number(|set i | 0 <= i < |log| && InScope(log[i], namespace, active, timestamp) && log[i].key == key|)
  {
    var w := [NamespaceEq(namespace), KeyEq(key)] + ActiveClause(active, timestamp);
    FilterSize(log, w);
    ScopeClause(namespace, active, timestamp);
    forall e ensures Satisfies(e, w) <==> InScope(e, namespace, active, timestamp) && e.key == key {
      SatisfiesAppend(e, [NamespaceEq(namespace), KeyEq(key)], ActiveClause(active, timestamp));
      SatisfiesPair(e, NamespaceEq(namespace), KeyEq(key));
    }
    assert Positions(log, w) ==
      set i | 0 <= i < |log| && InScope(log[i], namespace, active, timestamp) && log[i].key == key;
  }

  /**
   * `newMatchKeyQuery`: like `newGetKeysQuery`, restricted to the keys that
   * the rewritten glob matches.
   */
  lemma MatchKeyQueryMeaning(log: seq<Entry>, namespace: string, glob: string, active: bool, timestamp: int, key: string)
    ensures multiset(Eval(NewMatchKeyQuery(namespace, glob, active, false, timestamp), log).values)[key] ==
      if Like.Matches(key, Glob.QueryPattern(glob))
      then |set i | 0 <= i < |log| && InScope(log[i], namespace, active, timestamp) && log[i].key == key|
      else 0
    ensures var u := Eval(NewMatchKeyQuery(namespace, glob, active, true, timestamp), log).values;
      NoDuplicates(u) &&
      (key in u <==> Like.Matches(key, Glob.QueryPattern(glob)) &&
                     exists e :: e in log && InScope(e, namespace, active, timestamp) && e.key == key)
  {
    var w := [NamespaceEq(namespace), KeyLike(Glob.QueryPattern(glob))] + ActiveClause(active, timestamp);
    ScopeClause(namespace, active, timestamp);
    forall e ensures Satisfies(e, w) <==>
      InScope(e, namespace, active, timestamp) && Like.Matches(e.key, Glob.QueryPattern(glob)) {
      SatisfiesAppend(e, [NamespaceEq(namespace), KeyLike(Glob.QueryPattern(glob))], ActiveClause(active, timestamp));
      SatisfiesPair(e, NamespaceEq(namespace), KeyLike(Glob.QueryPattern(glob)));
    }
    ProjectMultiplicity(log, w, KeyColumn, key);
    if Like.Matches(key, Glob.QueryPattern(glob)) {
      assert Occurrences(log, w, KeyColumn, key) ==
        set i | 0 <= i < |log| && InScope(log[i], namespace, active, timestamp) && log[i].key == key;
    } else {
      assert Occurrences(log, w, KeyColumn, key) == {};
    }
    DistinctColumn(log, w, KeyColumn);
  }

  /**
   * `newGetNamespacesQuery` always deduplicates, whatever the flags: each
   * considered namespace exactly once.
   */
  lemma NamespacesQueryMeaning(log: seq<Entry>, active: bool, timestamp: int, namespace: string)
    ensures var u := Eval(NewGetNamespacesQuery(active, timestamp), log).values;
      NoDuplicates(u) && (namespace in u <==> exists e :: e in log && Considered(e, active, timestamp) && e.namespace == namespace)
  {
    DistinctColumn(log, ActiveClause(active, timestamp), NamespaceColumn);
    ConsideredValues(log, active, timestamp);
    assert namespace in ValueSet(log, ActiveClause(active, timestamp), NamespaceColumn) <==>
      exists e :: e in log && Considered(e, active, timestamp) && e.namespace == namespace;
  }

  /**
   * `newCountNamespacesQuery` always counts distinct namespaces: the number
   * of considered namespaces, which is the length of the namespace list.
   */
  lemma CountNamespacesQueryMeaning(log: seq<Entry>, active: bool, timestamp: int)
    ensures Eval(NewCountNamespacesQuery(active, timestamp), log) ==
      Number(|set e | e in log && Considered(e, active, timestamp) :: e.namespace|)
    ensures Eval(NewCountNamespacesQuery(active, timestamp), log) ==
      Number(|Eval(NewGetNamespacesQuery(active, timestamp), log).values|)
  {
    DistinctColumn(log, ActiveClause(active, timestamp), NamespaceColumn);
    ConsideredValues(log, active, timestamp);
  }

  /** `newCountEntriesQuery` without `unique`: the number of considered entries. */
  lemma CountEntriesQueryMeaning(log: seq<Entry>, active: bool, timestamp: int)
    ensures Eval(NewCountEntriesQuery(active, false, timestamp), log) ==
      Number(|set i | 0 <= i < |log| && Considered(log[i], active, timestamp)|)
  {
    FilterSize(log, ActiveClause(active, timestamp));
    ConsideredPositions(log, active, timestamp);
  }

  /**
   * `newCountEntriesQuery` with `unique`: the number of distinct
   * `namespace + key` strings among the considered entries, which is at
   * most the plain count.
   */
  lemma CountEntriesUniqueQueryMeaning(log: seq<Entry>, active: bool, timestamp: int)
    ensures Eval(NewCountEntriesQuery(active, true, timestamp), log) ==
      Number(|set e | e in log && Considered(e, active, timestamp) :: e.namespace + e.key|)
    ensures Eval(NewCountEntriesQuery(active, true, timestamp), log).number <=
      Eval(NewCountEntriesQuery(active, false, timestamp), log).number
  {
    DistinctColumn(log, ActiveClause(active, timestamp), NamespaceKeyColumn);
    ConsideredValues(log, active, timestamp);
  }

  /**
   * The unique count of `newCountEntriesQuery` deduplicates concatenated
   * strings, so it is at most the number of distinct (namespace, key)
   * pairs; two pairs whose concatenations agree count once.
   */
  lemma CountEntriesUniqueAtMostPairs(log: seq<Entry>, active: bool, timestamp: int)
    ensures Eval(NewCountEntriesQuery(active, true, timestamp), log).number <=
      |set e | e in log && Considered(e, active, timestamp) :: (e.namespace, e.key)|
  {
    CountEntriesUniqueQueryMeaning(log, active, timestamp);
    var concats := set e | e in log && Considered(e, active, timestamp) :: e.namespace + e.key;
    var pairs := set e | e in log && Considered(e, active, timestamp) :: (e.namespace, e.key);
    ConcatenationsAtMostPairs(pairs);
    var image := set p | p in pairs :: p.0 + p.1;
    forall x | x in concats ensures x in image {
      var e :| e in log && Considered(e, active, timestamp) && x == e.namespace + e.key;
      assert (e.namespace, e.key) in pairs;
    }
    forall x | x in image ensures x in concats {
      var p :| p in pairs && x == p.0 + p.1;
      var e :| e in log && Considered(e, active, timestamp) && p == (e.namespace, e.key);
    }
    assert image == concats;
    assert |image| <= |pairs|;
    assert Eval(NewCountEntriesQuery(active, true, timestamp), log).number == |concats|;
  }

  // ---------------------------------------------------------------------------
  // The two flags.

  /**
   * `active` adds exactly the strict constraint `expiration > timestamp` to
   * every read builder; without it no constraint mentions expiration.
   */
  lemma ActiveAddsOnlyExpirationGt(namespace: string, key: string, glob: string, unique: bool, timestamp: int)
    ensures NewMatchKeyQuery(namespace, glob, true, unique, timestamp).where ==
      NewMatchKeyQuery(namespace, glob, false, unique, timestamp).where + [ExpirationGt(timestamp)]
    ensures NewCountKeyQuery(namespace, key, true, timestamp).where ==
      NewCountKeyQuery(namespace, key, false, timestamp).where + [ExpirationGt(timestamp)]
    ensures NewGetKeysQuery(namespace, true, unique, timestamp).where ==
      NewGetKeysQuery(namespace, false, unique, timestamp).where + [ExpirationGt(timestamp)]
    ensures NewCountKeysQuery(namespace, true, unique, timestamp).where ==
      NewCountKeysQuery(namespace, false, unique, timestamp).where + [ExpirationGt(timestamp)]
    ensures NewGetNamespacesQuery(true, timestamp).where == NewGetNamespacesQuery(false, timestamp).where + [ExpirationGt(timestamp)]
    ensures NewCountNamespacesQuery(true, timestamp).where == NewCountNamespacesQuery(false, timestamp).where + [ExpirationGt(timestamp)]
    ensures NewCountEntriesQuery(true, unique, timestamp).where ==
      NewCountEntriesQuery(false, unique, timestamp).where + [ExpirationGt(timestamp)]
    ensures ExpirationFree(NewMatchKeyQuery(namespace, glob, false, unique, timestamp).where)
    ensures ExpirationFree(NewCountKeyQuery(namespace, key, false, timestamp).where)
    ensures ExpirationFree(NewGetKeysQuery(namespace, false, unique, timestamp).where)
    ensures ExpirationFree(NewCountKeysQuery(namespace, false, unique, timestamp).where)
    ensures ExpirationFree(NewGetNamespacesQuery(false, timestamp).where)
    ensures ExpirationFree(NewCountNamespacesQuery(false, timestamp).where)
    ensures ExpirationFree(NewCountEntriesQuery(false, unique, timestamp).where)
  {
  }

  /**
   * Every read builder with `active` answers what the same builder without
   * it answers on the live sub-log: `active` hides exactly the stale entries.
   */
  lemma ActiveReadsLiveSubLog(log: seq<Entry>, namespace: string, key: string, glob: string, unique: bool, timestamp: int)
    ensures Eval(NewMatchKeyQuery(namespace, glob, true, unique, timestamp), log) ==
      Eval(NewMatchKeyQuery(namespace, glob, false, unique, timestamp), Live(log, timestamp))
    ensures Eval(NewCountKeyQuery(namespace, key, true, timestamp), log) ==
      Eval(NewCountKeyQuery(namespace, key, false, timestamp), Live(log, timestamp))
    ensures Eval(NewGetKeysQuery(namespace, true, unique, timestamp), log) ==
      Eval(NewGetKeysQuery(namespace, false, unique, timestamp), Live(log, timestamp))
    ensures Eval(NewCountKeysQuery(namespace, true, unique, timestamp), log) ==
      Eval(NewCountKeysQuery(namespace, false, unique, timestamp), Live(log, timestamp))
    ensures Eval(NewGetNamespacesQuery(true, timestamp), log) ==
      Eval(NewGetNamespacesQuery(false, timestamp), Live(log, timestamp))
    ensures Eval(NewCountNamespacesQuery(true, timestamp), log) ==
      Eval(NewCountNamespacesQuery(false, timestamp), Live(log, timestamp))
    ensures Eval(NewCountEntriesQuery(true, unique, timestamp), log) ==
      Eval(NewCountEntriesQuery(false, unique, timestamp), Live(log, timestamp))
  {
    ActiveAddsOnlyExpirationGt(namespace, key, glob, unique, timestamp);
    EvalOnLiveSubLog(NewMatchKeyQuery(namespace, glob, false, unique, timestamp), log, timestamp);
    EvalOnLiveSubLog(NewCountKeyQuery(namespace, key, false, timestamp), log, timestamp);
    EvalOnLiveSubLog(NewGetKeysQuery(namespace, false, unique, timestamp), log, timestamp);
    EvalOnLiveSubLog(NewCountKeysQuery(namespace, false, unique, timestamp), log, timestamp);
    EvalOnLiveSubLog(NewGetNamespacesQuery(false, timestamp), log, timestamp);
    EvalOnLiveSubLog(NewCountNamespacesQuery(false, timestamp), log, timestamp);
    EvalOnLiveSubLog(NewCountEntriesQuery(false, unique, timestamp), log, timestamp);
  }

  /**
   * Without `active` the expirations do not matter: stale entries in scope
   * count exactly like live ones.
   */
  lemma InactiveIgnoresExpiration(a: seq<Entry>, b: seq<Entry>, namespace: string, key: string, glob: string, unique: bool, timestamp: int)
    requires SameHits(a, b)
    ensures Eval(NewMatchKeyQuery(namespace, glob, false, unique, timestamp), a) ==
      Eval(NewMatchKeyQuery(namespace, glob, false, unique, timestamp), b)
    ensures Eval(NewCountKeyQuery(namespace, key, false, timestamp), a) ==
      Eval(NewCountKeyQuery(namespace, key, false, timestamp), b)
    ensures Eval(NewGetKeysQuery(namespace, false, unique, timestamp), a) ==
      Eval(NewGetKeysQuery(namespace, false, unique, timestamp), b)
    ensures Eval(NewCountKeysQuery(namespace, false, unique, timestamp), a) ==
      Eval(NewCountKeysQuery(namespace, false, unique, timestamp), b)
    ensures Eval(NewGetNamespacesQuery(false, timestamp), a) == Eval(NewGetNamespacesQuery(false, timestamp), b)
    ensures Eval(NewCountNamespacesQuery(false, timestamp), a) == Eval(NewCountNamespacesQuery(false, timestamp), b)
    ensures Eval(NewCountEntriesQuery(false, unique, timestamp), a) == Eval(NewCountEntriesQuery(false, unique, timestamp), b)
  {
    ActiveAddsOnlyExpirationGt(namespace, key, glob, unique, timestamp);
    EvalIgnoresExpiration(NewMatchKeyQuery(namespace, glob, false, unique, timestamp), a, b);
    EvalIgnoresExpiration(NewCountKeyQuery(namespace, key, false, timestamp), a, b);
    EvalIgnoresExpiration(NewGetKeysQuery(namespace, false, unique, timestamp), a, b);
    EvalIgnoresExpiration(NewCountKeysQuery(namespace, false, unique, timestamp), a, b);
    EvalIgnoresExpiration(NewGetNamespacesQuery(false, timestamp), a, b);
    EvalIgnoresExpiration(NewCountNamespacesQuery(false, timestamp), a, b);
    EvalIgnoresExpiration(NewCountEntriesQuery(false, unique, timestamp), a, b);
  }

  /**
   * `unique` deduplicates what the same builder yields without it: the
   * value lists become their `DISTINCT` version, and the count of keys
   * becomes the length of the deduplicated list; without `unique`
   * duplicates pass through and the count is the length of the plain list.
   */
  lemma UniqueDeduplicates(log: seq<Entry>, namespace: string, glob: string, active: bool, timestamp: int)
    ensures Eval(NewMatchKeyQuery(namespace, glob, active, true, timestamp), log).values ==
      Distinct(Eval(NewMatchKeyQuery(namespace, glob, active, false, timestamp), log).values)
    ensures Eval(NewGetKeysQuery(namespace, active, true, timestamp), log).values ==
      Distinct(Eval(NewGetKeysQuery(namespace, active, false, timestamp), log).values)
    ensures Eval(NewCountKeysQuery(namespace, active, false, timestamp), log) ==
      Number(|Eval(NewGetKeysQuery(namespace, active, false, timestamp), log).values|)
    ensures Eval(NewCountKeysQuery(namespace, active, true, timestamp), log) ==
      Number(|Eval(NewGetKeysQuery(namespace, active, true, timestamp), log).values|)
    ensures |Eval(NewGetKeysQuery(namespace, active, false, timestamp), log).values| ==
      |Filter(log, [NamespaceEq(namespace)] + ActiveClause(active, timestamp))|
  {
  }

  // ---------------------------------------------------------------------------
  // The three commands.

  /**
   * After `newPruneEntriesQuery(ts)` every remaining entry expires after
   * `ts`, the survivors are exactly those entries in their old order, and
   * every read whose WHERE clause demands `expiration > t` for some
   * `t >= ts` answers as it did before the prune.
   */
  lemma PruneKeepsActiveReads(log: seq<Entry>, ts: int, q: Select, t: int)
    requires ExpirationGt(t) in q.where && t >= ts
    ensures forall e :: e in Apply(NewPruneEntriesQuery(ts), log) ==> e.expiration > ts
    ensures Apply(NewPruneEntriesQuery(ts), log) == Live(log, ts)
    ensures Eval(q, Apply(NewPruneEntriesQuery(ts), log)) == Eval(q, log)
  {
    forall e ensures Satisfies(e, [ExpirationGt(ts)]) <==> !Satisfies(e, [ExpirationLe(ts)]) {
      SatisfiesSingle(e, ExpirationGt(ts));
      SatisfiesSingle(e, ExpirationLe(ts));
    }
    RemoveIsComplement(log, [ExpirationLe(ts)], [ExpirationGt(ts)]);
    forall e | Satisfies(e, q.where) ensures !Satisfies(e, [ExpirationLe(ts)]) {
      assert Holds(ExpirationGt(t), e);
      SatisfiesSingle(e, ExpirationLe(ts));
    }
    FilterAfterRemove(log, [ExpirationLe(ts)], q.where);
  }

  /** `newClearEntriesQuery` deletes every entry. */
  lemma ClearEmptiesLog(log: seq<Entry>)
    ensures Apply(NewClearEntriesQuery(), log) == []
  {
    RemoveAll(log);
  }
}
