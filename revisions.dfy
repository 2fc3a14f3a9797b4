/**
 * The two revisions side by side: each hard-wired statement of `keybase.go`
 * against the `query.go` builder with `active = true`, and what the facade's
 * reads mean, derived through the builders.
 */
module Revisions {
  import opened Table
  import Glob
  import Like
  import Keybase
  import Query

  /**
   * Every facade statement other than `MatchKey` is the builder with
   * `active = true`, descriptor for descriptor, except that `CountKey` and
   * the plain `CountEntries` count rows (`COUNT(*)`) where the builders count
   * a column; the answers agree all the same.
   */
  lemma StatementsMatchBuilders(log: seq<Entry>, namespace: string, key: string, unique: bool, timestamp: int, expiration: int)
    ensures Keybase.PutStatement(namespace, key, expiration) == Query.NewPutQuery(namespace, key, expiration)
    ensures Keybase.GetKeysStatement(namespace, unique, timestamp) == Query.NewGetKeysQuery(namespace, true, unique, timestamp)
    ensures Keybase.CountKeysStatement(namespace, unique, timestamp) == Query.NewCountKeysQuery(namespace, true, unique, timestamp)
    ensures Keybase.GetNamespacesStatement(timestamp) == Query.NewGetNamespacesQuery(true, timestamp)
    ensures Keybase.CountNamespacesStatement(timestamp) == Query.NewCountNamespacesQuery(true, timestamp)
    ensures Keybase.CountEntriesStatement(true, timestamp) == Query.NewCountEntriesQuery(true, true, timestamp)
    ensures Keybase.PruneEntriesStatement(timestamp) == Query.NewPruneEntriesQuery(timestamp)
    ensures Eval(Keybase.CountKeyStatement(namespace, key, timestamp), log) ==
      Eval(Query.NewCountKeyQuery(namespace, key, true, timestamp), log)
    ensures Eval(Keybase.CountEntriesStatement(unique, timestamp), log) ==
      Eval(Query.NewCountEntriesQuery(true, unique, timestamp), log)
  {
    var w := [NamespaceEq(namespace), KeyEq(key), ExpirationGt(timestamp)];
    assert Query.NewCountKeyQuery(namespace, key, true, timestamp).where == w;
    assert |Project(Filter(log, w), KeyColumn)| == |Filter(log, w)|;
    var live := Filter(log, [ExpirationGt(timestamp)]);
    assert |Project(live, NamespaceKeyColumn)| == |live|;
  }

  /** Over a single live entry of the namespace, `MatchKey` yields its key exactly when the pattern matches. */
  lemma MatchKeySingleEntry(namespace: string, pattern: string, unique: bool, timestamp: int, key: string)
    ensures Eval(Keybase.MatchKeyStatement(namespace, pattern, unique, timestamp), [Entry(namespace, key, timestamp + 1)]).values ==
      if Like.Matches(key, pattern) then [key] else []
  {
    var e := Entry(namespace, key, timestamp + 1);
    var q := Keybase.MatchKeyStatement(namespace, pattern, unique, timestamp);
    SatisfiesTriple(e, NamespaceEq(namespace), KeyLike(pattern), ExpirationGt(timestamp));
    FilterSnoc([], e, q.where);
    assert [] + [e] == [e];
  }

  /**
   * The two `MatchKey` revisions answer alike over every log exactly when
   * the glob holds no `?`: `keybase.go` hands a `?` to LIKE as a literal,
   * `query.go` turns it into the one-character wildcard.
   */
  lemma MatchKeyRevisionsAgree(namespace: string, glob: string, unique: bool, timestamp: int)
    ensures ('?' !in glob) <==>
      forall log :: Eval(Keybase.MatchKeyStatement(namespace, Glob.KeybasePattern(glob), unique, timestamp), log) ==
        Eval(Query.NewMatchKeyQuery(namespace, glob, true, unique, timestamp), log)
  {
    Glob.SameMatchesIffNoQuestionMark(glob);
    var kp, qp := Glob.KeybasePattern(glob), Glob.QueryPattern(glob);
    var builder := Query.NewMatchKeyQuery(namespace, glob, true, unique, timestamp);
    assert builder == Keybase.MatchKeyStatement(namespace, qp, unique, timestamp);
    if '?' !in glob {
      Glob.SamePatternWithoutQuestionMark(glob);
    } else {
      var key :| Like.Matches(key, kp) != Like.Matches(key, qp);
      var log := [Entry(namespace, key, timestamp + 1)];
      MatchKeySingleEntry(namespace, kp, unique, timestamp, key);
      MatchKeySingleEntry(namespace, qp, unique, timestamp, key);
      assert Eval(Keybase.MatchKeyStatement(namespace, kp, unique, timestamp), log) != Eval(builder, log);
    }
  }

  // ---------------------------------------------------------------------------
  // The facade's reads, in terms of the live entries of a namespace.

  /**
   * `GetKeys` without `unique` yields each key once per live entry of the
   * namespace that carries it; with `unique` it yields each such key once.
   */
  lemma GetKeysMeaning(log: seq<Entry>, namespace: string, timestamp: int, key: string)
    ensures multiset(Eval(Keybase.GetKeysStatement(namespace, false, timestamp), log).values)[key] ==
      |set i | 0 <= i < |log| && log[i].namespace == namespace && log[i].expiration > timestamp && log[i].key == key|
    ensures var u := Eval(Keybase.GetKeysStatement(namespace, true, timestamp), log).values;
      NoDuplicates(u) &&
      (key in u <==> exists e :: e in log && e.namespace == namespace && e.expiration > timestamp && e.key == key)
  {
    StatementsMatchBuilders(log, namespace, key, false, timestamp, 0);
    StatementsMatchBuilders(log, namespace, key, true, timestamp, 0);
    Query.GetKeysQueryMeaning(log, namespace, true, timestamp, key);
    assert (set i | 0 <= i < |log| && Query.InScope(log[i], namespace, true, timestamp) && log[i].key == key) ==
      set i | 0 <= i < |log| && log[i].namespace == namespace && log[i].expiration > timestamp && log[i].key == key;
  }

  /**
   * `CountKeys` is the length of the matching `GetKeys` list: the number of
   * live entries of the namespace, or, with `unique`, of their distinct keys.
   */
  lemma CountKeysMeaning(log: seq<Entry>, namespace: string, timestamp: int)
    ensures Eval(Keybase.CountKeysStatement(namespace, false, timestamp), log) ==
      Number(|Eval(Keybase.GetKeysStatement(namespace, false, timestamp), log).values|)
    ensures Eval(Keybase.CountKeysStatement(namespace, true, timestamp), log) ==
      Number(|Eval(Keybase.GetKeysStatement(namespace, true, timestamp), log).values|)
    ensures Eval(Keybase.CountKeysStatement(namespace, true, timestamp), log) ==
      Number(|set e | e in log && e.namespace == namespace && e.expiration > timestamp :: e.key|)
  {
    StatementsMatchBuilders(log, namespace, "", false, timestamp, 0);
    StatementsMatchBuilders(log, namespace, "", true, timestamp, 0);
    Query.UniqueDeduplicates(log, namespace, "", true, timestamp);
    Query.CountKeysQueryMeaning(log, namespace, true, timestamp);
    assert (set e | e in log && Query.InScope(e, namespace, true, timestamp) :: e.key) ==
      set e | e in log && e.namespace == namespace && e.expiration > timestamp :: e.key;
  }

  /** `CountKey` is the number of live entries of the namespace for exactly this key. */
  lemma CountKeyMeaning(log: seq<Entry>, namespace: string, key: string, timestamp: int)
    ensures Eval(Keybase.CountKeyStatement(namespace, key, timestamp), log) ==
      Number(|set i | 0 <= i < |log| && log[i].namespace == namespace && log[i].expiration > timestamp && log[i].key == key|)
  {
    StatementsMatchBuilders(log, namespace, key, false, timestamp, 0);
    Query.CountKeyQueryMeaning(log, namespace, key, true, timestamp);
    assert (set i | 0 <= i < |log| && Query.InScope(log[i], namespace, true, timestamp) && log[i].key == key) ==
      set i | 0 <= i < |log| && log[i].namespace == namespace && log[i].expiration > timestamp && log[i].key == key;
  }

  /**
   * `GetNamespaces` lists each namespace holding a live entry exactly once,
   * and `CountNamespaces` is their number.
   */
  lemma NamespacesMeaning(log: seq<Entry>, timestamp: int, namespace: string)
    ensures var u := Eval(Keybase.GetNamespacesStatement(timestamp), log).values;
      NoDuplicates(u) && (namespace in u <==> exists e :: e in log && e.expiration > timestamp && e.namespace == namespace)
    ensures Eval(Keybase.CountNamespacesStatement(timestamp), log) ==
      Number(|Eval(Keybase.GetNamespacesStatement(timestamp), log).values|)
  {
    StatementsMatchBuilders(log, namespace, "", false, timestamp, 0);
    Query.NamespacesQueryMeaning(log, true, timestamp, namespace);
    Query.CountNamespacesQueryMeaning(log, true, timestamp);
  }

  /**
   * `CountEntries` counts the live entries; with `unique` it counts their
   * distinct `namespace + key` strings, which is at most the plain count and
   * at most the number of distinct (namespace, key) pairs.
   */
  lemma CountEntriesMeaning(log: seq<Entry>, timestamp: int)
    ensures Eval(Keybase.CountEntriesStatement(false, timestamp), log) ==
      Number(|set i | 0 <= i < |log| && log[i].expiration > timestamp|)
    ensures Eval(Keybase.CountEntriesStatement(true, timestamp), log).number <=
      Eval(Keybase.CountEntriesStatement(false, timestamp), log).number
    ensures Eval(Keybase.CountEntriesStatement(true, timestamp), log).number <=
      |set e | e in log && e.expiration > timestamp :: (e.namespace, e.key)|
  {
    StatementsMatchBuilders(log, "", "", false, timestamp, 0);
    StatementsMatchBuilders(log, "", "", true, timestamp, 0);
    Query.CountEntriesQueryMeaning(log, true, timestamp);
    Query.CountEntriesUniqueQueryMeaning(log, true, timestamp);
    Query.CountEntriesUniqueAtMostPairs(log, true, timestamp);
    assert (set i | 0 <= i < |log| && Query.Considered(log[i], true, timestamp)) ==
      set i | 0 <= i < |log| && log[i].expiration > timestamp;
    assert (set e | e in log && Query.Considered(e, true, timestamp) :: (e.namespace, e.key)) ==
      set e | e in log && e.expiration > timestamp :: (e.namespace, e.key);
  }

  // ---------------------------------------------------------------------------
  // Pruning.

  /**
   * Pruning at the reading instant, as the `query.go` builder allows, keeps
   * every facade read at that instant as it was.
   */
  lemma PruneAtNowKeepsReads(log: seq<Entry>, now: int, namespace: string, key: string, pattern: string, unique: bool)
    ensures var kept := Apply(Query.NewPruneEntriesQuery(now), log);
      forall e :: e in kept ==> e.expiration > now
    ensures var kept := Apply(Query.NewPruneEntriesQuery(now), log);
      Eval(Keybase.MatchKeyStatement(namespace, pattern, unique, now), kept) ==
        Eval(Keybase.MatchKeyStatement(namespace, pattern, unique, now), log) &&
      Eval(Keybase.CountKeyStatement(namespace, key, now), kept) == Eval(Keybase.CountKeyStatement(namespace, key, now), log) &&
      Eval(Keybase.GetKeysStatement(namespace, unique, now), kept) == Eval(Keybase.GetKeysStatement(namespace, unique, now), log) &&
      Eval(Keybase.CountKeysStatement(namespace, unique, now), kept) == Eval(Keybase.CountKeysStatement(namespace, unique, now), log)
    ensures var kept := Apply(Query.NewPruneEntriesQuery(now), log);
      Eval(Keybase.GetNamespacesStatement(now), kept) == Eval(Keybase.GetNamespacesStatement(now), log) &&
      Eval(Keybase.CountNamespacesStatement(now), kept) == Eval(Keybase.CountNamespacesStatement(now), log) &&
      Eval(Keybase.CountEntriesStatement(unique, now), kept) == Eval(Keybase.CountEntriesStatement(unique, now), log)
  {
    Query.PruneKeepsActiveReads(log, now, Keybase.MatchKeyStatement(namespace, pattern, unique, now), now);
    Query.PruneKeepsActiveReads(log, now, Keybase.CountKeyStatement(namespace, key, now), now);
    Query.PruneKeepsActiveReads(log, now, Keybase.GetKeysStatement(namespace, unique, now), now);
    Query.PruneKeepsActiveReads(log, now, Keybase.CountKeysStatement(namespace, unique, now), now);
    Query.PruneKeepsActiveReads(log, now, Keybase.GetNamespacesStatement(now), now);
    Query.PruneKeepsActiveReads(log, now, Keybase.CountNamespacesStatement(now), now);
    Query.PruneKeepsActiveReads(log, now, Keybase.CountEntriesStatement(unique, now), now);
  }
}
