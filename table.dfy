/**
 * The entry log and the statements run against it. The table
 * `keybase(namespace, key, expiration)` is a sequence of entries in insertion
 * order; a statement is a descriptor (a projection, a distinct flag and a
 * list of constraints joined by AND) evaluated over that sequence.
 */
module Table {
  import Like

  /** One recorded hit of `key` in `namespace`, live while `expiration` (Unix ms) is after the query time. */
  datatype Entry = Entry(namespace: string, key: string, expiration: int)

  /** The columns a statement projects: `key`, `namespace` and `CONCAT(namespace, key)`. */
  datatype Column = KeyColumn | NamespaceColumn | NamespaceKeyColumn

  function ValueOf(e: Entry, column: Column): string {
    match column
    case KeyColumn => e.key
    case NamespaceColumn => e.namespace
    case NamespaceKeyColumn => e.namespace + e.key
  }

  datatype Constraint =
    | NamespaceEq(namespace: string)
    | KeyEq(key: string)
    | KeyLike(pattern: string)
    | ExpirationGt(timestamp: int)
    | ExpirationLe(timestamp: int)

  predicate Holds(c: Constraint, e: Entry) {
    match c
    case NamespaceEq(ns) => e.namespace == ns
    case KeyEq(k) => e.key == k
    case KeyLike(p) => Like.Matches(e.key, p)
    case ExpirationGt(ts) => e.expiration > ts
    case ExpirationLe(ts) => e.expiration <= ts
  }

  /** A WHERE clause: every constraint holds; no constraint at all means no WHERE clause. */
  predicate Satisfies(e: Entry, where: seq<Constraint>) {
    forall c :: c in where ==> Holds(c, e)
  }

  /** `COUNT(*)`, `COUNT(col)`, `COUNT(DISTINCT col)` or the plain column. */
  datatype Projection =
    | SelectColumn(column: Column)
    | CountColumn(column: Column)
    | CountDistinctColumn(column: Column)
    | CountStar

  datatype Select = Select(distinct: bool, projection: Projection, where: seq<Constraint>)

  datatype Command = Insert(entry: Entry) | Delete(where: seq<Constraint>)

  /** What a SELECT yields: a column of strings or a single count. */
  datatype Answer = Values(values: seq<string>) | Number(number: int)

  /** The entries a WHERE clause selects, in log order. */
  function Filter(log: seq<Entry>, where: seq<Constraint>): (r: seq<Entry>)
    ensures |r| <= |log|
    ensures forall e :: e in r <==> e in log && Satisfies(e, where)
  {
    if log == [] then []
    else
      var init, last := log[..|log| - 1], log[|log| - 1];
      assert log == init + [last];
      var rest := Filter(init, where);
      if Satisfies(last, where) then rest + [last] else rest
  }

  /** The entries a `DELETE ... WHERE` leaves behind, in log order. */
  function Remove(log: seq<Entry>, where: seq<Constraint>): (r: seq<Entry>)
    ensures |r| <= |log|
    ensures forall e :: e in r <==> e in log && !Satisfies(e, where)
  {
    if log == [] then []
    else
      var init, last := log[..|log| - 1], log[|log| - 1];
      assert log == init + [last];
      var rest := Remove(init, where);
      if Satisfies(last, where) then rest else rest + [last]
  }

  /** One column of every entry, in order. */
  function Project(log: seq<Entry>, column: Column): seq<string> {
    seq(|log|, i requires 0 <= i < |log| => ValueOf(log[i], column))
  }

  predicate NoDuplicates(s: seq<string>) {
    forall i, j :: 0 <= i < j < |s| ==> s[i] != s[j]
  }

  /** `DISTINCT`: each value once, at its first occurrence. */
  function Distinct(s: seq<string>): (r: seq<string>)
    ensures NoDuplicates(r)
    ensures forall x :: x in r <==> x in s
    ensures |r| <= |s|
  {
    if s == [] then []
    else
      var init, last := s[..|s| - 1], s[|s| - 1];
      assert s == init + [last];
      var d := Distinct(init);
      if last in d then d else d + [last]
  }

  function Eval(q: Select, log: seq<Entry>): Answer {
    var matched := Filter(log, q.where);
    match q.projection
    case SelectColumn(c) =>
      var vs := Project(matched, c);
      Values(if q.distinct then Distinct(vs) else vs)
    case CountColumn(c) => Number(|Project(matched, c)|)
    case CountDistinctColumn(c) => Number(|Distinct(Project(matched, c))|)
    case CountStar => Number(|matched|)
  }

  function Apply(cmd: Command, log: seq<Entry>): seq<Entry> {
    match cmd
    case Insert(e) => log + [e]
    case Delete(where) => Remove(log, where)
  }

  /** The live sub-log at `ts`: the entries with `expiration > ts`. */
  function Live(log: seq<Entry>, ts: int): seq<Entry> {
    Filter(log, [ExpirationGt(ts)])
  }

  // ---------------------------------------------------------------------------
  // Reference definitions by positions in the log.

  /** The positions of the entries a WHERE clause selects. */
  ghost function Positions(log: seq<Entry>, where: seq<Constraint>): set<int> {
    set i | 0 <= i < |log| && Satisfies(log[i], where)
  }

  /** The positions of the selected entries whose `column` equals `v`. */
  ghost function Occurrences(log: seq<Entry>, where: seq<Constraint>, column: Column, v: string): set<int> {
    set i | 0 <= i < |log| && Satisfies(log[i], where) && ValueOf(log[i], column) == v
  }

  /** The set of values of `column` among the selected entries. */
  ghost function ValueSet(log: seq<Entry>, where: seq<Constraint>, column: Column): set<string> {
    set e | e in log && Satisfies(e, where) :: ValueOf(e, column)
  }

  // ---------------------------------------------------------------------------
  // Lemmas about the evaluator.

  lemma SatisfiesAppend(e: Entry, a: seq<Constraint>, b: seq<Constraint>)
    ensures Satisfies(e, a + b) <==> Satisfies(e, a) && Satisfies(e, b)
  {
  }

  lemma SatisfiesSingle(e: Entry, c: Constraint)
    ensures Satisfies(e, [c]) <==> Holds(c, e)
  {
    assert c in [c];
  }

  lemma SatisfiesPair(e: Entry, c: Constraint, d: Constraint)
    ensures Satisfies(e, [c, d]) <==> Holds(c, e) && Holds(d, e)
  {
    assert c in [c, d] && d in [c, d];
  }

  lemma SatisfiesTriple(e: Entry, c: Constraint, d: Constraint, f: Constraint)
    ensures Satisfies(e, [c, d, f]) <==> Holds(c, e) && Holds(d, e) && Holds(f, e)
  {
    assert c in [c, d, f] && d in [c, d, f] && f in [c, d, f];
  }

  /** A statement restricted to `expiration > ts` answers what it answers over the live sub-log. */
  lemma EvalOnLiveSubLog(q: Select, log: seq<Entry>, ts: int)
    ensures Eval(q.(where := q.where + [ExpirationGt(ts)]), log) == Eval(q, Live(log, ts))
  {
    forall e ensures Satisfies(e, q.where + [ExpirationGt(ts)]) <==> Satisfies(e, [ExpirationGt(ts)]) && Satisfies(e, q.where) {
      SatisfiesAppend(e, q.where, [ExpirationGt(ts)]);
    }
    FilterFilter(log, [ExpirationGt(ts)], q.where, q.where + [ExpirationGt(ts)]);
  }

  /** Deleting with an empty WHERE clause deletes everything. */
  lemma {:induction false} RemoveAll(log: seq<Entry>)
    ensures Remove(log, []) == []
  {
    if log != [] {
      RemoveAll(log[..|log| - 1]);
    }
  }

  lemma FilterSnoc(log: seq<Entry>, e: Entry, where: seq<Constraint>)
    ensures Filter(log + [e], where) == Filter(log, where) + (if Satisfies(e, where) then [e] else [])
  {
    assert (log + [e])[..|log|] == log;
  }

  lemma RemoveSnoc(log: seq<Entry>, e: Entry, where: seq<Constraint>)
    ensures Remove(log + [e], where) == Remove(log, where) + (if Satisfies(e, where) then [] else [e])
  {
    assert (log + [e])[..|log|] == log;
  }

  /** Filtering distributes over concatenation of logs. */
  lemma {:induction false} FilterAppend(a: seq<Entry>, b: seq<Entry>, where: seq<Constraint>)
    ensures Filter(a + b, where) == Filter(a, where) + Filter(b, where)
    decreases |b|
  {
    if b == [] {
      assert a + b == a;
    } else {
      var init, last := b[..|b| - 1], b[|b| - 1];
      assert b == init + [last];
      assert a + b == (a + init) + [last];
      FilterAppend(a, init, where);
      FilterSnoc(a + init, last, where);
      FilterSnoc(init, last, where);
    }
  }

  /** A duplicate-free list holds each of its values exactly once. */
  lemma {:induction false} NoDuplicatesOnce(s: seq<string>)
    requires NoDuplicates(s)
    ensures forall x :: multiset(s)[x] == if x in s then 1 else 0
  {
    if s != [] {
      var init, last := s[..|s| - 1], s[|s| - 1];
      assert s == init + [last];
      NoDuplicatesOnce(init);
      assert last !in init;
    }
  }

  /** Between duplicate-free lists, inclusion of values is inclusion of multisets. */
  lemma NoDuplicatesSubMultiset(a: seq<string>, b: seq<string>)
    requires NoDuplicates(a) && NoDuplicates(b)
    requires forall x :: x in a ==> x in b
    ensures multiset(a) <= multiset(b)
  {
    NoDuplicatesOnce(a);
    NoDuplicatesOnce(b);
  }

  /** Filtering twice is filtering once by the conjunction. */
  lemma {:induction false} FilterFilter(log: seq<Entry>, w1: seq<Constraint>, w2: seq<Constraint>, w: seq<Constraint>)
    requires forall e :: Satisfies(e, w) <==> Satisfies(e, w1) && Satisfies(e, w2)
    ensures Filter(Filter(log, w1), w2) == Filter(log, w)
  {
    if log != [] {
      var init, last := log[..|log| - 1], log[|log| - 1];
      FilterFilter(init, w1, w2, w);
      if Satisfies(last, w1) {
        FilterSnoc(Filter(init, w1), last, w2);
      }
    }
  }

  /** A DELETE leaves the entries a complementary WHERE clause selects, in the same order. */
  lemma {:induction false} RemoveIsComplement(log: seq<Entry>, drop: seq<Constraint>, keep: seq<Constraint>)
    requires forall e :: Satisfies(e, keep) <==> !Satisfies(e, drop)
    ensures Remove(log, drop) == Filter(log, keep)
  {
    if log != [] {
      RemoveIsComplement(log[..|log| - 1], drop, keep);
    }
  }

  /** A DELETE of entries a WHERE clause never selects does not change what it selects. */
  lemma {:induction false} FilterAfterRemove(log: seq<Entry>, drop: seq<Constraint>, where: seq<Constraint>)
    requires forall e :: Satisfies(e, where) ==> !Satisfies(e, drop)
    ensures Filter(Remove(log, drop), where) == Filter(log, where)
  {
    if log != [] {
      var init, last := log[..|log| - 1], log[|log| - 1];
      FilterAfterRemove(init, drop, where);
      if !Satisfies(last, drop) {
        FilterSnoc(Remove(init, drop), last, where);
      }
    }
  }

  lemma PositionsSnoc(log: seq<Entry>, e: Entry, where: seq<Constraint>)
    ensures Positions(log + [e], where) == Positions(log, where) + (if Satisfies(e, where) then {|log|} else {})
  {
    var l, n := log + [e], |log|;
    forall i | i in Positions(l, where) ensures i < n ==> i in Positions(log, where) {
      if i < n { assert l[i] == log[i]; }
    }
    forall i | i in Positions(log, where) ensures i in Positions(l, where) {
      assert l[i] == log[i];
    }
  }

  /** Selecting keeps one entry per selected position of the log. */
  lemma {:induction false} FilterSize(log: seq<Entry>, where: seq<Constraint>)
    ensures |Filter(log, where)| == |Positions(log, where)|
  {
    if log != [] {
      var init, last := log[..|log| - 1], log[|log| - 1];
      assert log == init + [last];
      FilterSize(init, where);
      PositionsSnoc(init, last, where);
      FilterSnoc(init, last, where);
      assert |init| !in Positions(init, where);
    }
  }

  lemma OccurrencesSnoc(log: seq<Entry>, e: Entry, where: seq<Constraint>, column: Column, v: string)
    ensures Occurrences(log + [e], where, column, v) ==
      Occurrences(log, where, column, v) +
      (if Satisfies(e, where) && ValueOf(e, column) == v then {|log|} else {})
  {
    var l, n := log + [e], |log|;
    forall i | i in Occurrences(l, where, column, v) ensures i < n ==> i in Occurrences(log, where, column, v) {
      if i < n { assert l[i] == log[i]; }
    }
    forall i | i in Occurrences(log, where, column, v) ensures i in Occurrences(l, where, column, v) {
      assert l[i] == log[i];
    }
  }

  lemma ProjectSnoc(s: seq<Entry>, e: Entry, column: Column)
    ensures Project(s + [e], column) == Project(s, column) + [ValueOf(e, column)]
  {
  }

  /** Each value occurs in a projected column once per selected entry that carries it. */
  lemma {:induction false} ProjectMultiplicity(log: seq<Entry>, where: seq<Constraint>, column: Column, v: string)
    ensures multiset(Project(Filter(log, where), column))[v] == |Occurrences(log, where, column, v)|
  {
    if log != [] {
      var init, last := log[..|log| - 1], log[|log| - 1];
      assert log == init + [last];
      ProjectMultiplicity(init, where, column, v);
      OccurrencesSnoc(init, last, where, column, v);
      assert |init| !in Occurrences(init, where, column, v);
      FilterSnoc(init, last, where);
      var before := Filter(init, where);
      if Satisfies(last, where) {
        ProjectSnoc(before, last, column);
        assert multiset(Project(Filter(log, where), column)) ==
          multiset(Project(before, column)) + multiset{ValueOf(last, column)};
      } else {
        assert Filter(log, where) == before;
      }
    }
  }

  /** The values of a projected column are exactly the value set of the selection. */
  lemma ProjectMembers(log: seq<Entry>, where: seq<Constraint>, column: Column)
    ensures forall v :: v in Project(Filter(log, where), column) <==> v in ValueSet(log, where, column)
  {
    var m := Filter(log, where);
    forall v ensures v in Project(m, column) <==> v in ValueSet(log, where, column) {
      if v in Project(m, column) {
        var i :| 0 <= i < |m| && Project(m, column)[i] == v;
        assert m[i] in m;
      }
      if v in ValueSet(log, where, column) {
        var e :| e in log && Satisfies(e, where) && ValueOf(e, column) == v;
        assert e in m;
        var i :| 0 <= i < |m| && m[i] == e;
        assert Project(m, column)[i] == v;
      }
    }
  }

  /** A sequence without duplicates has as many elements as its set of elements. */
  lemma {:induction false} NoDuplicatesSize(s: seq<string>)
    requires NoDuplicates(s)
    ensures |set x | x in s| == |s|
  {
    if s != [] {
      var init, last := s[..|s| - 1], s[|s| - 1];
      assert s == init + [last];
      NoDuplicatesSize(init);
      assert (set x | x in s) == (set x | x in init) + {last};
      assert last !in init;
    }
  }

  /** `DISTINCT` yields as many values as there are different ones. */
  lemma DistinctSize(s: seq<string>)
    ensures |Distinct(s)| == |set x | x in s|
  {
    NoDuplicatesSize(Distinct(s));
    assert (set x | x in Distinct(s)) == (set x | x in s);
  }

  /** Deduplicating the selected column gives exactly its value set, once each. */
  lemma DistinctColumn(log: seq<Entry>, where: seq<Constraint>, column: Column)
    ensures var d := Distinct(Project(Filter(log, where), column));
      NoDuplicates(d) && |d| == |ValueSet(log, where, column)| &&
      forall v :: v in d <==> v in ValueSet(log, where, column)
  {
    var vs := Project(Filter(log, where), column);
    ProjectMembers(log, where, column);
    DistinctSize(vs);
    assert (set x | x in vs) == ValueSet(log, where, column);
  }

  /** Concatenating the two halves of a set of pairs yields no more strings than there are pairs. */
  lemma {:induction false} ConcatenationsAtMostPairs(pairs: set<(string, string)>)
    ensures |set p | p in pairs :: p.0 + p.1| <= |pairs|
    decreases |pairs|
  {
    if pairs != {} {
      var a :| a in pairs;
      ConcatenationsAtMostPairs(pairs - {a});
      assert (set p | p in pairs :: p.0 + p.1) == (set p | p in pairs - {a} :: p.0 + p.1) + {a.0 + a.1};
    }
  }

  /** A WHERE clause that says nothing about expiration. */
  predicate ExpirationFree(where: seq<Constraint>) {
    forall c :: c in where ==> !c.ExpirationGt? && !c.ExpirationLe?
  }

  /** Two logs that record the same hits in the same order, whatever their expirations. */
  predicate SameHits(a: seq<Entry>, b: seq<Entry>) {
    |a| == |b| &&
    forall i :: 0 <= i < |a| ==> a[i].namespace == b[i].namespace && a[i].key == b[i].key
  }

  /** A clause that ignores expiration selects the same hits from logs that differ only in expirations. */
  lemma {:induction false} FilterIgnoresExpiration(a: seq<Entry>, b: seq<Entry>, where: seq<Constraint>)
    requires ExpirationFree(where) && SameHits(a, b)
    ensures SameHits(Filter(a, where), Filter(b, where))
  {
    if a != [] {
      var n := |a| - 1;
      FilterIgnoresExpiration(a[..n], b[..n], where);
      assert Satisfies(a[n], where) == Satisfies(b[n], where) by {
        forall c | c in where ensures Holds(c, a[n]) == Holds(c, b[n]) {
        }
      }
    }
  }

  /** A statement whose clause ignores expiration gives the same answer on logs that differ only in expirations. */
  lemma EvalIgnoresExpiration(q: Select, a: seq<Entry>, b: seq<Entry>)
    requires ExpirationFree(q.where) && SameHits(a, b)
    ensures Eval(q, a) == Eval(q, b)
  {
    var fa, fb := Filter(a, q.where), Filter(b, q.where);
    FilterIgnoresExpiration(a, b, q.where);
    forall c: Column ensures Project(fa, c) == Project(fb, c) {
    }
  }

  /** A clause that no entry of the log satisfies selects nothing. */
  lemma {:induction false} FilterNone(log: seq<Entry>, where: seq<Constraint>)
    requires forall e :: e in log ==> !Satisfies(e, where)
    ensures Filter(log, where) == []
  {
    if log != [] {
      FilterNone(log[..|log| - 1], where);
    }
  }

  /** Selecting from a log yields a sub-multiset of any column of the log. */
  lemma {:induction false} FilterSubMultiset(log: seq<Entry>, where: seq<Constraint>, column: Column)
    ensures multiset(Project(Filter(log, where), column)) <= multiset(Project(log, column))
  {
    if log != [] {
      var init, last := log[..|log| - 1], log[|log| - 1];
      assert log == init + [last];
      FilterSubMultiset(init, where, column);
      assert Project(log, column) == Project(init, column) + [ValueOf(last, column)];
      var before := Filter(init, where);
      if Satisfies(last, where) {
        assert Project(before + [last], column) == Project(before, column) + [ValueOf(last, column)];
      }
    }
  }

  /**
   * The selected entries keep their relative order: the k-th of them sits at
   * position idx[k] of the log, and the positions increase.
   */
  lemma {:induction false} FilterKeepsOrder(log: seq<Entry>, where: seq<Constraint>) returns (idx: seq<int>)
    ensures |idx| == |Filter(log, where)|
    ensures forall k :: 0 <= k < |idx| ==> 0 <= idx[k] < |log| && Filter(log, where)[k] == log[idx[k]]
    ensures forall k, l :: 0 <= k < l < |idx| ==> idx[k] < idx[l]
  {
    if log == [] {
      idx := [];
    } else {
      var init, last := log[..|log| - 1], log[|log| - 1];
      var rest := FilterKeepsOrder(init, where);
      if Satisfies(last, where) {
        idx := rest + [|init|];
      } else {
        idx := rest;
      }
    }
  }

  /** A clause every entry of the log satisfies keeps the whole log. */
  lemma {:induction false} FilterAll(log: seq<Entry>, where: seq<Constraint>)
    requires forall e :: e in log ==> Satisfies(e, where)
    ensures Filter(log, where) == log
  {
    if log != [] {
      var init := log[..|log| - 1];
      assert forall e :: e in init ==> e in log;
      FilterAll(init, where);
    }
  }

  /**
   * A statement scoped to one namespace answers the same after entries of
   * other namespaces are appended to the log.
   */
  lemma EvalScoped(q: Select, log: seq<Entry>, extra: seq<Entry>, namespace: string)
    requires NamespaceEq(namespace) in q.where
    requires forall e :: e in extra ==> e.namespace != namespace
    ensures Eval(q, log + extra) == Eval(q, log)
  {
    forall e | e in extra ensures !Satisfies(e, q.where) {
      assert !Holds(NamespaceEq(namespace), e);
    }
    FilterNone(extra, q.where);
    FilterAppend(log, extra, q.where);
    assert Filter(log + extra, q.where) == Filter(log, q.where);
  }
}
