# keybase-go query semantics in Dafny

keybase-go is a small key store. Each hit of a key is one row
`(namespace, key, expiration)` in a SQLite table, where `expiration` is a
Unix time in milliseconds. A hit counts as *live* while
`expiration > now`. The package has two revisions of the same query
logic:

- `keybase.go`: the `Keybase` facade. Its SQL statements are hard-wired
  constants, and every read demands `expiration > now`.
- `query.go`: builders of the same statements. `active` decides whether
  the expiration constraint is added. `unique` decides whether the
  projection or the count is `DISTINCT`.

This project models the table as a sequence of entries in insertion order.
Each statement becomes a descriptor: a `Select` with a distinct flag, a
projection and a list of constraints, or a `Command` to insert or delete.
One evaluator, `Table.Eval`, gives every read its meaning, and
`Table.Apply` does the same for writes. `LIKE` is a matcher over `%` (any
run of characters) and `_` (exactly one character). The storage engine is
two functions, `Driver.Query` and `Driver.Exec`. They fail when the
caller's context is done; otherwise they evaluate the statement over the
table. `Scan` becomes `Driver.ScanText` and `Driver.ScanInt`.

What the imperative parts become:

- The `Keybase` type is a class whose field `log` is the table. Its
  methods take the current time `now` as a parameter.
- `Put` and `PruneEntries` reassign `log`.
- The reads change nothing. Each is proved to return exactly the answer
  `Table.Eval` gives for its statement.
- The row helpers (`queryCount`, `queryKeys`, `dbtx.queryCount`,
  `dbtx.queryValues`) are methods over the rows the engine returns. The two
  that collect strings are loops with invariants.

Modules:

- `Wrappers`: Option and Result.
- `Like`: the LIKE matcher.
- `Glob`: the two glob rewrites.
- `Table`: entries, descriptors, the evaluator and its algebra.
- `Driver`: the engine and `Scan`.
- `Query`: `query.go`.
- `Keybase`: `keybase.go`.
- `Revisions`: the two revisions compared, and what the facade's reads mean.

## Model

| member | source | states |
|---|---|---|
| Like.PercentMatchesAll | keybase.go:41 | the LIKE pattern `%` matches every key |
| Like.LiteralMatchesItself | keybase.go:41 | a pattern without `%` or `_` matches exactly the key equal to it |
| Like.PrefixPattern | keybase.go:41 | for a literal prefix, `prefix%` matches exactly the keys that start with the prefix |
| Like.LiteralCharNeeded | keybase.go:41 | a key lacking a literal character of the pattern does not match it |
| Glob.Replace | query.go:60 | `strings.ReplaceAll` of one character: same length, the old character replaced at every position and every other character kept |
| Glob.KeybasePatternShape | keybase.go:147 | the facade's rewrite keeps the length, leaves no `*`, and keeps every other character, `?` included |
| Glob.QueryPatternShape | query.go:60 | the builder's rewrite keeps the length, leaves no `*` or `?`, and keeps every other character, existing `%` and `_` included |
| Glob.SubstitutionsCommute | query.go:60 | rewriting `?` first and `*` second gives the same pattern |
| Glob.SamePatternWithoutQuestionMark | query.go:60 | for a glob without `?`, both rewrites give the same pattern |
| Glob.Witness | query.go:60 | a key that holds no `?`, built from the glob (its match is proved by Glob.WitnessMatches) |
| Glob.WitnessMatches | query.go:60 | that key matches the builder's pattern of the glob |
| Glob.SameMatchesIffNoQuestionMark | keybase.go:147 | the two rewrites match the same keys exactly when the glob holds no `?` |
| Glob.QuestionMarkExample | keybase.go:147 | glob `a?`: key `ab` matches the builder's pattern `a_` and not the facade's `a?` |
| Glob.StarMatchesAll | keybase.go:147 | glob `*` becomes `%` under both rewrites and matches every key |
| Table.Filter | keybase.go:41-51 | a WHERE clause: an entry is selected exactly when it is in the log and meets every constraint, and no more entries than the log holds |
| Table.Remove | keybase.go:52 | a DELETE: an entry survives exactly when it is in the log and does not meet the clause |
| Table.Distinct | keybase.go:42 | DISTINCT: no value twice, exactly the values of the input, no longer than it |
| Table.EvalOnLiveSubLog | query.go:61-63 | a statement with `expiration > ts` added answers what the statement without it answers over the live entries |
| Table.FilterKeepsOrder | keybase.go:52 | the selected entries appear in their log order, at increasing positions |
| Table.ProjectMultiplicity | keybase.go:44 | a plain projection holds each value once per selected entry that carries it |
| Table.DistinctColumn | keybase.go:47 | a DISTINCT projection holds each selected value once, and its length is the number of distinct selected values |
| Table.ConcatenationsAtMostPairs | keybase.go:51 | there are at most as many distinct concatenations as distinct (namespace, key) pairs |
| Table.EvalScoped | keybase.go:41-47 | a statement restricted to one namespace answers the same after entries of other namespaces are appended |
| Table.EvalIgnoresExpiration | query.go:61-63 | a statement without an expiration constraint answers alike on two logs that differ only in expirations |
| Driver.ScanText | keybase.go:290 | scanning into a string succeeds exactly on a one-column row, and a text cell scans to its own text |
| Driver.ScanInt | keybase.go:270 | scanning into an int succeeds exactly on a one-column row holding an integer |
| Driver.AnswerRowsScan | keybase.go:269-275 | the engine's own rows scan back: one string per value, in order, and the count row into its number |
| Query.QueryCount | query.go:172-188 | the count in the first row; 0 with no row; 0 and the error when the query fails; 0 and a scan error when the row is not one integer |
| Query.QueryValues | query.go:190-208 | one string per row in row order, succeeding exactly when every row is one column; the query's error when it fails |
| Query.ActiveScope | query.go:119-121 | the `active` constraint selects every entry when `active` is off, and exactly the live entries when it is on |
| Query.ScopeClause | query.go:90-94 | the namespace and `active` constraints select exactly the entries of the namespace that are live when `active` is set |
| Query.ScopedPositions | query.go:90-94 | the positions such a clause selects are those of the in-scope entries |
| Query.ScopedKeys | query.go:87-94 | the keys such a clause selects are those of the in-scope entries |
| Query.ConsideredPositions | query.go:145-147 | the positions the `active` clause selects are those of the considered entries |
| Query.ConsideredValues | query.go:137-147 | the namespaces and the `namespace + key` strings the `active` clause selects are those of the considered entries |
| Query.GetKeysQueryMeaning | query.go:82-96 | without `unique`, each key once per in-scope entry carrying it; with `unique`, no duplicates and exactly the in-scope keys |
| Query.CountKeysQueryMeaning | query.go:98-113 | the number of in-scope entries, or with `unique` the number of distinct in-scope keys |
| Query.CountKeyQueryMeaning | query.go:68-80 | the number of in-scope entries carrying exactly this key |
| Query.MatchKeyQueryMeaning | query.go:51-66 | as GetKeys, restricted to keys that the rewritten glob matches, both with and without `unique` |
| Query.NamespacesQueryMeaning | query.go:115-124 | namespaces always deduplicated, whatever the flags: each considered namespace exactly once |
| Query.CountNamespacesQueryMeaning | query.go:126-134 | the count is always of distinct namespaces: the number of considered namespaces, equal to the length of the namespace list |
| Query.CountEntriesQueryMeaning | query.go:136-149 | without `unique`, the number of considered entries |
| Query.CountEntriesUniqueQueryMeaning | query.go:136-149 | with `unique`, the number of distinct `namespace + key` strings among the considered entries, never more than the plain count |
| Query.CountEntriesUniqueAtMostPairs | query.go:139-142 | the unique count is at most the number of distinct (namespace, key) pairs |
| Query.ActiveAddsOnlyExpirationGt | query.go:61-63 | `active` appends exactly `expiration > timestamp` to every read builder; without it no constraint mentions expiration |
| Query.ActiveReadsLiveSubLog | query.go:75-77 | every read builder with `active` answers what it answers without `active` over the live entries |
| Query.InactiveIgnoresExpiration | query.go:108-110 | without `active`, stale in-scope entries count exactly like live ones |
| Query.UniqueDeduplicates | query.go:101-104 | `unique` gives the DISTINCT version of the plain list, and each key count is the length of the matching list |
| Query.PruneKeepsActiveReads | query.go:151-156 | after pruning at `ts`, every entry left expires after `ts`; the rest is the live log in order; every read demanding `expiration > t` with `t >= ts` answers as before |
| Query.ClearEmptiesLog | query.go:158-162 | clearing leaves the table empty |
| Keybase.QueryCount | keybase.go:260-276 | the count in the first row; -1 with no row; -1 and the error when the query fails; -1 and a scan error when the row is not one integer |
| Keybase.QueryKeys | keybase.go:278-296 | one string per row in row order, succeeding exactly when every row is one column; no keys and an error otherwise |
| Keybase.ScannedValues | keybase.go:289-295 | scanning the engine's value rows gives back exactly the values |
| Keybase.Keybase.constructor | keybase.go:106-119 | a new store is empty and keeps the given TTL |
| Keybase.Keybase.Open | keybase.go:60-64 | a store opened without options is empty and has the default TTL of 10 seconds |
| Keybase.Keybase.Put | keybase.go:127-136 | on success the log is the old log plus `(namespace, key, now + ttl)`; on an engine error it is unchanged; errors exactly when the context is done |
| Keybase.Keybase.MatchKey | keybase.go:139-153 | the keys the statement selects with the glob's `*` rewritten to `%`, `unique` choosing the DISTINCT twin; an error exactly when the context is done |
| Keybase.Keybase.CountKey | keybase.go:156-165 | the statement's count; -1 with the error exactly when the context is done |
| Keybase.Keybase.GetKeys | keybase.go:168-181 | the keys the statement selects, plain or DISTINCT; an error exactly when the context is done |
| Keybase.Keybase.CountKeys | keybase.go:184-197 | the statement's count, plain or DISTINCT; -1 with the error exactly when the context is done |
| Keybase.Keybase.GetNamespaces | keybase.go:200-209 | the DISTINCT live namespaces; an error exactly when the context is done |
| Keybase.Keybase.CountNamespaces | keybase.go:212-221 | the number of distinct live namespaces; -1 with the error exactly when the context is done |
| Keybase.Keybase.CountEntries | keybase.go:224-237 | the live entry count, or the count of distinct concatenations; -1 with the error exactly when the context is done |
| Keybase.Keybase.PruneEntries | keybase.go:240-249 | on success the log keeps exactly the entries with `expiration > now + ttl`; on an engine error it is unchanged |
| Keybase.CountKeySnoc | keybase.go:43 | appending one entry raises a key's count by one exactly when the entry is a live hit of that key |
| Keybase.PutCountsOnce | keybase.go:130-131 | a put raises its own key's count by one when the hit is live at the reading time, and leaves every other key's count unchanged |
| Keybase.TwoPutsCountTwo | keybase_test.go:84-85 | two puts of one key, read before they expire, count 2 |
| Keybase.NamespaceIsolation | keybase.go:41-47 | appending entries of other namespaces changes no MatchKey, CountKey, GetKeys or CountKeys answer |
| Keybase.MatchKeyFilter | keybase.go:41-45 | MatchKey's selection is GetKeys' selection further filtered by the pattern |
| Keybase.MatchKeyWithinGetKeys | keybase.go:41-45 | with or without `unique`, MatchKey's result is a sub-multiset of GetKeys' result under the same flag |
| Keybase.MatchKeyMembers | keybase.go:41-45 | with or without `unique`, every key MatchKey returns matches the pattern and is one GetKeys returns |
| Keybase.PruneMeaning | keybase.go:243-244 | prune removes exactly the entries expiring at or before `now + ttl` and keeps every other occurrence: the survivors are the later-expiring entries, in log order, as many as there are such positions; with `ttl >= 0` no entry expired at `now` survives |
| Keybase.PruneDeletesLivePut | keybase.go:243-244 | with `ttl > 0`, an entry put at `now` is counted live at `now` and is still deleted by a prune at `now` |
| Keybase.DefaultKeys | keybase_test.go:106-109 | the three test hits are all live in `default` and carry the keys `key0, key0, key1` |
| Keybase.DistinctKeys | keybase_test.go:118-119 | DISTINCT of `key0, key0, key1` is `key0, key1` |
| Keybase.GetKeysExample | keybase_test.go:114-128 | the test's GetKeys returns 3 keys, 2 when unique, and CountKeys returns 3, 2 when unique |
| Keybase.KeysMatchPattern | keybase_test.go:63 | the pattern `key%` matches `key0` and `key1` |
| Keybase.DefaultMatches | keybase_test.go:76-77 | `key%` selects all three test hits of `default` |
| Keybase.MatchKeyExample | keybase_test.go:76-82 | the glob `key*` matches 3 keys, 2 when unique |
| Keybase.CountKeyExample | keybase_test.go:84-86 | `key0` counts 2 |
| Keybase.NineConcatenations | keybase_test.go:176-184 | the nine test hits give these `namespace + key` strings |
| Keybase.NineLive | keybase_test.go:176-184 | all nine test hits are live |
| Keybase.EntriesExample | keybase_test.go:186-188 | the nine hits count 9 entries |
| Keybase.UniqueEntriesExample | keybase_test.go:190-192 | of them, 6 are distinct |
| Keybase.SixConcatenationValues | keybase_test.go:190-192 | the nine concatenations form the set of 6 strings `namespaceNkeyM` |
| Keybase.SixStrings | keybase_test.go:190-192 | those 6 strings are pairwise different |
| Keybase.SixConcatenations | keybase_test.go:190-192 | their DISTINCT list has length 6 |
| Keybase.NineNamespaces | keybase_test.go:143-151 | the namespaces of the nine test hits, in order |
| Keybase.ThreeNamespaceSet | keybase_test.go:153-154 | those namespaces form the set of 3 names |
| Keybase.ThreeNamespaceValues | keybase_test.go:153-158 | the nine hits' namespaces, deduplicated, number 3 |
| Keybase.NamespacesExample | keybase_test.go:153-158 | GetNamespaces lists 3 namespaces and CountNamespaces counts 3 |
| Keybase.ConcatCollision | keybase.go:51 | the different hits ("ab", "c") and ("a", "bc") count as 2 entries but 1 unique entry |
| Revisions.StatementsMatchBuilders | keybase.go:40-52 | every facade statement except MatchKey is the query.go builder with `active = true`; the `COUNT(*)` statements answer like the builders' column counts |
| Revisions.MatchKeySingleEntry | keybase.go:41-42 | over one live entry, MatchKey returns its key exactly when the pattern matches |
| Revisions.MatchKeyRevisionsAgree | keybase.go:147 | the two MatchKey revisions agree over every log exactly when the glob holds no `?` |
| Revisions.GetKeysMeaning | keybase.go:44-45 | GetKeys returns each key once per live entry of the namespace, or each live key once when unique |
| Revisions.CountKeysMeaning | keybase.go:46-47 | CountKeys is the length of GetKeys, and with unique the number of distinct live keys |
| Revisions.CountKeyMeaning | keybase.go:43 | CountKey is the number of live entries of the namespace with exactly this key |
| Revisions.NamespacesMeaning | keybase.go:48-49 | GetNamespaces lists each namespace with a live entry once, and CountNamespaces is its length |
| Revisions.CountEntriesMeaning | keybase.go:50-51 | CountEntries counts live entries; the unique count is at most that and at most the number of distinct (namespace, key) pairs |
| Revisions.PruneAtNowKeepsReads | query.go:151-156 | pruning at the reading instant leaves only live entries and changes no facade read at that instant |

## Left out

- Locking with `sync.RWMutex`, and whether the time is read before or after the lock, are left out. That is concurrency: each method runs alone on the state it is given.
- Context cancellation and timeouts are left out, as is every other engine failure. Each is one opaque case: the context is `Done`, the engine reports `EngineError`, and the table is unchanged.
- The SQL text of the statements and the `go-sqlbuilder` library are left out. Statements are descriptors, so the SQL text and its placeholder arguments are not modelled.
- SQLite's case-insensitive ASCII `LIKE` and its `ESCAPE` clause are left out. The matcher compares characters exactly.
- Row order without `ORDER BY` is left out. The model returns rows in insertion order, and `DISTINCT` keeps each value's first occurrence. The properties that matter are stated through multiplicities, membership and lengths, which hold for any order.
- `Scan` type conversion beyond "one column or not" and "integer or not" is left out. A text cell that Go would parse as an integer is treated as non-integer. NULL cells do not occur.
- `Open`, `Close`, `sqlOpen` with its `Ping`, table and index creation (including `newCreateTableQuery` in query.go) and file-backed storage are left out. They are I/O. The constructor starts from an empty table.
- `parseOptions`, `WithStorage` and `WithTTL` are left out. They are configuration glue; the TTL is a constructor parameter, and `Keybase.Keybase.Open` gives the default of 10 seconds (`Keybase.DefaultTtl`).
- `time.Now`, `time.Duration` and `UnixMilli` are left out. Times and the TTL are integer milliseconds passed in as `now`, so truncating sub-millisecond durations is not modelled.
- The text of `fmt.Errorf` messages and error wrapping are left out. Errors pass through unwrapped.
- `dbtx.queryExec` is not a member of its own. It only forwards to `ExecContext`, which `Driver.Exec` models.
- `rows.Err()` is never consulted by the source. An iteration error after the last row is therefore not modelled.
- `Table.Eval` does not model 64-bit integers: counts and timestamps are unbounded.

## Findings

| source | as written | input that shows it | evidently intended | confidence | as-written member | corrected member |
|---|---|---|---|---|---|---|
| keybase.go:243-244 | `PruneEntries` deletes every entry with `expiration <= now + ttl`, which includes every entry put at or before `now` | TTL 10000 ms: `Put(ns, k)` at time 0 stores expiration 10000; `CountKey(ns, k)` at time 0 counts it; `PruneEntries` at time 0 deletes it | delete only stale entries, those with `expiration <= now` (the comment on line 239 says "removes stale entries"; query.go:151-156 takes the caller's timestamp) | medium, not executed | Keybase.PruneDeletesLivePut | Revisions.PruneAtNowKeepsReads |

The `Keybase` class keeps the facade's behaviour as written. The corrected
threshold is the query.go builder called with the reading instant, and
`Revisions.PruneAtNowKeepsReads` proves that this prune changes no read.
