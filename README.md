# Fantom search utilities: a Dafny model

This project models the core of `components/Fantom.common.ts` from the Fantom search
service. It covers three pieces:

- **Query validation** (`validateSearchParams`). A query is accepted when it is a
  non-empty string that still has characters after JavaScript `trim()`. The search
  parameters are not consulted, because every check on them is commented out.
- **Scoped tags** (`parseScopedTags`). Each tag is split on `:`. A tag that splits into
  exactly two parts is a (scope, value) pair. Its value is appended to that scope's list,
  and the list is created the first time its scope appears. Every other tag is dropped.
- **Search and rank** (`searchAndSortFromRedis`). The model connects to the store and
  collects every key with a cursor-driven `SCAN` loop that runs until the cursor comes
  back as 0. Each key's value is read and decoded, and the record is scored with the
  chosen algorithm. The algorithm is the request's own, else the algorithm of the first
  configured user with the same id, else `"bm25"`. A record whose decoding or scoring
  fails is skipped. The scored records are then stably sorted by descending score, the
  first 10 are kept, and those with a zero score are dropped. Finally the client
  disconnects.

Modules:

| file | module | contents |
|---|---|---|
| `wrappers.dfy` | `Wrappers` | `Option` |
| `search_params.dfy` | `SearchParams` | the JavaScript whitespace set, `Trim`, `ValidateSearchParams` |
| `scoped_tags.dfy` | `ScopedTags` | `Split`/`Join` on a separator, the reference grouping `Grouping`, the in-order loop `ParseScopedTags`, and the loop as written on a plain object `ParseScopedTagsAsWritten` |
| `store.dfy` | `Store` | the key-value client (`Client`) with `Connect`, `Scan`, `Get`, `Disconnect`, and the assumed cursor schedule `ReplyAt` |
| `ranking.dfy` | `Ranking` | the stable descending order `SortDesc` and an in-place insertion sort proved equal to it, the top-10 slice, the truthy-score filter, and `Rank` |
| `scanner.dfy` | `Scanner` | the key-collection loop, algorithm resolution, per-record scoring with skip-on-failure, and the whole `SearchAndSortFromRedis` |

How the store is represented: a `Client` is built from two fixed functions. The first
gives, for each key pattern, the batches of keys the store hands out one `SCAN` reply at
a time. The second gives the raw value stored under each key. `Store.ReplyAt` is an
assumption about the store, not a proved property: it fixes the cursor schedule. The
cursor is the index of the next batch, and 0 is returned with the last batch. What the
loop does with that schedule is proved in `Scanner.CollectKeys` and
`Scanner.RepliesFollowCursors`. `JSON.parse` is built into the JavaScript runtime, and
`calculateScore` is imported from `common/utils`, which is not part of this model.
Neither is modelled. They are passed in as parameters (`Oracles`): a decoder and a
scorer, each of which may fail. Scores are integers. A
score is truthy when it is non-zero. The empty string is the only falsy algorithm name.

Points where the code may surprise a reader:

- The code looks only at the first configured user entry whose id matches. If that entry's algorithm is empty, it
  falls back to `"bm25"` even when a later entry for the same user names an algorithm.
- If the configuration has no `users` list and the request names no algorithm, the
  lookup throws inside the per-record `try`. Every record is then skipped and the
  result is empty (`Scanner.NoUsersListScoresNothing`).
- Negative scores are truthy and are kept. The zero filter runs after the top-10 slice,
  so fewer than 10 results can come back even when more non-zero records exist
  (`Ranking.RankZeroShrinks`).
- `SCAN` may hand out a key more than once. The code does not deduplicate, and the model
  keeps every key of every batch in order.

## Model

| member | source | states |
|---|---|---|
| SearchParams.LeadingWhitespace | components/Fantom.common.ts:58 | the count of leading characters that `trim()` removes: all of them are JavaScript whitespace, and the next character is not |
| SearchParams.TrailingWhitespace | components/Fantom.common.ts:58 | the count of trailing characters that `trim()` removes, with the same two guarantees at the end of the string |
| SearchParams.Trim | components/Fantom.common.ts:58 | `trim()` gives a slice of the query with only whitespace before and after it; the slice is empty exactly when every character is whitespace, and otherwise its first and last characters are not whitespace |
| SearchParams.TrimFacts | components/Fantom.common.ts:58 | the slice `trim()` keeps starts after the leading whitespace and is followed only by whitespace; it is empty exactly when the query is all whitespace, and otherwise its ends are not whitespace |
| SearchParams.ValidateSearchParams | components/Fantom.common.ts:54-76 | the query is accepted exactly when it contains at least one non-whitespace character; the parameters play no part |
| ScopedTags.Split | components/Fantom.common.ts:90 | `split(':')` gives one more part than the string has colons, and no part contains a colon |
| ScopedTags.JoinSplit | components/Fantom.common.ts:90 | joining the parts of a split with the separator gives back the original tag |
| ScopedTags.SplitJoin | components/Fantom.common.ts:90 | splitting a join of colon-free parts gives back those parts |
| ScopedTags.TagKeptIffOneColon | components/Fantom.common.ts:90-91 | a tag is kept exactly when it has exactly one colon |
| ScopedTags.TagParsesIff | components/Fantom.common.ts:90-92 | a tag yields (scope, value) exactly when it is scope, ':', value with no colon on either side; empty scopes and values are allowed |
| ScopedTags.DroppedTagExamples | components/Fantom.common.ts:90-91 | a tag without a colon and a tag with two colons are both dropped |
| ScopedTags.EmptyPartsKeptExamples | components/Fantom.common.ts:90-92 | ":v" is kept with an empty scope and "a:" with an empty value |
| ScopedTags.ValuesForNonEmptyIff | components/Fantom.common.ts:92-96 | a scope has values exactly when some kept tag carries it |
| ScopedTags.GroupingDropped | components/Fantom.common.ts:91 | a dropped tag leaves the dictionary unchanged |
| ScopedTags.GroupingKept | components/Fantom.common.ts:92-96 | a kept tag appends its value to its scope's list and creates that list when the scope is new; no other scope changes |
| ScopedTags.GroupingTotal | components/Fantom.common.ts:89-98 | the lengths of all the lists add up to the number of kept tags, so no value is lost or duplicated |
| ScopedTags.GroupingNonEmpty | components/Fantom.common.ts:93-96 | no scope is created with an empty list |
| ScopedTags.ParseScopedTags | components/Fantom.common.ts:86-101 | the loop's dictionary has exactly the scopes of the kept tags; each scope maps to its values in input order, no list is empty, and the total count equals the number of kept tags |
| ScopedTags.ScopesOfPrefix | components/Fantom.common.ts:89-98 | a scope seen in a prefix of the tags is a scope of all the tags |
| ScopedTags.ScopeOfKeptTag | components/Fantom.common.ts:90-93 | the scope of any kept tag is a key of the result |
| ScopedTags.ParseScopedTagsAsWritten | components/Fantom.common.ts:86-101 | on a plain object, the code throws exactly when some kept tag's scope names an inherited `Object.prototype` member; otherwise it returns the intended grouping |
| ScopedTags.SingleTagGrouping | components/Fantom.common.ts:89-98 | a single kept tag gives a dictionary with one scope and one value |
| ScopedTags.InheritedScopeThrows | components/Fantom.common.ts:93-96 | a single tag such as "constructor:x" makes the code as written throw, while the intended result maps that scope to [value] |
| Store.Client.constructor | components/Fantom.common.ts:152-155 | a new client starts disconnected |
| Store.Client.Connect | components/Fantom.common.ts:160 | after connecting, the client is connected |
| Store.Client.Scan | components/Fantom.common.ts:165 | one `SCAN` call, made only while connected, returns the reply the cursor protocol gives for the pattern's batches |
| Store.Client.Get | components/Fantom.common.ts:173 | one `GET` call, made only while connected, returns the value stored under the key |
| Store.Client.Disconnect | components/Fantom.common.ts:192-193 | after disconnecting, the client is no longer connected |
| Scanner.ConcatKeepsEveryKey | components/Fantom.common.ts:167 | every key of every batch appears in the collected list, at the position given by the batches before it |
| Scanner.ConcatLength | components/Fantom.common.ts:167 | the collected list has as many keys as all the batches together |
| Scanner.ScanOneMore | components/Fantom.common.ts:164-168 | one more reply extends the collected keys by that reply's batch; a zero cursor means every batch has been collected |
| Scanner.RepliesFollowCursors | components/Fantom.common.ts:163-168 | each reply after the first answers the cursor returned by the reply before it, and only the last reply returns cursor 0 |
| Scanner.CollectKeys | components/Fantom.common.ts:162-168 | the do-while loop makes at least one call and starts at cursor 0; each later call uses the previous reply's cursor, and it stops at the first zero cursor; the keys are every batch's keys, in order |
| Scanner.FindUser | components/Fantom.common.ts:179 | `find` gives nothing exactly when no user has the id; otherwise it gives the first user with that id |
| Scanner.ResolveAlgorithm | components/Fantom.common.ts:179 | the request's algorithm wins when it is non-empty; otherwise the first matching user's non-empty algorithm is used, else "bm25"; a missing users list throws |
| Scanner.ScoreOne | components/Fantom.common.ts:173-181 | a record is scored exactly when its value decodes, its algorithm resolves and scoring succeeds; the result keeps the key and the decoded value, and its score is what the scorer returns for the query, that value and the resolved algorithm |
| Scanner.ScoreRecordsAppend | components/Fantom.common.ts:172-186 | scoring two runs of keys one after the other gives the first run's records followed by the second run's |
| Scanner.SkipsFailingRecord | components/Fantom.common.ts:182-185 | a record that fails is skipped, and the records around it are unaffected |
| Scanner.ScoreRecordsExact | components/Fantom.common.ts:172-186 | every kept record is the scoring of some key, and every key that scores successfully is kept |
| Scanner.ScoreRecordsAllSucceed | components/Fantom.common.ts:172-186 | when every record scores, one record is kept per key, in key order |
| Scanner.OneBadRecordAmongGood | components/Fantom.common.ts:172-186 | one failing record among successful ones costs exactly one result |
| Scanner.NoUsersListScoresNothing | components/Fantom.common.ts:174-185 | with no request algorithm and no users list, every record is skipped |
| Scanner.ScoreAll | components/Fantom.common.ts:170-186 | the loop over keys collects exactly the records the per-key scoring keeps, in key order |
| Scanner.SearchAndSortFromRedis | components/Fantom.common.ts:146-195 | the whole search returns the ranked, scored records of every scanned key; at most 10, in descending score order, none with score 0; the client ends disconnected |
| Ranking.InsertDescPermutes | components/Fantom.common.ts:189 | an insertion step neither loses nor adds records |
| Ranking.InsertDescSorted | components/Fantom.common.ts:189 | an insertion step keeps a descending sequence descending |
| Ranking.InsertDescWithScore | components/Fantom.common.ts:189 | an insertion step puts the record after the others of its score and leaves every score class in order |
| Ranking.SortDescIsStableSort | components/Fantom.common.ts:189 | the sort gives a descending permutation of its input that keeps equal-score records in their original order |
| Ranking.SortDescOfSorted | components/Fantom.common.ts:189 | input that is already descending is left unchanged |
| Ranking.StableSortUnique | components/Fantom.common.ts:189 | two descending sequences with the same records in every score class are equal |
| Ranking.StableSortIsSortDesc | components/Fantom.common.ts:189 | any stable descending sort of the records gives the same order as the model's sort |
| Ranking.InsertAt | components/Fantom.common.ts:189 | one in-place pass moves the record at index i left, past the lower-scored records before it, into its sorted position |
| Ranking.SortStep | components/Fantom.common.ts:189 | after the pass at index i, the sorted prefix covers one more record |
| Ranking.SortByScoreDesc | components/Fantom.common.ts:189 | the in-place array sort leaves the array in the stable descending order of its old contents |
| Ranking.FilterTruthy | components/Fantom.common.ts:191 | the filter loop keeps exactly the records with a non-zero score, in order |
| Ranking.SortSliceFilter | components/Fantom.common.ts:188-191 | the sort, slice and filter chain sorts the array in place and returns the ranking of its old contents |
| Ranking.NonZeroMembers | components/Fantom.common.ts:191 | the filter keeps only records of the input, each with a non-zero score, and never more copies than the input has |
| Ranking.NonZeroCount | components/Fantom.common.ts:191 | the kept records and the zero-score records together are exactly as many as the input's records |
| Ranking.NonZeroWithScore | components/Fantom.common.ts:191 | the filter keeps every non-zero score class whole and empties the zero class |
| Ranking.NonZeroSorted | components/Fantom.common.ts:191 | filtering a descending sequence keeps it descending |
| Ranking.NonZeroAllTruthy | components/Fantom.common.ts:191 | when no score is zero, the filter changes nothing |
| Ranking.TopPrefix | components/Fantom.common.ts:190 | `slice(0, 10)` gives a prefix of at most 10 records |
| Ranking.SelectBounds | components/Fantom.common.ts:190-191 | slicing then filtering a descending permutation gives at most 10 descending, non-zero records from the input |
| Ranking.RankBounds | components/Fantom.common.ts:188-191 | the ranking has at most 10 records, in descending order, all with non-zero scores, all taken from the input |
| Ranking.SortDescLength | components/Fantom.common.ts:189 | sorting keeps the number of records |
| Ranking.SelectStable | components/Fantom.common.ts:189-191 | within every non-zero score class, the ranking is a prefix of that class in the sorted order |
| Ranking.RankStable | components/Fantom.common.ts:188-191 | within every non-zero score, the ranked records are the first ones of that score in discovery order; no zero-score record is returned |
| Ranking.RankZeroShrinks | components/Fantom.common.ts:190-191 | the ranking plus the zero-score records among the first 10 sorted ones makes up exactly min(n, 10) |
| Ranking.RankOutscoresCutOff | components/Fantom.common.ts:189-190 | when more than 10 records exist, every returned record scores at least as high as every record left out |
| Ranking.RankEqualScoresInDiscoveryOrder | components/Fantom.common.ts:189 | records with scores 5, 5 and 3 are returned in their discovery order |
| Ranking.RankTieAcrossLowerScore | components/Fantom.common.ts:189 | records a(5), c(3), b(5) come back as a, b, c: the tied records keep their relative order |

## Findings

| source | as written | input that shows it | evidently intended | confidence | as-written member | corrected member |
|---|---|---|---|---|---|---|
| components/Fantom.common.ts:87-96 | the accumulator is a plain `{}`. For a scope that names an inherited `Object.prototype` member, `!scopedTags[scope]` is false, so no list is created. `scopedTags[scope].push(value)` then throws a TypeError | `parseScopedTags(["constructor:x"])` (also `toString`, `valueOf`, `__proto__`, …) | every well-formed tag is grouped under its scope, whatever the scope's name: `{ constructor: ["x"] }` | high; not executed | ScopedTags.ParseScopedTagsAsWritten, ScopedTags.InheritedScopeThrows | ScopedTags.ParseScopedTags |

## Left out

- `loadFantomConfig` (components/Fantom.common.ts:21-41) reads and parses a file. The model takes the parsed configuration as a parameter.
- `formatSearchResults` (components/Fantom.common.ts:112-119) reads the wall clock and only packs its arguments into an object, so there is nothing to prove.
- `getErrorMessage` (components/Fantom.common.ts:129-134) depends on runtime `instanceof` and `String()` conversion of arbitrary values, which the model does not have.
- Client creation (components/Fantom.common.ts:152-155), `REDIS_URL` and database 5 are environment and I/O. The model starts from a disconnected client.
- Connection failures and store errors are not modelled. This covers a throwing `connect`, `scan` or `get`, and the `finally` that still disconnects on such an exception. Store calls always succeed in the model.
- `calculateScore` belongs to another file. It is a parameter that may fail (`Oracles.score`). Its own ranking algorithms are not part of this model.
- `JSON.parse` is a parameter that may fail (`Oracles.decode`). This includes the decoding of a missing key's `null` value.
- Scores are integers. Floating-point scores are not modelled, and neither are `NaN` scores and their effect on the comparator and on truthiness.
- Scanner.ResolveAlgorithm: a user entry's algorithm is a string, and the empty string is the only falsy value. Entries with a non-string algorithm are not modelled.
- SearchParams.ValidateSearchParams: the `typeof query !== 'string'` test always passes, because the query is typed as a string. Non-string queries are not modelled.
- The default `keyPattern` of `'*'` (components/Fantom.common.ts:150) is not modelled. `SearchRequest.keyPattern` must always be given, and a caller that relies on the default passes `"*"` explicitly.
- The `MATCH` glob semantics of `SCAN` are not modelled. The store gives the batches for each pattern directly. Batch boundaries and the order of keys are whatever the store chose.
- Ranking.SortByScoreDesc: the runtime's own sort algorithm is not modelled. Insertion sort stands in for it. `Ranking.StableSortIsSortDesc` shows that every stable descending sort gives the same order, so the result is the same.
- `async`/`await` ordering, concurrent use of the store and the `console` logging are not modelled.
- ScopedTags.ParseScopedTags: the result is a Dafny `map`, which has no key order. JavaScript objects list integer-like keys first and then the rest in insertion order. That listing order is not modelled.
