/** The scan-score-rank pipeline of `searchAndSortFromRedis`: collect every key the
    cursor-driven SCAN returns, fetch, decode and score each record while skipping the
    ones that fail, then rank the scored records. */
module Scanner {
  import opened Wrappers
  import opened Store
  import opened Ranking

  /** The algorithm used when neither the request nor the user's configuration names one. */
  const DefaultAlgorithm: string := "bm25"

  /** A search request: the query, the user it is made for, an algorithm that overrides
      the user's default when non-empty, and the MATCH pattern of the scan. */
  datatype SearchRequest = SearchRequest(query: string, userId: string, algorithm: string, keyPattern: string)

  /** One entry of the configuration's `users` list. A missing or falsy `algorithm`
      property is represented by "". */
  datatype UserEntry = UserEntry(userId: string, algorithm: string)

  /** The parsed configuration; `users` is None when the configuration has no `users` list. */
  datatype Config = Config(users: Option<seq<UserEntry>>)

  /** The two outside computations applied to each record: `JSON.parse` of the stored value
      (None when it throws) and `calculateScore` (None when it throws). */
  datatype Oracles<!Raw, !V> = Oracles(decode: Raw -> Option<V>, score: (string, V, string) -> Option<int>)

  // ----- cursor-driven key collection -----

  /** The key batches carried by a sequence of SCAN replies. */
  function ReplyKeys(replies: seq<ScanReply>): (batches: seq<seq<string>>)
    ensures |batches| == |replies|
    ensures forall i :: 0 <= i < |replies| ==> batches[i] == replies[i].keys
  {
    seq(|replies|, i requires 0 <= i < |replies| => replies[i].keys)
  }

  lemma ConcatSnoc(batches: seq<seq<string>>, batch: seq<string>)
    ensures Concat(batches + [batch]) == Concat(batches) + batch
  {
    assert (batches + [batch])[..|batches|] == batches;
  }

  /** The number of keys over all batches. */
  function TotalKeys(batches: seq<seq<string>>): nat
  {
    if batches == [] then 0 else TotalKeys(batches[..|batches| - 1]) + |batches[|batches| - 1]|
  }

  /** Concatenation neither drops nor merges keys: it has as many keys as all batches
      together, and the k-th key of batch j sits right after the keys of the batches
      before it. */
  lemma {:induction false} ConcatKeepsEveryKey(batches: seq<seq<string>>, j: int, k: int)
    requires 0 <= j < |batches| && 0 <= k < |batches[j]|
    ensures |Concat(batches[..j])| + k < |Concat(batches)|
    ensures Concat(batches)[|Concat(batches[..j])| + k] == batches[j][k]
  {
    var init := batches[..|batches| - 1];
    if j < |batches| - 1 {
      ConcatKeepsEveryKey(init, j, k);
      assert init[..j] == batches[..j];
    } else {
      assert batches[..j] == init;
    }
  }

  lemma {:induction false} ConcatLength(batches: seq<seq<string>>)
    ensures |Concat(batches)| == TotalKeys(batches)
  {
    if batches != [] {
      ConcatLength(batches[..|batches| - 1]);
    }
  }

  lemma ReplyKeysSnoc(replies: seq<ScanReply>, reply: ScanReply)
    ensures ReplyKeys(replies + [reply]) == ReplyKeys(replies) + [reply.keys]
  {
  }

  lemma ConcatPrefixSnoc(batches: seq<seq<string>>, n: int)
    requires 0 <= n < |batches|
    ensures Concat(batches[..n + 1]) == Concat(batches[..n]) + batches[n]
  {
    ConcatSnoc(batches[..n], batches[n]);
    assert batches[..n + 1] == batches[..n] + [batches[n]];
  }

  /** One more SCAN request, made from the cursor that the previous reply handed back. */
  lemma ScanOneMore(batches: seq<seq<string>>, replies: seq<ScanReply>, keys: seq<string>, reply: ScanReply)
    requires replies == [] || |replies| < |batches|
    requires keys == Concat(ReplyKeys(replies)) && keys == Concat(batches[..|replies|])
    requires reply == ReplyAt(batches, |replies|)
    ensures keys + reply.keys == Concat(ReplyKeys(replies + [reply]))
    ensures reply.cursor != 0 ==> keys + reply.keys == Concat(batches[..|replies| + 1])
    ensures reply.cursor == 0 ==> keys + reply.keys == Concat(batches)
  {
    var n := |replies|;
    ReplyKeysSnoc(replies, reply);
    ConcatSnoc(ReplyKeys(replies), reply.keys);
    if n < |batches| {
      ConcatPrefixSnoc(batches, n);
      assert reply.cursor == 0 ==> batches[..n + 1] == batches;
    } else {
      assert batches == [] && reply.keys == [];
    }
  }

  /** Replies to requests for batch 0, 1, 2, ... in turn, the last and only the last
      with cursor 0, are exactly the replies of a client that follows the cursors. */
  lemma RepliesFollowCursors(batches: seq<seq<string>>, replies: seq<ScanReply>)
    requires |replies| >= 1
    requires forall i :: 0 <= i < |replies| ==> replies[i] == ReplyAt(batches, i)
    requires forall i :: 0 <= i < |replies| - 1 ==> replies[i].cursor != 0
    requires replies[|replies| - 1].cursor == 0
    ensures forall i :: 0 <= i < |replies| ==>
              replies[i] == ReplyAt(batches, if i == 0 then 0 else replies[i - 1].cursor)
    ensures forall i :: 0 <= i < |replies| ==> (replies[i].cursor == 0 <==> i == |replies| - 1)
  {
    forall i | 0 <= i < |replies| - 1
      ensures replies[i].cursor == i + 1
    {
    }
  }

  /** The `do … while` SCAN loop: requests a batch from the current cursor, appends its keys
      and continues until the store hands back cursor 0. `replies` records the replies in
      the order they came. */
  method CollectKeys<Raw>(client: Client<Raw>, pattern: string)
    returns (keys: seq<string>, ghost replies: seq<ScanReply>)
    requires client.connected
    ensures |replies| >= 1
    ensures forall i :: 0 <= i < |replies| ==>
              replies[i] == ReplyAt(client.scanBatches(pattern), if i == 0 then 0 else replies[i - 1].cursor)
    ensures forall i :: 0 <= i < |replies| ==> (replies[i].cursor == 0 <==> i == |replies| - 1)
    ensures keys == Concat(ReplyKeys(replies))
    ensures keys == Concat(client.scanBatches(pattern))
  {
    ghost var batches := client.scanBatches(pattern);
    keys, replies := [], [];
    var cursor: nat := 0;
    while true
      invariant (cursor == 0 && replies == []) || (0 < cursor == |replies| < |batches|)
      invariant forall i :: 0 <= i < |replies| ==> replies[i] == ReplyAt(batches, i)
      invariant forall i :: 0 <= i < |replies| ==> replies[i].cursor != 0
      invariant keys == Concat(ReplyKeys(replies))
      invariant keys == Concat(batches[..|replies|])
      decreases |batches| - |replies|
    {
      var reply := client.Scan(cursor, pattern);
      ScanOneMore(batches, replies, keys, reply);
      cursor := reply.cursor;
      keys := keys + reply.keys;
      replies := replies + [reply];
      if cursor == 0 {
        break;
      }
    }
    RepliesFollowCursors(batches, replies);
  }

  // ----- algorithm precedence -----

  /** `i` is the first entry of `users` for `userId`. */
  predicate FirstMatch(users: seq<UserEntry>, userId: string, i: int)
  {
    && 0 <= i < |users|
    && users[i].userId == userId
    && forall j :: 0 <= j < i ==> users[j].userId != userId
  }

  /** `users.find(user => user.user_id === userId)`. */
  function FindUser(users: seq<UserEntry>, userId: string): (found: Option<UserEntry>)
    ensures found.None? <==> forall j :: 0 <= j < |users| ==> users[j].userId != userId
    ensures found.Some? ==> exists i :: FirstMatch(users, userId, i) && users[i] == found.value
  {
    if users == [] then None
    else if users[0].userId == userId then
      assert FirstMatch(users, userId, 0);
      Some(users[0])
    else
      var found := FindUser(users[1..], userId);
      if found.Some? then
        var i :| FirstMatch(users[1..], userId, i) && users[1..][i] == found.value;
        assert FirstMatch(users, userId, i + 1);
        found
      else
        found
  }

  /** `algorithm || config.users.find(...)?.algorithm || "bm25"`: None when evaluating it
      throws, which happens when it has to look at a configuration without a `users`
      list. */
  function ResolveAlgorithm(algorithm: string, userId: string, config: Config): (r: Option<string>)
    ensures algorithm != "" ==> r == Some(algorithm)
    ensures algorithm == "" && config.users.None? ==> r == None
    ensures algorithm == "" && config.users.Some? ==>
              forall i :: FirstMatch(config.users.value, userId, i) ==>
                r == Some(if config.users.value[i].algorithm != "" then config.users.value[i].algorithm
                          else DefaultAlgorithm)
    ensures (&& algorithm == "" && config.users.Some?
             && forall j :: 0 <= j < |config.users.value| ==> config.users.value[j].userId != userId)
            ==> r == Some(DefaultAlgorithm)
  {
    if algorithm != "" then Some(algorithm)
    else if config.users.None? then None
    else
      var found := FindUser(config.users.value, userId);
      if found.Some? && found.value.algorithm != "" then Some(found.value.algorithm)
      else Some(DefaultAlgorithm)
  }

  // ----- per-record scoring -----

  /** The body of the per-key `try`: decode the value, pick the algorithm, score. None
      when any of the three throws. */
  function ScoreOne<Raw, V>(key: string, raw: Raw, req: SearchRequest, config: Config, o: Oracles<Raw, V>)
    : (r: Option<Scored<V>>)
    ensures r.Some? <==>
              && o.decode(raw).Some?
              && ResolveAlgorithm(req.algorithm, req.userId, config).Some?
              && o.score(req.query, o.decode(raw).value, ResolveAlgorithm(req.algorithm, req.userId, config).value).Some?
    ensures r.Some? ==> r.value.key == key && Some(r.value.value) == o.decode(raw)
    ensures r.Some? ==> Some(r.value.score)
                          == o.score(req.query, r.value.value, ResolveAlgorithm(req.algorithm, req.userId, config).value)
  {
    match o.decode(raw)
    case None => None
    case Some(v) =>
      match ResolveAlgorithm(req.algorithm, req.userId, config)
      case None => None
      case Some(alg) =>
        match o.score(req.query, v, alg)
        case None => None
        case Some(s) => Some(Scored(key, v, s))
  }

  /** Reference definition of `allValues`: the scored records of the keys whose scoring
      succeeds, in key order. */
  function ScoreRecords<Raw, V>(keys: seq<string>, lookup: string -> Raw, req: SearchRequest,
                                config: Config, o: Oracles<Raw, V>): seq<Scored<V>>
  {
    if keys == [] then []
    else
      var last := keys[|keys| - 1];
      var r := ScoreOne(last, lookup(last), req, config, o);
      ScoreRecords(keys[..|keys| - 1], lookup, req, config, o) + (if r.Some? then [r.value] else [])
  }

  /** Records are scored independently: the records of two runs of keys are those of each. */
  lemma {:induction false} ScoreRecordsAppend<Raw, V>(k1: seq<string>, k2: seq<string>, lookup: string -> Raw,
                                                     req: SearchRequest, config: Config, o: Oracles<Raw, V>)
    ensures ScoreRecords(k1 + k2, lookup, req, config, o)
         == ScoreRecords(k1, lookup, req, config, o) + ScoreRecords(k2, lookup, req, config, o)
  {
    if k2 == [] {
      assert k1 + k2 == k1;
    } else {
      ScoreRecordsAppend(k1, k2[..|k2| - 1], lookup, req, config, o);
      assert (k1 + k2)[..|k1 + k2| - 1] == k1 + k2[..|k2| - 1];
    }
  }

  /** One failing record never aborts the scan: it is left out and the records on either
      side of it are scored as if it were not there. */
  lemma SkipsFailingRecord<Raw, V>(k1: seq<string>, key: string, k2: seq<string>, lookup: string -> Raw,
                                   req: SearchRequest, config: Config, o: Oracles<Raw, V>)
    requires ScoreOne(key, lookup(key), req, config, o).None?
    ensures ScoreRecords(k1 + [key] + k2, lookup, req, config, o)
         == ScoreRecords(k1, lookup, req, config, o) + ScoreRecords(k2, lookup, req, config, o)
  {
    ScoreRecordsAppend(k1 + [key], k2, lookup, req, config, o);
    assert (k1 + [key])[..|k1|] == k1;
  }

  /** Every scored record belongs to a key of the scan and carries that key's decoded value
      and score; every key whose scoring succeeds contributes its record. */
  lemma {:induction false} ScoreRecordsExact<Raw, V>(keys: seq<string>, lookup: string -> Raw,
                                                     req: SearchRequest, config: Config, o: Oracles<Raw, V>)
    ensures forall x :: x in ScoreRecords(keys, lookup, req, config, o) ==>
              x.key in keys && ScoreOne(x.key, lookup(x.key), req, config, o) == Some(x)
    ensures forall i :: 0 <= i < |keys| && ScoreOne(keys[i], lookup(keys[i]), req, config, o).Some? ==>
              ScoreOne(keys[i], lookup(keys[i]), req, config, o).value in ScoreRecords(keys, lookup, req, config, o)
  {
    if keys != [] {
      var init := keys[..|keys| - 1];
      ScoreRecordsExact(init, lookup, req, config, o);
      forall i | 0 <= i < |keys| - 1
        ensures keys[i] == init[i]
      {
      }
    }
  }

  /** When no record fails, every key gives one record, in key order. */
  lemma {:induction false} ScoreRecordsAllSucceed<Raw, V>(keys: seq<string>, lookup: string -> Raw,
                                                          req: SearchRequest, config: Config, o: Oracles<Raw, V>)
    requires forall i :: 0 <= i < |keys| ==> ScoreOne(keys[i], lookup(keys[i]), req, config, o).Some?
    ensures |ScoreRecords(keys, lookup, req, config, o)| == |keys|
    ensures forall i :: 0 <= i < |keys| ==> ScoreRecords(keys, lookup, req, config, o)[i].key == keys[i]
  {
    if keys != [] {
      var init := keys[..|keys| - 1];
      ScoreRecordsAllSucceed(init, lookup, req, config, o);
    }
  }

  /** A single malformed record among well-formed ones costs exactly its own record. */
  lemma OneBadRecordAmongGood<Raw, V>(k1: seq<string>, bad: string, k2: seq<string>, lookup: string -> Raw,
                                      req: SearchRequest, config: Config, o: Oracles<Raw, V>)
    requires forall i :: 0 <= i < |k1| ==> ScoreOne(k1[i], lookup(k1[i]), req, config, o).Some?
    requires forall i :: 0 <= i < |k2| ==> ScoreOne(k2[i], lookup(k2[i]), req, config, o).Some?
    requires ScoreOne(bad, lookup(bad), req, config, o).None?
    ensures |ScoreRecords(k1 + [bad] + k2, lookup, req, config, o)| == |k1| + |k2|
  {
    SkipsFailingRecord(k1, bad, k2, lookup, req, config, o);
    ScoreRecordsAllSucceed(k1, lookup, req, config, o);
    ScoreRecordsAllSucceed(k2, lookup, req, config, o);
  }

  /** Without an explicit algorithm and without a `users` list in the configuration, every
      record fails to score and the search finds nothing. */
  lemma {:induction false} NoUsersListScoresNothing<Raw, V>(keys: seq<string>, lookup: string -> Raw,
                                                            req: SearchRequest, config: Config, o: Oracles<Raw, V>)
    requires req.algorithm == "" && config.users.None?
    ensures ScoreRecords(keys, lookup, req, config, o) == []
  {
    if keys != [] {
      NoUsersListScoresNothing(keys[..|keys| - 1], lookup, req, config, o);
    }
  }

  /** The per-key `for` loop: fetch, then decode and score inside a `try` whose failures
      skip the key. */
  method ScoreAll<Raw, V>(client: Client<Raw>, keys: seq<string>, req: SearchRequest,
                          config: Config, o: Oracles<Raw, V>)
    returns (allValues: seq<Scored<V>>)
    requires client.connected
    ensures allValues == ScoreRecords(keys, client.lookup, req, config, o)
  {
    allValues := [];
    for i := 0 to |keys|
      invariant allValues == ScoreRecords(keys[..i], client.lookup, req, config, o)
    {
      assert keys[..i + 1][..i] == keys[..i];
      var key := keys[i];
      var value := client.Get(key);
      var parsed := o.decode(value);
      if parsed.None? {
        continue;
      }
      var algorithm := ResolveAlgorithm(req.algorithm, req.userId, config);
      if algorithm.None? {
        continue;
      }
      var score := o.score(req.query, parsed.value, algorithm.value);
      if score.None? {
        continue;
      }
      allValues := allValues + [Scored(key, parsed.value, score.value)];
    }
    assert keys[..|keys|] == keys;
  }

  // ----- the whole routine -----

  /** The results of a search: the ranking of the scored records of every key the scan
      returns. */
  function SearchResults<Raw, V>(batches: seq<seq<string>>, lookup: string -> Raw, req: SearchRequest,
                                 config: Config, o: Oracles<Raw, V>): seq<Scored<V>>
  {
    Rank(ScoreRecords(Concat(batches), lookup, req, config, o))
  }

  /** `searchAndSortFromRedis`: connect, collect the keys, score the records, rank them, and
      disconnect. */
  method SearchAndSortFromRedis<Raw, V>(client: Client<Raw>, req: SearchRequest, config: Config,
                                        o: Oracles<Raw, V>)
    returns (results: seq<Scored<V>>)
    requires !client.connected
    modifies client
    ensures !client.connected
    ensures results == SearchResults(client.scanBatches(req.keyPattern), client.lookup, req, config, o)
    ensures |results| <= MaxResults && SortedDesc(results)
    ensures forall i :: 0 <= i < |results| ==> results[i].score != 0
  {
    client.Connect();
    var keys, replies := CollectKeys(client, req.keyPattern);
    var allValues := ScoreAll(client, keys, req, config, o);
    var sorted := new Scored<V>[|allValues|](i requires 0 <= i < |allValues| => allValues[i]);
    assert sorted[..] == allValues;
    results := SortSliceFilter(sorted);
    RankBounds(allValues);
    client.Disconnect();
  }

}
