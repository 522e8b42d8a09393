/** One tick of the scoring engine: from the query's rows to the ranked board it publishes. */
module Leaderboard {
  import opened Prelude
  import opened Ingest
  import opened Scoring
  import SliceSort

  datatype Stats = Stats(
    key: GroupKey,
    tps: real,
    p50: real,
    p90: real,
    p99: real,
    errorRate: real,
    correctnessRate: real,
    score: real)

  function ErrorRate(a: Aggregate): real {
    if a.total > 0 then 1.0 - a.success as real / a.total as real else 1.0
  }

  function CorrectnessRate(a: Aggregate): real {
    if a.success > 0 then a.correct as real / a.success as real else 0.0
  }

  function EffectiveP90(a: Aggregate): (p: real)
    ensures p >= 1.0
  {
    if a.p90 < 1.0 then 1.0 else a.p90
  }

  function Score(a: Aggregate): real {
    (a.tps * 100.0 / EffectiveP90(a)) * (1.0 - ErrorRate(a)) * CorrectnessRate(a)
  }

  function StatsOf(a: Aggregate): Stats {
    Stats(a.key, a.tps, a.p50, a.p90, a.p99, ErrorRate(a), CorrectnessRate(a), Score(a))
  }

  // ---- What the score means ----

  predicate CountsConsistent(a: Aggregate) {
    a.correct <= a.success <= a.total && a.total > 0
  }

  /** The factor the two rates contribute to the score. */
  function Quality(a: Aggregate): real {
    (1.0 - ErrorRate(a)) * CorrectnessRate(a)
  }

  /** The share of a group's rows that were correct. */
  function CorrectShare(a: Aggregate): real
    requires a.total > 0
  {
    a.correct as real / a.total as real
  }

  lemma CancelFactor(a: real, b: real, c: real)
    requires b > 0.0 && c > 0.0
    ensures (b / c) * (a / b) == a / c
  {
  }

  /** In every branch, the two rates together are the share of all rows that were correct. */
  lemma RatesMultiplyOut(a: Aggregate)
    requires CountsConsistent(a)
    ensures Quality(a) == CorrectShare(a)
  {
    if a.success > 0 {
      CancelFactor(a.correct as real, a.success as real, a.total as real);
    }
  }

  lemma ShareInRange(part: nat, whole: nat)
    requires part <= whole && whole > 0
    ensures 0.0 <= part as real / whole as real <= 1.0
  {
  }

  lemma ProductNonNegative(x: real, y: real)
    requires x >= 0.0 && y >= 0.0
    ensures 0.0 <= x * y
  {
  }

  lemma ProductAtMost(x: real, share: real)
    requires x >= 0.0 && share <= 1.0
    ensures x * share <= x
  {
    ProductNonNegative(x, 1.0 - share);
    assert x * (1.0 - share) == x - x * share;
  }

  lemma ProductInRange(x: real, hi: real, share: real)
    requires 0.0 <= x <= hi && 0.0 <= share <= 1.0
    ensures 0.0 <= x * share && x * share <= hi
  {
    ProductNonNegative(x, share);
    ProductAtMost(x, share);
  }

  lemma DivideByAtLeastOne(x: real, d: real)
    requires x >= 0.0 && d >= 1.0
    ensures 0.0 <= x / d <= x
  {
    var q := x / d;
    assert q * d == x;
    Scale(1.0, d, q);
    assert q == 1.0 * q <= d * q == q * d;
  }

  lemma ProductAssociates(x: real, y: real, z: real)
    ensures x * y * z == x * (y * z)
  {
  }

  lemma ScoreIsShare(a: Aggregate)
    requires CountsConsistent(a)
    ensures Score(a) == (a.tps * 100.0 / EffectiveP90(a)) * CorrectShare(a)
  {
    RatesMultiplyOut(a);
    ProductAssociates(a.tps * 100.0 / EffectiveP90(a), 1.0 - ErrorRate(a), CorrectnessRate(a));
  }

  lemma RatesInRange(a: Aggregate)
    requires CountsConsistent(a)
    ensures 0.0 <= ErrorRate(a) <= 1.0 && 0.0 <= CorrectnessRate(a) <= 1.0
  {
    ShareInRange(a.success, a.total);
    if a.success > 0 {
      ShareInRange(a.correct, a.success);
    }
  }

  /** The score is the rate of correct answers per unit of latency, and never leaves [0, 100 * TPS]. */
  lemma ScoreBounds(a: Aggregate)
    requires CountsConsistent(a) && a.tps >= 0.0
    ensures Score(a) == (a.tps * 100.0 / EffectiveP90(a)) * CorrectShare(a)
    ensures 0.0 <= Score(a) <= 100.0 * a.tps
    ensures 0.0 <= ErrorRate(a) <= 1.0 && 0.0 <= CorrectnessRate(a) <= 1.0
  {
    ScoreIsShare(a);
    RatesInRange(a);
    DivideByAtLeastOne(a.tps * 100.0, EffectiveP90(a));
    ShareInRange(a.correct, a.total);
    ProductInRange(a.tps * 100.0 / EffectiveP90(a), a.tps * 100.0, CorrectShare(a));
  }

  /** For any rows the ingest service can have stored: correct <= success <= total in every group, and the
      score is within its bounds. */
  lemma StoredRowsScoreBounds(rows: seq<Row>, key: GroupKey)
    requires CorrectImpliesSuccessful(rows) && Select(rows, InGroup(key)) != []
    ensures var a := AggregateOf(rows, key);
            && a.correct <= a.success <= a.total
            && Quality(a) == CorrectShare(a)
            && 0.0 <= Score(a) <= 100.0 * a.tps
  {
    CountsOrdered(rows, key);
    RatesMultiplyOut(AggregateOf(rows, key));
    ScoreBounds(AggregateOf(rows, key));
  }

  // ---- The tick ----

  /** The entries of the rows that were scanned without error, in the order the query returned them. */
  function Scanned(result: seq<Aggregate>, scanOk: seq<bool>): seq<Stats>
    requires |result| == |scanOk|
  {
    if result == [] then []
    else
      var n := |result| - 1;
      Scanned(result[..n], scanOk[..n]) + (if scanOk[n] then [StatsOf(result[n])] else [])
  }

  lemma ScannedSnoc(result: seq<Aggregate>, scanOk: seq<bool>, i: nat)
    requires |result| == |scanOk| && i < |result|
    ensures Scanned(result[..i + 1], scanOk[..i + 1])
            == Scanned(result[..i], scanOk[..i]) + (if scanOk[i] then [StatsOf(result[i])] else [])
  {
    assert result[..i + 1][..i] == result[..i] && scanOk[..i + 1][..i] == scanOk[..i];
  }

  predicate Ranked(board: seq<Stats>) {
    forall i, j | 0 <= i < j < |board| :: board[i].score >= board[j].score
  }

  datatype LockAnswer = LockError | Taken | Acquired

  datatype QueryAnswer = QueryError | QueryRows(result: seq<Aggregate>)

  lemma ByScoreIsStrictWeakOrder()
    ensures SliceSort.StrictWeakOrder((x: Stats, y: Stats) => x.score > y.score)
  {
  }

  /** One turn of the engine's loop. The board is what gets published; None when the tick is skipped, the query
      fails or no row was scanned. `scanOk[i]` says whether row `i` scans. */
  method ScoreTick(lock: LockAnswer, query: QueryAnswer, scanOk: seq<bool>) returns (board: Option<seq<Stats>>)
    requires query.QueryRows? ==> |scanOk| == |query.result|
    ensures board.Some? <==> lock.Acquired? && query.QueryRows? && (exists i | 0 <= i < |scanOk| :: scanOk[i])
    ensures board.Some? ==> multiset(board.value) == multiset(Scanned(query.result, scanOk))
    ensures board.Some? && (forall i | 0 <= i < |scanOk| :: scanOk[i]) ==>
              multiset(board.value) == multiset(AllStats(query.result))
    ensures board.Some? ==> Ranked(board.value)
  {
    if !lock.Acquired? {
      return None;
    }
    if query.QueryError? {
      return None;
    }
    var currentBoard := ScanRows(query.result, scanOk);
    if |currentBoard| == 0 {
      return None;
    }
    if forall i | 0 <= i < |scanOk| :: scanOk[i] {
      ScannedAll(query.result, scanOk);
    }
    var ranked := SortBoard(currentBoard);
    return Some(ranked);
  }

  /** The row loop: rows that do not scan are skipped. */
  method ScanRows(result: seq<Aggregate>, scanOk: seq<bool>) returns (currentBoard: seq<Stats>)
    requires |scanOk| == |result|
    ensures currentBoard == Scanned(result, scanOk)
    ensures currentBoard == [] <==> forall k | 0 <= k < |scanOk| :: !scanOk[k]
  {
    currentBoard := [];
    for i := 0 to |result|
      invariant currentBoard == Scanned(result[..i], scanOk[..i])
      invariant currentBoard == [] <==> forall k | 0 <= k < i :: !scanOk[k]
    {
      ScannedSnoc(result, scanOk, i);
      if !scanOk[i] {
        continue;
      }
      var stats := ScoreRow(result[i]);
      currentBoard := currentBoard + [stats];
    }
    assert result[..|result|] == result && scanOk[..|result|] == scanOk;
  }

  /** The body of the row loop: the two rates, the clamped latency and the score. */
  method ScoreRow(row: Aggregate) returns (stats: Stats)
    ensures stats == StatsOf(row)
  {
    var errorRate := 1.0;
    if row.total > 0 {
      errorRate := 1.0 - row.success as real / row.total as real;
    }
    var correctnessRate := 0.0;
    if row.success > 0 {
      correctnessRate := row.correct as real / row.success as real;
    }
    var effectiveP90 := row.p90;
    if effectiveP90 < 1.0 {
      effectiveP90 := 1.0;
    }
    var score := (row.tps * 100.0 / effectiveP90) * (1.0 - errorRate) * correctnessRate;
    stats := Stats(row.key, row.tps, row.p50, row.p90, row.p99, errorRate, correctnessRate, score);
  }

  method SortBoard(entries: seq<Stats>) returns (ranked: seq<Stats>)
    ensures multiset(ranked) == multiset(entries)
    ensures Ranked(ranked)
  {
    var a := new Stats[|entries|](i requires 0 <= i < |entries| => entries[i]);
    assert a[..] == entries;
    ByScoreIsStrictWeakOrder();
    var byScore := (x: Stats, y: Stats) => x.score > y.score;
    SliceSort.Sort(a, byScore);
    ranked := a[..];
    assert forall i, j | 0 <= i < j < |ranked| :: !byScore(ranked[j], ranked[i]);
  }

  // ---- The board has one entry per group ----

  /** What the query may return over these rows: one aggregate per group of more than one row, in any order. */
  predicate IsResult(rows: seq<Row>, keys: seq<GroupKey>, result: seq<Aggregate>) {
    |keys| == |result| && Distinct(keys) && CoversGroups(rows, keys) && SummarizesEach(rows, keys, result)
  }

  predicate CoversGroups(rows: seq<Row>, keys: seq<GroupKey>) {
    forall row | row in rows && Repeated(rows, KeyOf(row)) :: KeyOf(row) in keys
  }

  /** HAVING COUNT(*) > 1. */
  predicate Repeated(rows: seq<Row>, key: GroupKey) {
    |Select(rows, InGroup(key))| > 1
  }

  predicate SummarizesEach(rows: seq<Row>, keys: seq<GroupKey>, result: seq<Aggregate>)
    requires |keys| == |result|
  {
    forall i | 0 <= i < |keys| :: SummarizesGroup(rows, keys[i], result[i])
  }

  predicate SummarizesGroup(rows: seq<Row>, key: GroupKey, a: Aggregate) {
    Repeated(rows, key) && a == AggregateOf(rows, key)
  }

  function AllStats(result: seq<Aggregate>): (entries: seq<Stats>)
    ensures |entries| == |result|
  {
    seq(|result|, i requires 0 <= i < |result| => StatsOf(result[i]))
  }

  lemma {:induction false} ScannedAll(result: seq<Aggregate>, scanOk: seq<bool>)
    requires |result| == |scanOk| && forall i | 0 <= i < |scanOk| :: scanOk[i]
    ensures Scanned(result, scanOk) == AllStats(result)
  {
    if result != [] {
      var n := |result| - 1;
      ScannedAll(result[..n], scanOk[..n]);
      assert AllStats(result) == AllStats(result[..n]) + [StatsOf(result[n])];
    }
  }

  function EntriesFor(board: multiset<Stats>, rows: seq<Row>, key: GroupKey): nat
    requires Select(rows, InGroup(key)) != []
  {
    board[StatsOf(AggregateOf(rows, key))]
  }

  lemma {:induction false} DistinctCount<T>(s: seq<T>, x: T)
    requires Distinct(s)
    ensures multiset(s)[x] == if x in s then 1 else 0
  {
    if s != [] {
      DistinctCount(s[1..], x);
      assert s == [s[0]] + s[1..];
      assert multiset(s)[x] == multiset([s[0]])[x] + multiset(s[1..])[x];
    }
  }

  lemma ResultEntriesDistinct(rows: seq<Row>, keys: seq<GroupKey>, result: seq<Aggregate>)
    requires IsResult(rows, keys, result)
    ensures Distinct(AllStats(result))
  {
    var entries := AllStats(result);
    forall i, j | 0 <= i < j < |entries|
      ensures entries[i] != entries[j]
    {
      assert SummarizesGroup(rows, keys[i], result[i]) && SummarizesGroup(rows, keys[j], result[j]);
      assert entries[i].key == keys[i] && entries[j].key == keys[j];
    }
  }

  lemma EntryOfGroup(rows: seq<Row>, keys: seq<GroupKey>, result: seq<Aggregate>, key: GroupKey)
    requires IsResult(rows, keys, result) && key in keys
    ensures Repeated(rows, key)
    ensures multiset(AllStats(result))[StatsOf(AggregateOf(rows, key))] == 1
  {
    var entries := AllStats(result);
    ResultEntriesDistinct(rows, keys, result);
    var i :| 0 <= i < |keys| && keys[i] == key;
    assert SummarizesGroup(rows, keys[i], result[i]);
    assert entries[i] == StatsOf(AggregateOf(rows, key));
    DistinctCount(entries, entries[i]);
  }

  lemma EntryIsOfGroup(rows: seq<Row>, keys: seq<GroupKey>, result: seq<Aggregate>, entry: Stats)
    requires IsResult(rows, keys, result) && entry in AllStats(result)
    ensures Repeated(rows, entry.key)
    ensures entry == StatsOf(AggregateOf(rows, entry.key))
  {
    var i :| 0 <= i < |result| && StatsOf(result[i]) == entry;
    assert SummarizesGroup(rows, keys[i], result[i]);
  }

  // ---- The query has a result for every rows, and only one up to order ----

  /** Each group key that occurs, once. */
  function KeysOf(rows: seq<Row>): (keys: seq<GroupKey>)
    ensures Distinct(keys)
    ensures forall row | row in rows :: KeyOf(row) in keys
  {
    if rows == [] then []
    else
      var n := |rows| - 1;
      var keys := KeysOf(rows[..n]);
      assert rows == rows[..n] + [rows[n]];
      if KeyOf(rows[n]) in keys then keys else keys + [KeyOf(rows[n])]
  }

  /** The keys of the groups the query keeps. */
  function Kept(rows: seq<Row>, keys: seq<GroupKey>): (kept: seq<GroupKey>)
    requires Distinct(keys)
    ensures Distinct(kept)
    ensures forall key :: key in kept <==> key in keys && Repeated(rows, key)
  {
    if keys == [] then []
    else
      var n := |keys| - 1;
      var kept := Kept(rows, keys[..n]);
      assert keys == keys[..n] + [keys[n]];
      if Repeated(rows, keys[n]) then kept + [keys[n]] else kept
  }

  function QueryKeys(rows: seq<Row>): seq<GroupKey> {
    Kept(rows, KeysOf(rows))
  }

  /** The query's result over these rows, in order of first appearance. */
  function QueryResult(rows: seq<Row>): (result: seq<Aggregate>)
    ensures |result| == |QueryKeys(rows)|
  {
    var keys := QueryKeys(rows);
    seq(|keys|, i requires 0 <= i < |keys| =>
      assert keys[i] in keys;
      AggregateOf(rows, keys[i]))
  }

  lemma QueryHasResult(rows: seq<Row>)
    ensures IsResult(rows, QueryKeys(rows), QueryResult(rows))
  {
    var keys := QueryKeys(rows);
    forall i | 0 <= i < |keys|
      ensures SummarizesGroup(rows, keys[i], QueryResult(rows)[i])
    {
      assert keys[i] in keys;
    }
  }

  lemma InResultIff(rows: seq<Row>, keys: seq<GroupKey>, result: seq<Aggregate>, a: Aggregate)
    requires IsResult(rows, keys, result)
    ensures a in result <==> SummarizesGroup(rows, a.key, a)
  {
    if a in result {
      var i :| 0 <= i < |result| && result[i] == a;
      assert SummarizesGroup(rows, keys[i], result[i]);
    }
    if SummarizesGroup(rows, a.key, a) {
      SelectHolds(rows, InGroup(a.key));
      var row := Select(rows, InGroup(a.key))[0];
      assert row in Select(rows, InGroup(a.key));
      var i :| 0 <= i < |keys| && keys[i] == a.key;
      assert SummarizesGroup(rows, keys[i], result[i]);
      assert result[i] == a;
    }
  }

  lemma ResultDistinct(rows: seq<Row>, keys: seq<GroupKey>, result: seq<Aggregate>)
    requires IsResult(rows, keys, result)
    ensures Distinct(result)
  {
    forall i, j | 0 <= i < j < |result|
      ensures result[i] != result[j]
    {
      assert SummarizesGroup(rows, keys[i], result[i]) && SummarizesGroup(rows, keys[j], result[j]);
      assert result[i].key == keys[i] && result[j].key == keys[j];
    }
  }

  /** Any result the query may return is a permutation of this one. */
  lemma ResultIsUnique(rows: seq<Row>, keys: seq<GroupKey>, result: seq<Aggregate>)
    requires IsResult(rows, keys, result)
    ensures multiset(result) == multiset(QueryResult(rows))
  {
    QueryHasResult(rows);
    ResultDistinct(rows, keys, result);
    ResultDistinct(rows, QueryKeys(rows), QueryResult(rows));
    forall a: Aggregate
      ensures multiset(result)[a] == multiset(QueryResult(rows))[a]
    {
      InResultIff(rows, keys, result, a);
      InResultIff(rows, QueryKeys(rows), QueryResult(rows), a);
      DistinctCount(result, a);
      DistinctCount(QueryResult(rows), a);
    }
  }

  lemma {:induction false} ScannedFromResult(result: seq<Aggregate>, scanOk: seq<bool>, entry: Stats)
    requires |result| == |scanOk| && entry in Scanned(result, scanOk)
    ensures exists i :: 0 <= i < |result| && StatsOf(result[i]) == entry
  {
    var n := |result| - 1;
    if entry in Scanned(result[..n], scanOk[..n]) {
      ScannedFromResult(result[..n], scanOk[..n], entry);
      var i :| 0 <= i < n && StatsOf(result[..n][i]) == entry;
      assert StatsOf(result[i]) == entry;
    } else {
      assert StatsOf(result[n]) == entry;
    }
  }

  // ---- What the board conserves ----

  predicate OneEntryPerGroup(rows: seq<Row>, board: seq<Stats>) {
    forall row | row in rows && Repeated(rows, KeyOf(row)) ::
      EntriesFor(multiset(board), rows, KeyOf(row)) == 1
  }

  predicate OnlyGroupEntries(rows: seq<Row>, board: seq<Stats>) {
    forall entry | entry in board ::
      Repeated(rows, entry.key) && entry == StatsOf(AggregateOf(rows, entry.key))
  }

  /** The board of a tick that scanned every row has exactly one entry for each group of more than one row, the
      entry computed from that group, and nothing else. */
  lemma BoardConservesGroups(rows: seq<Row>, keys: seq<GroupKey>, result: seq<Aggregate>, board: seq<Stats>)
    requires IsResult(rows, keys, result)
    requires multiset(board) == multiset(AllStats(result))
    ensures |board| == |keys|
    ensures OneEntryPerGroup(rows, board)
    ensures OnlyGroupEntries(rows, board)
  {
    var entries := AllStats(result);
    assert |board| == |multiset(board)| == |multiset(entries)| == |entries|;
    forall row | row in rows && Repeated(rows, KeyOf(row))
      ensures EntriesFor(multiset(board), rows, KeyOf(row)) == 1
    {
      EntryOfGroup(rows, keys, result, KeyOf(row));
    }
    forall entry | entry in board
      ensures Repeated(rows, entry.key) && entry == StatsOf(AggregateOf(rows, entry.key))
    {
      assert entry in multiset(entries);
      EntryIsOfGroup(rows, keys, result, entry);
    }
  }
}
