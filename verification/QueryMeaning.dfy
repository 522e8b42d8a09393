/** The scoring query and the score in the columns of the raw rows: index sets, an independent percentile and the
    arithmetic spelled out. */
module QueryMeaning {
  import opened Ingest
  import opened Scoring
  import opened Leaderboard

  /** The rows of one run and submission, as indices. */
  predicate Member(rows: seq<Row>, key: GroupKey, i: int) {
    0 <= i < |rows| && rows[i].runID == key.runID && rows[i].submissionID == key.submissionID
  }

  // ---- Selection as index sets ----

  function Indices(rows: seq<Row>, c: Condition, d: Condition): set<int> {
    set i | 0 <= i < |rows| && Holds(c, rows[i]) && Holds(d, rows[i])
  }

  lemma {:induction false} SelectSnoc(rows: seq<Row>, x: Row, c: Condition)
    ensures Select(rows + [x], c) == Select(rows, c) + (if Holds(c, x) then [x] else [])
  {
    if rows == [] {
      assert [] + [x] == [x];
      assert Select([x][1..], c) == [];
    } else {
      assert (rows + [x])[1..] == rows[1..] + [x] && (rows + [x])[0] == rows[0];
      SelectSnoc(rows[1..], x, c);
    }
  }

  /** Selecting twice counts the indices where both conditions hold. */
  lemma {:induction false} SelectTwiceCounts(rows: seq<Row>, c: Condition, d: Condition)
    ensures |Select(Select(rows, c), d)| == |Indices(rows, c, d)|
  {
    if rows != [] {
      var n := |rows| - 1;
      var front, last := rows[..n], rows[n];
      SelectTwiceCounts(front, c, d);
      assert rows == front + [last];
      SelectSnoc(front, last, c);
      if Holds(c, last) {
        SelectSnoc(Select(front, c), last, d);
      }
      assert Select(front, c) + [] == Select(front, c);
      IndicesSnoc(rows, c, d);
    }
  }

  lemma IndexInPrefix(rows: seq<Row>, c: Condition, d: Condition, i: int)
    requires rows != []
    ensures var n := |rows| - 1;
            i in Indices(rows, c, d)
            <==> i in Indices(rows[..n], c, d) || (i == n && Holds(c, rows[n]) && Holds(d, rows[n]))
  {
    var n := |rows| - 1;
    if 0 <= i < n {
      assert rows[..n][i] == rows[i];
    }
  }

  lemma IndicesSnoc(rows: seq<Row>, c: Condition, d: Condition)
    requires rows != []
    ensures var n := |rows| - 1;
            |Indices(rows, c, d)|
            == |Indices(rows[..n], c, d)| + (if Holds(c, rows[n]) && Holds(d, rows[n]) then 1 else 0)
  {
    var n := |rows| - 1;
    var before := Indices(rows[..n], c, d);
    var both := Holds(c, rows[n]) && Holds(d, rows[n]);
    forall i
      ensures i in Indices(rows, c, d) <==> i in before || (i == n && both)
    {
      IndexInPrefix(rows, c, d, i);
    }
    AddIndex(before, Indices(rows, c, d), n, both);
  }

  /** A set of smaller indices and perhaps one more. */
  lemma AddIndex<T>(before: set<T>, after: set<T>, n: T, more: bool)
    requires n !in before && forall i :: i in after <==> i in before || (i == n && more)
    ensures |after| == |before| + (if more then 1 else 0)
  {
    if more {
      assert after == before + {n};
    } else {
      assert after == before;
    }
  }

  lemma GroupHolds(row: Row, key: GroupKey)
    ensures Holds(InGroup(key), row) <==> row.runID == key.runID && row.submissionID == key.submissionID
  {
  }

  // ---- Counts ----

  /** total, success and correct are the numbers of the group's rows, of its successful rows, of its correct rows. */
  lemma CountsInFields(rows: seq<Row>, key: GroupKey)
    requires Select(rows, InGroup(key)) != []
    ensures var a := AggregateOf(rows, key);
            && a.key == key
            && a.total == |set i | 0 <= i < |rows| && Member(rows, key, i)|
            && a.success == |set i | 0 <= i < |rows| && Member(rows, key, i) && rows[i].isSuccessful|
            && a.correct == |set i | 0 <= i < |rows| && Member(rows, key, i) && rows[i].isCorrect|
  {
    var members := Select(rows, InGroup(key));
    SelectHolds(members, InGroup(key));
    SelectHolds(rows, InGroup(key));
    SelectTwiceCounts(rows, InGroup(key), InGroup(key));
    SelectTwiceCounts(rows, InGroup(key), Succeeded);
    SelectTwiceCounts(rows, InGroup(key), Correct);
    MembersAre(rows, key);
    SuccessesAre(rows, key);
    CorrectsAre(rows, key);
  }

  lemma MembersAre(rows: seq<Row>, key: GroupKey)
    ensures Indices(rows, InGroup(key), InGroup(key)) == set i | 0 <= i < |rows| && Member(rows, key, i)
  {
  }

  lemma SuccessesAre(rows: seq<Row>, key: GroupKey)
    ensures Indices(rows, InGroup(key), Succeeded)
            == set i | 0 <= i < |rows| && Member(rows, key, i) && rows[i].isSuccessful
  {
  }

  lemma CorrectsAre(rows: seq<Row>, key: GroupKey)
    ensures Indices(rows, InGroup(key), Correct)
            == set i | 0 <= i < |rows| && Member(rows, key, i) && rows[i].isCorrect
  {
  }

  lemma ScoredAre(rows: seq<Row>, key: GroupKey)
    ensures Indices(rows, InGroup(key), Scored) == ScoredIndices(rows, key)
  {
  }

  /** A group is kept exactly when two different rows are in it. */
  lemma RepeatedIff(rows: seq<Row>, key: GroupKey)
    ensures Repeated(rows, key) <==> exists i, j :: i != j && Member(rows, key, i) && Member(rows, key, j)
  {
    SelectHolds(Select(rows, InGroup(key)), InGroup(key));
    SelectHolds(rows, InGroup(key));
    SelectTwiceCounts(rows, InGroup(key), InGroup(key));
    var members := set i | 0 <= i < |rows| && Member(rows, key, i);
    MembersAre(rows, key);
    TwoElements(members);
    assert forall i :: i in members <==> Member(rows, key, i);
  }

  lemma AnyOf<T>(s: set<T>) returns (i: T)
    requires |s| > 0
    ensures i in s
  {
    i :| i in s;
  }

  lemma TwoElements(s: set<int>)
    ensures |s| > 1 <==> exists i, j :: i != j && i in s && j in s
  {
    if |s| > 1 {
      var i := AnyOf(s);
      var j := AnyOf(s - {i});
      assert i != j && i in s && j in s;
    }
    if i, j :| i != j && i in s && j in s {
      assert j in s - {i};
      assert |s - {i}| > 0;
      assert |s| == |s - {i}| + 1;
    }
  }

  /** The window keeps every copy of each row sent less than 15 minutes ago and nothing else. */
  lemma WindowInFields(rows: seq<Row>, now: int, row: Row)
    ensures multiset(Select(rows, Recent(now)))[row]
            == if row.time > now - 900_000_000_000 then multiset(rows)[row] else 0
  {
    SelectCounts(rows, Recent(now), row);
  }

  // ---- Rate ----

  lemma MemberSelected(rows: seq<Row>, key: GroupKey, i: nat)
    requires Member(rows, key, i)
    ensures rows[i] in Select(rows, InGroup(key))
  {
    SelectCounts(rows, InGroup(key), rows[i]);
    assert rows[i] in multiset(rows);
    assert rows[i] in multiset(Select(rows, InGroup(key)));
  }

  lemma SelectedIsMember(rows: seq<Row>, key: GroupKey, row: Row) returns (i: nat)
    requires row in Select(rows, InGroup(key))
    ensures Member(rows, key, i) && rows[i] == row
  {
    SelectHolds(rows, InGroup(key));
    i :| 0 <= i < |rows| && rows[i] == row;
  }

  /** Between the group's first and last row, at `lo` and `hi`. */
  ghost predicate Spans(rows: seq<Row>, key: GroupKey, lo: nat, hi: nat) {
    && Member(rows, key, lo) && Member(rows, key, hi)
    && (forall i | Member(rows, key, i) :: rows[lo].time <= rows[i].time <= rows[hi].time)
  }

  lemma SpanTimes(rows: seq<Row>, key: GroupKey, lo: nat, hi: nat)
    requires Spans(rows, key, lo, hi)
    ensures var members := Select(rows, InGroup(key));
            members != [] && MaxTime(members) == rows[hi].time && MinTime(members) == rows[lo].time
  {
    var members := Select(rows, InGroup(key));
    MemberSelected(rows, key, lo);
    MemberSelected(rows, key, hi);
    var last :| last in members && last.time == MaxTime(members);
    var first :| first in members && first.time == MinTime(members);
    var i := SelectedIsMember(rows, key, last);
    var j := SelectedIsMember(rows, key, first);
  }

  /** A group's TPS is the rate of its rows ... */
  lemma TpsIsRate(rows: seq<Row>, key: GroupKey)
    requires Select(rows, InGroup(key)) != []
    ensures AggregateOf(rows, key).tps == Rate(Select(rows, InGroup(key)))
  {
  }

  /** ... which is that of its successful and correct rows over the time between its first and last row ... */
  lemma RateInFields(rows: seq<Row>, key: GroupKey, lo: nat, hi: nat)
    requires Spans(rows, key, lo, hi)
    ensures Select(rows, InGroup(key)) != []
    ensures Rate(Select(rows, InGroup(key))) == PerSecond(|ScoredIndices(rows, key)|, rows[hi].time - rows[lo].time)
  {
    SpanTimes(rows, key, lo, hi);
    ScoredCount(rows, key);
    RateIsPerSecond(Select(rows, InGroup(key)), |ScoredIndices(rows, key)|, rows[hi].time - rows[lo].time);
  }

  lemma RateIsPerSecond(members: seq<Row>, count: nat, span: int)
    requires members != [] && |Select(members, Scored)| == count && MaxTime(members) - MinTime(members) == span
    ensures Rate(members) == PerSecond(count, span)
  {
  }

  function ScoredIndices(rows: seq<Row>, key: GroupKey): set<int> {
    set i | 0 <= i < |rows| && Member(rows, key, i) && rows[i].isSuccessful && rows[i].isCorrect
  }

  /** ... that is, the count over the seconds, 1,000,000,000 nanoseconds each, and 0 over no time. */
  lemma PerSecondInFields(count: nat, span: nat)
    ensures PerSecond(count, 0) == 0.0
    ensures span > 0 ==> PerSecond(count, span) == count as real / (span as real / 1_000_000_000.0)
  {
  }

  lemma ScoredCount(rows: seq<Row>, key: GroupKey)
    ensures |Select(Select(rows, InGroup(key)), Scored)| == |ScoredIndices(rows, key)|
  {
    SelectTwiceCounts(rows, InGroup(key), Scored);
    ScoredAre(rows, key);
  }

  // ---- Percentiles ----

  /** `p` is the `f`-percentile of the ascending values `v`: the value at position f * (n - 1), and on the straight
      line between its neighbours when that is no whole number. */
  predicate IsPercentile(v: seq<int>, f: real, p: real)
    requires v != []
  {
    var position := f * (|v| - 1) as real;
    var k := position.Floor;
    && 0 <= k < |v|
    && (k == |v| - 1 ==> p == v[k] as real)
    && (k < |v| - 1 ==> p == v[k] as real + (position - k as real) * (v[k + 1] - v[k]) as real)
  }

  /** `v` is, in ascending order, the latencies of the group's successful and correct rows. */
  ghost predicate IsSortedLatencies(rows: seq<Row>, key: GroupKey, v: seq<int>) {
    && (forall i, j | 0 <= i < j < |v| :: v[i] <= v[j])
    && (forall x :: multiset(v)[x] == |LatencyIndices(rows, key, x)|)
  }

  function LatencyIndices(rows: seq<Row>, key: GroupKey, x: int): set<int> {
    set i | 0 <= i < |rows| && Member(rows, key, i)
            && rows[i].isSuccessful && rows[i].isCorrect && rows[i].latencyMs == x
  }

  lemma {:induction false} ScoredWithin(rows: seq<Row>, x: int)
    ensures Select(Select(rows, Scored), ScoredWith(x)) == Select(rows, ScoredWith(x))
  {
    if rows != [] {
      var n := |rows| - 1;
      var front, last := rows[..n], rows[n];
      assert rows == front + [last];
      ScoredWithin(front, x);
      SelectSnoc(front, last, Scored);
      SelectSnoc(front, last, ScoredWith(x));
      if Holds(Scored, last) {
        SelectSnoc(Select(front, Scored), last, ScoredWith(x));
      }
      assert Select(front, Scored) + [] == Select(front, Scored);
      assert Select(front, ScoredWith(x)) + [] == Select(front, ScoredWith(x));
    }
  }

  lemma LatencyMultiplicity(rows: seq<Row>, key: GroupKey, x: int)
    ensures multiset(ScoredLatencies(rows, key))[x] == |LatencyIndices(rows, key, x)|
  {
    var members := Select(rows, InGroup(key));
    SelectHolds(members, Scored);
    LatencyCounts(Select(members, Scored), x);
    ScoredWithin(members, x);
    SelectTwiceCounts(rows, InGroup(key), ScoredWith(x));
    assert Indices(rows, InGroup(key), ScoredWith(x)) == LatencyIndices(rows, key, x);
  }

  lemma SortedLatencies(rows: seq<Row>, key: GroupKey, v: seq<int>)
    requires IsSortedLatencies(rows, key, v)
    ensures v == Sorted(ScoredLatencies(rows, key))
    ensures v == [] <==> ScoredLatencies(rows, key) == []
  {
    forall x: int
      ensures multiset(v)[x] == multiset(ScoredLatencies(rows, key))[x]
    {
      LatencyMultiplicity(rows, key, x);
    }
    assert multiset(v) == multiset(Sorted(ScoredLatencies(rows, key)));
    AscendingIsUnique(v, Sorted(ScoredLatencies(rows, key)));
  }

  lemma InterpolateIsPercentile(v: seq<int>, f: real)
    requires v != [] && 0.0 <= f <= 1.0
    ensures IsPercentile(v, f, Interpolate(v, f))
  {
    PositionInRange(|v|, f, f);
  }

  /** The three latencies are the 50th, 90th and 99th percentile, and 0 for a group without a scored row. */
  lemma PercentilesInFields(rows: seq<Row>, key: GroupKey, v: seq<int>)
    requires Select(rows, InGroup(key)) != [] && IsSortedLatencies(rows, key, v)
    ensures var a := AggregateOf(rows, key);
            && (v == [] ==> a.p50 == a.p90 == a.p99 == 0.0)
            && (v != [] ==> IsPercentile(v, 0.50, a.p50) && IsPercentile(v, 0.90, a.p90) && IsPercentile(v, 0.99, a.p99))
  {
    SortedLatencies(rows, key, v);
    if v != [] {
      InterpolateIsPercentile(v, 0.50);
      InterpolateIsPercentile(v, 0.90);
      InterpolateIsPercentile(v, 0.99);
    }
  }

  // ---- The board entry ----

  lemma QuotientTimes(a: real, b: real)
    requires b > 0.0
    ensures a / b * b == a
  {
  }

  /** The two rates apart: the share of rows that were not successful, and the share of successful rows that were
      correct; 1 and 0 when there is nothing to divide by. */
  lemma RatesInFields(a: Aggregate)
    ensures a.total > 0 ==> ErrorRate(a) * a.total as real == a.total as real - a.success as real
    ensures a.total == 0 ==> ErrorRate(a) == 1.0
    ensures a.success > 0 ==> CorrectnessRate(a) * a.success as real == a.correct as real
    ensures a.success == 0 ==> CorrectnessRate(a) == 0.0
  {
    if a.total > 0 {
      var share := a.success as real / a.total as real;
      QuotientTimes(a.success as real, a.total as real);
      assert (1.0 - share) * a.total as real == a.total as real - share * a.total as real;
    }
    if a.success > 0 {
      QuotientTimes(a.correct as real, a.success as real);
    }
  }

  /** An entry carries the query's columns, the two rates and 100 * TPS over the P90, taken as 1 when below, times
      the share of rows answered and the share of those that were correct. */
  lemma EntryInFields(a: Aggregate)
    ensures var e := StatsOf(a);
            && e.key == a.key && e.tps == a.tps && e.p50 == a.p50 && e.p90 == a.p90 && e.p99 == a.p99
            && e.errorRate == ErrorRate(a) && e.correctnessRate == CorrectnessRate(a)
            && e.score == a.tps * 100.0 / (if a.p90 < 1.0 then 1.0 else a.p90)
                          * (1.0 - e.errorRate) * e.correctnessRate
  {
  }

  function EntryIndices(result: seq<Aggregate>, scanOk: seq<bool>, entry: Stats): set<int>
    requires |result| == |scanOk|
  {
    set i | 0 <= i < |result| && scanOk[i] && StatsOf(result[i]) == entry
  }

  lemma EntryIndicesSnoc(result: seq<Aggregate>, scanOk: seq<bool>, entry: Stats)
    requires |result| == |scanOk| && result != []
    ensures var n := |result| - 1;
            |EntryIndices(result, scanOk, entry)|
            == |EntryIndices(result[..n], scanOk[..n], entry)| + (if scanOk[n] && StatsOf(result[n]) == entry then 1 else 0)
  {
    var n := |result| - 1;
    var before := EntryIndices(result[..n], scanOk[..n], entry);
    var more := scanOk[n] && StatsOf(result[n]) == entry;
    forall i
      ensures i in EntryIndices(result, scanOk, entry) <==> i in before || (i == n && more)
    {
      if 0 <= i < n {
        assert result[..n][i] == result[i] && scanOk[..n][i] == scanOk[i];
      }
    }
    AddIndex(before, EntryIndices(result, scanOk, entry), n, more);
  }

  lemma CountSnoc(s: seq<Stats>, x: Stats, entry: Stats)
    ensures multiset(s + [x])[entry] == multiset(s)[entry] + (if x == entry then 1 else 0)
  {
  }

  /** Each scanned row gives one entry, and no other row gives any. */
  lemma {:induction false} ScannedInFields(result: seq<Aggregate>, scanOk: seq<bool>, entry: Stats)
    requires |result| == |scanOk|
    ensures multiset(Scanned(result, scanOk))[entry]
            == |set i | 0 <= i < |result| && scanOk[i] && StatsOf(result[i]) == entry|
  {
    ScannedCount(result, scanOk, entry);
    assert EntryIndices(result, scanOk, entry) == set i | 0 <= i < |result| && scanOk[i] && StatsOf(result[i]) == entry;
  }

  lemma {:induction false} ScannedCount(result: seq<Aggregate>, scanOk: seq<bool>, entry: Stats)
    requires |result| == |scanOk|
    ensures multiset(Scanned(result, scanOk))[entry] == |EntryIndices(result, scanOk, entry)|
  {
    if result == [] {
      assert EntryIndices(result, scanOk, entry) == {};
    } else {
      var n := |result| - 1;
      ScannedCount(result[..n], scanOk[..n], entry);
      EntryIndicesSnoc(result, scanOk, entry);
      CountSnoc(Scanned(result[..n], scanOk[..n]), StatsOf(result[n]), entry);
      assert Scanned(result[..n], scanOk[..n]) + [] == Scanned(result[..n], scanOk[..n]);
    }
  }
}
