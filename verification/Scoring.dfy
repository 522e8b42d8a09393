/** The scoring query as functions over stored rows: windowing, grouping, counts, rate and percentiles. */
module Scoring {
  import opened Ingest

  datatype GroupKey = GroupKey(runID: string, submissionID: string)

  function KeyOf(row: Row): GroupKey {
    GroupKey(row.runID, row.submissionID)
  }

  const WINDOW_NS := 900_000_000_000

  /** The row conditions the query uses. */
  datatype Condition =
    | Recent(now: int)
    | InGroup(key: GroupKey)
    | InGroups(keys: set<GroupKey>)
    | Succeeded
    | Correct
    | Scored
    | ScoredWith(latencyMs: int)

  predicate Holds(c: Condition, row: Row) {
    match c
    case Recent(now) => row.time > now - WINDOW_NS
    case InGroup(key) => KeyOf(row) == key
    case InGroups(keys) => KeyOf(row) in keys
    case Succeeded => row.isSuccessful
    case Correct => row.isCorrect
    case Scored => row.isSuccessful && row.isCorrect
    case ScoredWith(latencyMs) => row.isSuccessful && row.isCorrect && row.latencyMs == latencyMs
  }

  function Select(rows: seq<Row>, c: Condition): seq<Row> {
    if rows == [] then []
    else (if Holds(c, rows[0]) then [rows[0]] else []) + Select(rows[1..], c)
  }

  lemma {:induction false} SelectHolds(rows: seq<Row>, c: Condition)
    ensures |Select(rows, c)| <= |rows|
    ensures forall row | row in Select(rows, c) :: Holds(c, row) && row in rows
    ensures (forall row | row in rows :: Holds(c, row)) ==> Select(rows, c) == rows
  {
    if rows != [] {
      SelectHolds(rows[1..], c);
      assert rows == [rows[0]] + rows[1..];
    }
  }

  /** Selection keeps the multiplicity of what it selects. */
  lemma {:induction false} SelectCounts(rows: seq<Row>, c: Condition, row: Row)
    ensures multiset(Select(rows, c))[row] == if Holds(c, row) then multiset(rows)[row] else 0
  {
    if rows != [] {
      SelectCounts(rows[1..], c, row);
      assert rows == [rows[0]] + rows[1..];
      assert multiset(rows)[row] == multiset([rows[0]])[row] + multiset(rows[1..])[row];
    }
  }

  predicate Permuted(a: seq<Row>, b: seq<Row>) {
    multiset(a) == multiset(b)
  }

  lemma SelectPermutes(a: seq<Row>, b: seq<Row>, c: Condition)
    requires Permuted(a, b)
    ensures Permuted(Select(a, c), Select(b, c))
    ensures |Select(a, c)| == |Select(b, c)|
  {
    forall row: Row
      ensures multiset(Select(a, c))[row] == multiset(Select(b, c))[row]
    {
      SelectCounts(a, c, row);
      SelectCounts(b, c, row);
    }
    assert multiset(Select(a, c)) == multiset(Select(b, c));
    assert |Select(a, c)| == |multiset(Select(a, c))|;
    assert |Select(b, c)| == |multiset(Select(b, c))|;
  }

  // ---- Percentiles ----

  predicate Ascending(s: seq<int>) {
    forall i, j | 0 <= i < j < |s| :: s[i] <= s[j]
  }

  lemma WithoutFirst(s: seq<int>)
    requires s != []
    ensures s == [s[0]] + s[1..] && multiset(s[1..]) == multiset(s) - multiset{s[0]}
  {
    assert s == [s[0]] + s[1..];
  }

  lemma PrependAscending(x: int, s: seq<int>)
    requires Ascending(s) && forall y | y in s :: x <= y
    ensures Ascending([x] + s)
  {
    forall i, j | 0 <= i < j < |[x] + s|
      ensures ([x] + s)[i] <= ([x] + s)[j]
    {
      assert s[j - 1] in s;
    }
  }

  lemma Prepended(x: int, s: seq<int>)
    ensures multiset([x] + s) == multiset(s) + multiset{x}
    ensures forall y :: y in [x] + s <==> y == x || y in s
  {
  }

  function Insert(x: int, s: seq<int>): (t: seq<int>)
    requires Ascending(s)
    ensures multiset(t) == multiset(s) + multiset{x}
    ensures Ascending(t)
    ensures forall y :: y in t <==> y == x || y in s
  {
    if s == [] then [x]
    else if x <= s[0] then
      Prepended(x, s);
      [x] + s
    else
      var rest := Insert(x, s[1..]);
      WithoutFirst(s);
      Prepended(s[0], s[1..]);
      Prepended(s[0], rest);
      PrependAscending(s[0], rest);
      [s[0]] + rest
  }

  /** ORDER BY over the latencies. */
  function Sorted(s: seq<int>): (t: seq<int>)
    ensures multiset(t) == multiset(s) && Ascending(t)
    ensures |t| == |s|
    ensures forall y :: y in t <==> y in s
  {
    if s == [] then []
    else
      assert s == [s[0]] + s[1..];
      var t := Insert(s[0], Sorted(s[1..]));
      assert |t| == |multiset(t)| == |multiset(s)| == |s|;
      t
  }

  lemma FirstIsLeast(s: seq<int>, t: seq<int>)
    requires Ascending(s) && multiset(s) == multiset(t) && s != [] && t != []
    ensures s[0] <= t[0]
  {
    assert t[0] in multiset(s);
    var i :| 0 <= i < |s| && s[i] == t[0];
  }

  lemma {:induction false} AscendingIsUnique(s: seq<int>, t: seq<int>)
    requires Ascending(s) && Ascending(t) && multiset(s) == multiset(t)
    ensures s == t
  {
    assert |s| == |multiset(s)| == |multiset(t)| == |t|;
    if s != [] {
      FirstIsLeast(s, t);
      FirstIsLeast(t, s);
      WithoutFirst(s);
      WithoutFirst(t);
      AscendingIsUnique(s[1..], t[1..]);
    }
  }

  /** The value at a position between indices of an ascending sequence, by linear interpolation. */
  function ValueAt(v: seq<int>, position: real): real
    requires v != [] && 0.0 <= position <= (|v| - 1) as real
  {
    var first := position.Floor;
    if position == first as real then v[first] as real
    else v[first] as real + Part(position - first as real, v[first + 1] - v[first])
  }

  function Part(fraction: real, step: int): real {
    fraction * step as real
  }

  lemma PartBounds(a: real, b: real, step: int)
    requires 0.0 <= a <= b <= 1.0 && step >= 0
    ensures 0.0 <= Part(a, step) <= Part(b, step) <= step as real
  {
    Scale(0.0, a, step as real);
    Scale(a, b, step as real);
    Scale(b, 1.0, step as real);
  }

  lemma Scale(a: real, b: real, k: real)
    requires a <= b && k >= 0.0
    ensures a * k <= b * k
  {
  }

  function Position(n: nat, f: real): real {
    f * (n - 1) as real
  }

  lemma PositionInRange(n: nat, f: real, g: real)
    requires n > 0 && 0.0 <= f <= g <= 1.0
    ensures 0.0 <= Position(n, f) <= Position(n, g) <= (n - 1) as real
  {
    Scale(0.0, f, (n - 1) as real);
    Scale(f, g, (n - 1) as real);
    Scale(g, 1.0, (n - 1) as real);
  }

  /** PostgreSQL's percentile_cont over ascending values: the value at position f * (n - 1). */
  function Interpolate(v: seq<int>, f: real): real
    requires v != [] && 0.0 <= f <= 1.0
  {
    PositionInRange(|v|, f, f);
    ValueAt(v, Position(|v|, f))
  }

  /** The interpolated value as seen from the segment it falls in. */
  lemma SegmentBounds(v: seq<int>, position: real)
    requires v != [] && Ascending(v) && 0.0 <= position <= (|v| - 1) as real
    ensures v[position.Floor] as real <= ValueAt(v, position)
    ensures position.Floor + 1 < |v| ==> ValueAt(v, position) <= v[position.Floor + 1] as real
    ensures position.Floor + 1 == |v| ==> ValueAt(v, position) == v[position.Floor] as real
  {
    var first := position.Floor;
    if position != first as real {
      PartBounds(position - first as real, 1.0, v[first + 1] - v[first]);
    }
  }

  lemma SameSegment(v: seq<int>, p: real, q: real)
    requires v != [] && Ascending(v) && 0.0 <= p <= q <= (|v| - 1) as real && p.Floor == q.Floor
    ensures ValueAt(v, p) <= ValueAt(v, q)
  {
    var first := p.Floor;
    if q != first as real {
      PartBounds(p - first as real, q - first as real, v[first + 1] - v[first]);
    }
  }

  lemma ValueMonotone(v: seq<int>, p: real, q: real)
    requires v != [] && Ascending(v) && 0.0 <= p <= q <= (|v| - 1) as real
    ensures ValueAt(v, p) <= ValueAt(v, q)
  {
    if p.Floor == q.Floor {
      SameSegment(v, p, q);
    } else {
      SegmentBounds(v, p);
      SegmentBounds(v, q);
      assert p.Floor + 1 <= q.Floor;
      assert v[p.Floor + 1] <= v[q.Floor];
    }
  }

  /** A higher fraction never gives a lower percentile. */
  lemma InterpolateMonotone(v: seq<int>, f: real, g: real)
    requires v != [] && Ascending(v) && 0.0 <= f <= g <= 1.0
    ensures Interpolate(v, f) <= Interpolate(v, g)
  {
    PositionInRange(|v|, f, g);
    ValueMonotone(v, Position(|v|, f), Position(|v|, g));
  }

  /** Every percentile lies between the smallest and the largest value. */
  lemma InterpolateInRange(v: seq<int>, f: real)
    requires v != [] && Ascending(v) && 0.0 <= f <= 1.0
    ensures v[0] as real <= Interpolate(v, f) <= v[|v| - 1] as real
  {
    PositionInRange(|v|, f, f);
    var position := Position(|v|, f);
    SegmentBounds(v, position);
    assert v[0] <= v[position.Floor];
    if position.Floor + 1 < |v| {
      assert v[position.Floor + 1] <= v[|v| - 1];
    }
  }

  /** COALESCE(percentile_cont(f) WITHIN GROUP (ORDER BY ...), 0). */
  function Percentile(latencies: seq<int>, f: real): real
    requires 0.0 <= f <= 1.0
  {
    if latencies == [] then 0.0 else Interpolate(Sorted(latencies), f)
  }

  function LatenciesOf(rows: seq<Row>): (s: seq<int>)
    ensures |s| == |rows|
  {
    if rows == [] then [] else [rows[0].latencyMs] + LatenciesOf(rows[1..])
  }

  // ---- The aggregate of one group ----

  function MaxTime(rows: seq<Row>): (t: int)
    requires rows != []
    ensures forall row | row in rows :: row.time <= t
    ensures exists row :: row in rows && row.time == t
  {
    if |rows| == 1 then rows[0].time
    else
      var rest := MaxTime(rows[1..]);
      assert rows == [rows[0]] + rows[1..];
      if rows[0].time >= rest then rows[0].time else rest
  }

  function MinTime(rows: seq<Row>): (t: int)
    requires rows != []
    ensures forall row | row in rows :: t <= row.time
    ensures exists row :: row in rows && row.time == t
  {
    if |rows| == 1 then rows[0].time
    else
      var rest := MinTime(rows[1..]);
      assert rows == [rows[0]] + rows[1..];
      if rows[0].time <= rest then rows[0].time else rest
  }

  const NS_PER_SECOND := 1_000_000_000.0

  function PerSecond(count: nat, span: int): real {
    if span == 0 then 0.0 else count as real / (span as real / NS_PER_SECOND)
  }

  /** Scored rows per second between the first and the last row of the group; 0 when they coincide. */
  function Rate(rows: seq<Row>): real
    requires rows != []
  {
    PerSecond(|Select(rows, Scored)|, MaxTime(rows) - MinTime(rows))
  }

  lemma Quotient(a: real, b: real)
    requires a >= 0.0 && b > 0.0
    ensures a / b >= 0.0
  {
  }

  lemma PerSecondNonNegative(count: nat, span: nat)
    ensures PerSecond(count, span) >= 0.0
  {
    Quotient(span as real, NS_PER_SECOND);
    if span > 0 {
      Quotient(count as real, span as real / NS_PER_SECOND);
    }
  }

  lemma RateNonNegative(rows: seq<Row>)
    requires rows != []
    ensures Rate(rows) >= 0.0
  {
    assert MinTime(rows) <= MaxTime(rows);
    PerSecondNonNegative(|Select(rows, Scored)|, MaxTime(rows) - MinTime(rows));
  }

  datatype Aggregate = Aggregate(
    key: GroupKey,
    tps: real,
    p50: real,
    p90: real,
    p99: real,
    total: nat,
    success: nat,
    correct: nat)

  function AggregateOf(rows: seq<Row>, key: GroupKey): Aggregate
    requires Select(rows, InGroup(key)) != []
  {
    var members := Select(rows, InGroup(key));
    var latencies := ScoredLatencies(rows, key);
    Aggregate(
      key,
      Rate(members),
      Percentile(latencies, 0.50),
      Percentile(latencies, 0.90),
      Percentile(latencies, 0.99),
      |members|,
      |Select(members, Succeeded)|,
      |Select(members, Correct)|)
  }

  // ---- Percentile soundness ----

  /** Percentiles rise with their fraction and stay between any bounds the values respect; 0 without values. */
  lemma PercentileBounds(latencies: seq<int>, f: real, g: real, lo: int, hi: int)
    requires 0.0 <= f <= g <= 1.0
    requires forall x | x in latencies :: lo <= x <= hi
    ensures Percentile(latencies, f) <= Percentile(latencies, g)
    ensures latencies == [] ==> Percentile(latencies, f) == 0.0
    ensures latencies != [] ==> lo as real <= Percentile(latencies, f) && Percentile(latencies, g) <= hi as real
  {
    if latencies != [] {
      var v := Sorted(latencies);
      InterpolateMonotone(v, f, g);
      InterpolateInRange(v, f);
      InterpolateInRange(v, g);
      assert v[0] in v && v[|v| - 1] in v;
    }
  }

  function ScoredLatencies(rows: seq<Row>, key: GroupKey): seq<int> {
    LatenciesOf(Select(Select(rows, InGroup(key)), Scored))
  }

  /** P50 <= P90 <= P99 for every group, all between the least and greatest scored latency, 0 without any. */
  lemma PercentilesSound(rows: seq<Row>, key: GroupKey, lo: int, hi: int)
    requires Select(rows, InGroup(key)) != []
    requires forall x | x in ScoredLatencies(rows, key) :: lo <= x <= hi
    ensures var a := AggregateOf(rows, key);
            && a.p50 <= a.p90 <= a.p99
            && (ScoredLatencies(rows, key) == [] ==> a.p50 == a.p90 == a.p99 == 0.0)
            && (ScoredLatencies(rows, key) != [] ==> lo as real <= a.p50 && a.p99 <= hi as real)
  {
    PercentileBounds(ScoredLatencies(rows, key), 0.50, 0.90, lo, hi);
    PercentileBounds(ScoredLatencies(rows, key), 0.90, 0.99, lo, hi);
  }

  lemma {:induction false} LatencyCounts(rows: seq<Row>, x: int)
    requires forall row | row in rows :: Holds(Scored, row)
    ensures multiset(LatenciesOf(rows))[x] == |Select(rows, ScoredWith(x))|
  {
    if rows != [] {
      LatencyCounts(rows[1..], x);
      assert rows[0] in rows;
      var rest := LatenciesOf(rows[1..]);
      assert multiset([rows[0].latencyMs] + rest)[x] == multiset([rows[0].latencyMs])[x] + multiset(rest)[x];
    }
  }

  lemma LatenciesPermute(a: seq<Row>, b: seq<Row>)
    requires Permuted(a, b)
    ensures Sorted(LatenciesOf(Select(a, Scored))) == Sorted(LatenciesOf(Select(b, Scored)))
    ensures |LatenciesOf(Select(a, Scored))| == |LatenciesOf(Select(b, Scored))|
  {
    var p, q := Select(a, Scored), Select(b, Scored);
    SelectPermutes(a, b, Scored);
    SelectHolds(a, Scored);
    SelectHolds(b, Scored);
    forall x: int
      ensures multiset(LatenciesOf(p))[x] == multiset(LatenciesOf(q))[x]
    {
      LatencyCounts(p, x);
      LatencyCounts(q, x);
      SelectPermutes(p, q, ScoredWith(x));
    }
    assert multiset(LatenciesOf(p)) == multiset(LatenciesOf(q));
    AscendingIsUnique(Sorted(LatenciesOf(p)), Sorted(LatenciesOf(q)));
  }

  lemma SameRows(a: seq<Row>, b: seq<Row>, row: Row)
    requires Permuted(a, b)
    ensures row in a <==> row in b
  {
    assert row in a <==> row in multiset(a);
    assert row in b <==> row in multiset(b);
  }

  lemma TimesPermute(a: seq<Row>, b: seq<Row>)
    requires Permuted(a, b) && a != [] && b != []
    ensures MaxTime(a) == MaxTime(b) && MinTime(a) == MinTime(b)
  {
    forall row: Row
      ensures row in a <==> row in b
    {
      SameRows(a, b, row);
    }
  }

  lemma RatePermutes(a: seq<Row>, b: seq<Row>)
    requires Permuted(a, b) && a != [] && b != []
    ensures Rate(a) == Rate(b)
  {
    TimesPermute(a, b);
    SelectPermutes(a, b, Scored);
    SameRate(a, b);
  }

  lemma SameRate(a: seq<Row>, b: seq<Row>)
    requires a != [] && b != [] && MaxTime(a) == MaxTime(b) && MinTime(a) == MinTime(b)
    requires |Select(a, Scored)| == |Select(b, Scored)|
    ensures Rate(a) == Rate(b)
  {
  }

  /** Nothing the query computes for a group depends on the order of the stored rows. */
  lemma AggregatePermutes(a: seq<Row>, b: seq<Row>, key: GroupKey)
    requires Permuted(a, b) && Select(a, InGroup(key)) != []
    ensures Select(b, InGroup(key)) != []
    ensures AggregateOf(a, key) == AggregateOf(b, key)
  {
    SelectPermutes(a, b, InGroup(key));
    var p, q := Select(a, InGroup(key)), Select(b, InGroup(key));
    RatePermutes(p, q);
    LatenciesPermute(p, q);
    SelectPermutes(p, q, Succeeded);
    SelectPermutes(p, q, Correct);
  }

  // ---- Grouping conserves rows ----

  predicate Distinct<T(==)>(s: seq<T>) {
    forall i, j | 0 <= i < j < |s| :: s[i] != s[j]
  }

  function GroupSizes(rows: seq<Row>, keys: seq<GroupKey>): nat {
    if keys == [] then 0 else |Select(rows, InGroup(keys[0]))| + GroupSizes(rows, keys[1..])
  }

  lemma {:induction false} SplitGroup(rows: seq<Row>, key: GroupKey, others: set<GroupKey>)
    requires key !in others
    ensures |Select(rows, InGroups(others + {key}))|
            == |Select(rows, InGroup(key))| + |Select(rows, InGroups(others))|
  {
    if rows != [] {
      SplitGroup(rows[1..], key, others);
    }
  }

  lemma {:induction false} NoGroups(rows: seq<Row>)
    ensures Select(rows, InGroups({})) == []
  {
    if rows != [] {
      NoGroups(rows[1..]);
    }
  }

  function SetOf(keys: seq<GroupKey>): set<GroupKey> {
    set k | k in keys
  }

  lemma {:induction false} SizesOfDistinct(rows: seq<Row>, keys: seq<GroupKey>)
    requires Distinct(keys)
    ensures GroupSizes(rows, keys) == |Select(rows, InGroups(SetOf(keys)))|
  {
    if keys == [] {
      NoGroups(rows);
      assert SetOf(keys) == {};
    } else {
      var rest := keys[1..];
      SizesOfDistinct(rows, rest);
      assert SetOf(keys) == SetOf(rest) + {keys[0]};
      assert keys[0] !in rest;
      SplitGroup(rows, keys[0], SetOf(rest));
    }
  }

  /** Every row falls in exactly one group: over any list naming each group once, the sizes add up to all rows. */
  lemma GroupsPartitionRows(rows: seq<Row>, keys: seq<GroupKey>)
    requires Distinct(keys) && forall row | row in rows :: KeyOf(row) in keys
    ensures GroupSizes(rows, keys) == |rows|
    ensures forall row, key | row in rows :: row in Select(rows, InGroup(key)) <==> key == KeyOf(row)
  {
    SizesOfDistinct(rows, keys);
    SelectHolds(rows, InGroups(SetOf(keys)));
    forall row, key | row in rows
      ensures row in Select(rows, InGroup(key)) <==> key == KeyOf(row)
    {
      SelectCounts(rows, InGroup(key), row);
      assert row in Select(rows, InGroup(key)) <==> row in multiset(Select(rows, InGroup(key)));
      assert row in multiset(rows);
    }
  }

  // ---- From verdicts to counts ----

  lemma {:induction false} CorrectAtMostSuccess(rows: seq<Row>)
    requires CorrectImpliesSuccessful(rows)
    ensures |Select(rows, Correct)| <= |Select(rows, Succeeded)| <= |rows|
    ensures Select(rows, Scored) == Select(rows, Correct)
  {
    if rows != [] {
      assert rows[0] in rows;
      assert forall row | row in rows[1..] :: row in rows;
      CorrectAtMostSuccess(rows[1..]);
    }
  }

  lemma CountsOrdered(rows: seq<Row>, key: GroupKey)
    requires CorrectImpliesSuccessful(rows) && Select(rows, InGroup(key)) != []
    ensures var a := AggregateOf(rows, key);
            0 <= a.correct <= a.success <= a.total && a.total > 0 && a.tps >= 0.0
  {
    var members := Select(rows, InGroup(key));
    SelectHolds(rows, InGroup(key));
    CorrectAtMostSuccess(members);
    RateNonNegative(members);
  }
}
