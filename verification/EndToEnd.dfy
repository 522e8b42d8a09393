/** The whole pipeline on a compliant contestant: generated orders, routed by the REST worker to the Go engine,
    validated, stored through any ingest faults, and scored. */
module EndToEnd {
  import opened Prelude
  import opened Events
  import opened BookModel
  import opened FleetOrders
  import opened Contestant
  import opened Ingest
  import opened IngestSafety
  import opened Scoring
  import opened Leaderboard
  import opened IngestReplay
  import opened FleetToStore
  import Fleet

  /** What the worker gets back for an order: status 200 and the decoded reply of the endpoint it posts to. */
  function EngineAnswer(o: Order): HttpResult {
    var reply := if Endpoint(o) == "/cancel" then CancelReply(o) else OrderReply(o);
    Response(200, Some(Decode(Encode(reply))))
  }

  /** The engine's two handlers behind its mux, as the worker's POST reaches them. */
  method Serve(engine: TradingEngine, o: Order) returns (r: HttpResult)
    requires engine.Valid()
    modifies engine
    ensures engine.Valid()
    ensures r == EngineAnswer(o)
    ensures r.Response? && r.status == 200 && r.body.Some?
    ensures var a := r.body.value;
            && a.orderID == o.id
            && (o.kind == "CANCEL" ==> a.kind == "CANCEL" && a.status == "cancelled")
            && (o.kind != "CANCEL" ==>
                  && a.kind == o.kind && a.side == o.side && a.status == ""
                  && a.orderedQty == a.filledQty == o.quantity && a.price == o.price
                  && a.executionPrice == if o.kind == "MARKET" then 100.0 else o.price)
    ensures engine.history == old(engine.history) + [if o.kind == "CANCEL" then CancelOrder(o) else PlaceOrder(o)]
  {
    var answer: HttpAnswer;
    if Endpoint(o) == "/cancel" {
      answer := engine.HandleCancel(true, Some(o));
    } else {
      answer := engine.HandleOrder(true, Some(o));
    }
    r := Response(answer.status, Some(Decode(answer.body.value)));
  }

  /** The event the fleet publishes for the order generated at `index`, answered by the Go engine. */
  function FleetEventOf(runID: string, submissionID: string, index: nat, d: Draws, now: int, sentAt: int, ackAt: int): OrderEvent
    requires sentAt <= ackAt
  {
    var o := GenerateOrder(index, d, now);
    EventFor(runID, submissionID, o, sentAt, ackAt, EngineAnswer(o))
  }

  ghost predicate IsFleetEvent(e: OrderEvent) {
    exists runID, submissionID, index: nat, d, now, sentAt, ackAt |
      index >= 1 && Drawable(index, d) && sentAt <= ackAt ::
      e == FleetEventOf(runID, submissionID, index, d, now, sentAt, ackAt)
  }

  /** An event whose order was confirmed cancelled, or filled completely at an allowed price. */
  predicate Compliant(e: OrderEvent) {
    && e.isSuccessful && e.statusCode == e.expectedStatus
    && e.body.Some?
    && var r := e.body.value;
       && r.orderID == e.orderID
       && (e.kind == "CANCEL" ==> r.status == "cancelled")
       && (e.kind != "CANCEL" ==>
             && r.filledQty == r.orderedQty > 0
             && (r.side == "BUY" || r.side == "SELL")
             && (r.kind == "LIMIT" ==> r.executionPrice == r.price)
             && r.status == "")
  }

  lemma FleetEventsCompliant(e: OrderEvent)
    requires IsFleetEvent(e)
    ensures Compliant(e)
  {
    var runID, submissionID, index: nat, d, now, sentAt, ackAt :|
      index >= 1 && Drawable(index, d) && sentAt <= ackAt
      && e == FleetEventOf(runID, submissionID, index, d, now, sentAt, ackAt);
    var o := GenerateOrder(index, d, now);
    if o.kind == "CANCEL" {
      WireRoundTrip(CancelReply(o));
    } else {
      WireRoundTrip(OrderReply(o));
    }
  }

  // ---- The validator accepts it ----

  lemma CompliantAccepted(e: OrderEvent)
    requires Compliant(e)
    ensures Verdict(EMPTY_BOOK, e)
    ensures After(EMPTY_BOOK, e) == EMPTY_BOOK
  {
    var nothing: map<string, LimitEntry> := map[];
    assert nothing - {e.orderID} == nothing;
    if e.kind != "CANCEL" {
      assert Screen(e) == OrderChecked(e.body.value);
    }
  }

  /** Compliant events, in any order and with any repetition, are all accepted and the book stays empty. */
  lemma {:induction false} CompliantRunAccepted(events: seq<OrderEvent>)
    requires forall k | 0 <= k < |events| :: Compliant(events[k])
    ensures BookAfter(events) == EMPTY_BOOK
    ensures forall k | 0 <= k < |events| :: Verdict(BookAfter(events[..k]), events[k])
  {
    if events != [] {
      var n := |events| - 1;
      CompliantRunAccepted(events[..n]);
      CompliantAccepted(events[n]);
      forall k | 0 <= k < |events|
        ensures Verdict(BookAfter(events[..k]), events[k])
      {
        if k < n {
          assert events[..n][..k] == events[..k];
        }
      }
    }
  }

  // ---- Ingest stores it as correct ----

  ghost predicate CompliantLog(log: Log) {
    forall m: MsgId | Decodable(log, m) :: Compliant(EventAt(log, m))
  }

  predicate AllGood(rows: seq<Row>) {
    forall i | 0 <= i < |rows| :: rows[i].isSuccessful && rows[i].isCorrect
  }

  lemma CompliantBatch(log: Log, s: State)
    requires CompliantLog(log) && BatchIsTail(log, s)
    ensures AllGood(RowsOf(s.batch))
    ensures s.book == EMPTY_BOOK
  {
    var events := EventsAt(log, s.fetched);
    CompliantRunAccepted(events);
    forall i: nat | i < |s.batch|
      ensures RowsOf(s.batch)[i].isSuccessful && RowsOf(s.batch)[i].isCorrect
    {
      BatchEntry(log, s, i);
      ValidatedAt(events, |s.fetched| - |s.pending| + i);
    }
  }

  lemma FlushKeepsGood(s: State, db: DbResult, commit: CommitResult)
    requires AllGood(s.rows) && AllGood(RowsOf(s.batch))
    ensures AllGood(Flush(s, db, commit).rows)
  {
  }

  /** Whatever the faults, every row ever stored is correct and successful, and the book is always empty. */
  lemma {:induction false} CompliantIngest(log: Log, actions: seq<Action>)
    requires CompliantLog(log)
    ensures AllGood(Exec(log, actions).rows)
    ensures Exec(log, actions).book == EMPTY_BOOK
  {
    ExecTail(log, actions);
    CompliantBatch(log, Exec(log, actions));
    if actions != [] {
      var n := |actions| - 1;
      CompliantIngest(log, actions[..n]);
      ExecTail(log, actions[..n]);
      CompliantStep(log, Exec(log, actions[..n]), actions[n]);
    }
  }

  lemma CompliantStep(log: Log, s: State, a: Action)
    requires CompliantLog(log) && BatchIsTail(log, s) && AllGood(s.rows)
    ensures AllGood(Next(log, s, a).rows)
  {
    match a
    case Tick(db, commit) =>
      CompliantBatch(log, s);
      FlushKeepsGood(s, db, commit);
    case Fetch(p, db, commit) =>
      if CanFetch(log, s, p) {
        AbsorbKeepsTail(log, s, p);
        CompliantBatch(log, Absorb(log, s, p));
        FetchKeepsGood(log, s, p, db, commit);
      }
    case Crash(death) =>
      CompliantBatch(log, s);
      CrashKeepsGood(s, death);
  }

  lemma FetchKeepsGood(log: Log, s: State, p: nat, db: DbResult, commit: CommitResult)
    requires CanFetch(log, s, p) && AllGood(s.rows) && AllGood(RowsOf(Absorb(log, s, p).batch))
    ensures AllGood(Next(log, s, Fetch(p, db, commit)).rows)
  {
    FlushKeepsGood(Absorb(log, s, p), db, commit);
  }

  lemma CrashKeepsGood(s: State, death: Death)
    requires AllGood(s.rows) && AllGood(RowsOf(s.batch))
    ensures AllGood(Restarted(Died(s, death)).rows)
  {
    if death.AfterStoring? {
      FlushKeepsGood(s, Stored, CommitFailed(death.advanced));
    }
  }

  // ---- The leaderboard scores it in full ----

  lemma {:induction false} GoodSelection(rows: seq<Row>, c: Condition)
    requires AllGood(rows)
    ensures AllGood(Select(rows, c))
    ensures Select(rows, Succeeded) == rows && Select(rows, Correct) == rows
  {
    SelectHolds(rows, c);
    forall i | 0 <= i < |Select(rows, c)|
      ensures Select(rows, c)[i].isSuccessful && Select(rows, c)[i].isCorrect
    {
      var row := Select(rows, c)[i];
      assert row in Select(rows, c);
      var j :| 0 <= j < |rows| && rows[j] == row;
    }
    SelectHolds(rows, Succeeded);
    SelectHolds(rows, Correct);
  }

  lemma GoodGroupScores(rows: seq<Row>, key: GroupKey)
    requires AllGood(rows) && Select(rows, InGroup(key)) != []
    ensures ErrorRate(AggregateOf(rows, key)) == 0.0
    ensures CorrectnessRate(AggregateOf(rows, key)) == 1.0
    ensures Undiminished(AggregateOf(rows, key))
  {
    GoodSelection(rows, InGroup(key));
    GoodSelection(Select(rows, InGroup(key)), Succeeded);
    var a := AggregateOf(rows, key);
    assert a.success == a.total == a.correct > 0;
    SelfQuotient(a.total);
    FullScore(a);
  }

  /** The score with nothing taken off for errors or wrong answers. */
  predicate Undiminished(a: Aggregate) {
    Score(a) == a.tps * 100.0 / EffectiveP90(a)
  }

  lemma FullScore(a: Aggregate)
    requires ErrorRate(a) == 0.0 && CorrectnessRate(a) == 1.0
    ensures Undiminished(a)
  {
    var base := a.tps * 100.0 / EffectiveP90(a);
    assert base * (1.0 - 0.0) * 1.0 == base;
  }

  lemma SelfQuotient(n: nat)
    requires n > 0
    ensures n as real / n as real == 1.0
  {
  }

  ghost predicate FleetLog(log: Log) {
    forall m: MsgId | Decodable(log, m) :: IsFleetEvent(EventAt(log, m))
  }

  lemma FleetLogCompliant(log: Log)
    requires FleetLog(log)
    ensures CompliantLog(log)
  {
    forall m: MsgId | Decodable(log, m)
      ensures Compliant(EventAt(log, m))
    {
      FleetEventsCompliant(EventAt(log, m));
    }
  }

  /** The rows one scoring tick looks at. */
  function Windowed(log: Log, actions: seq<Action>, now: int): seq<Row> {
    Select(Exec(log, actions).rows, Recent(now))
  }

  /** End to end: if every message in the log is the event of a generated order answered by the Go engine, then
      through any ingest faults the book stays empty, every stored row is correct ... */
  lemma CompliantPipelineStores(log: Log, actions: seq<Action>)
    requires FleetLog(log)
    ensures Exec(log, actions).book == EMPTY_BOOK
    ensures AllGood(Exec(log, actions).rows)
  {
    FleetLogCompliant(log);
    CompliantIngest(log, actions);
  }

  /** ... and at any moment every group in the scoring window has error rate 0, correctness rate 1 and hence the
      undiminished score. */
  lemma CompliantPipelineScores(log: Log, actions: seq<Action>, now: int, key: GroupKey)
    requires FleetLog(log) && Select(Windowed(log, actions, now), InGroup(key)) != []
    ensures ErrorRate(AggregateOf(Windowed(log, actions, now), key)) == 0.0
    ensures CorrectnessRate(AggregateOf(Windowed(log, actions, now), key)) == 1.0
    ensures Undiminished(AggregateOf(Windowed(log, actions, now), key))
  {
    CompliantPipelineStores(log, actions);
    GoodSelection(Exec(log, actions).rows, Recent(now));
    GoodGroupScores(Windowed(log, actions, now), key);
  }

  /** A board entry with nothing taken off. */
  predicate FullMarks(entry: Stats) {
    && entry.errorRate == 0.0 && entry.correctnessRate == 1.0
    && entry.score == entry.tps * 100.0 / (if entry.p90 < 1.0 then 1.0 else entry.p90)
  }

  lemma FullMarksOf(a: Aggregate)
    requires ErrorRate(a) == 0.0 && CorrectnessRate(a) == 1.0 && Undiminished(a)
    ensures FullMarks(StatsOf(a))
  {
  }

  lemma GoodEntry(rows: seq<Row>, a: Aggregate)
    requires AllGood(rows) && SummarizesGroup(rows, a.key, a)
    ensures FullMarks(StatsOf(a))
  {
    GoodGroupScores(rows, a.key);
    FullMarksOf(a);
  }

  /** The board one tick publishes over such a log, through any ingest faults and any scan errors, gives full
      marks in every entry. */
  method ScoreCompliantLog(ghost log: Log, ghost actions: seq<Action>, ghost now: int, ghost keys: seq<GroupKey>,
                           lock: LockAnswer, result: seq<Aggregate>, scanOk: seq<bool>)
    returns (board: Option<seq<Stats>>)
    requires FleetLog(log) && IsResult(Windowed(log, actions, now), keys, result) && |scanOk| == |result|
    ensures board.Some? <==> lock.Acquired? && exists i | 0 <= i < |scanOk| :: scanOk[i]
    ensures board.Some? ==> forall entry | entry in board.value :: FullMarks(entry)
  {
    board := ScoreTick(lock, QueryRows(result), scanOk);
    if board.Some? {
      CompliantBoard(log, actions, now, keys, result, scanOk, board.value);
    }
  }

  lemma CompliantBoard(log: Log, actions: seq<Action>, now: int, keys: seq<GroupKey>, result: seq<Aggregate>,
                       scanOk: seq<bool>, board: seq<Stats>)
    requires FleetLog(log) && IsResult(Windowed(log, actions, now), keys, result) && |scanOk| == |result|
    requires multiset(board) == multiset(Scanned(result, scanOk))
    ensures forall entry | entry in board :: FullMarks(entry)
  {
    CompliantPipelineStores(log, actions);
    GoodSelection(Exec(log, actions).rows, Recent(now));
    GoodBoard(Windowed(log, actions, now), keys, result, scanOk, board);
  }

  lemma GoodBoard(rows: seq<Row>, keys: seq<GroupKey>, result: seq<Aggregate>, scanOk: seq<bool>, board: seq<Stats>)
    requires AllGood(rows) && IsResult(rows, keys, result) && |scanOk| == |result|
    requires multiset(board) == multiset(Scanned(result, scanOk))
    ensures forall entry | entry in board :: FullMarks(entry)
  {
    forall entry | entry in board
      ensures FullMarks(entry)
    {
      assert entry in multiset(Scanned(result, scanOk));
      ScannedFromResult(result, scanOk, entry);
      var i :| 0 <= i < |result| && StatsOf(result[i]) == entry;
      assert SummarizesGroup(rows, keys[i], result[i]);
      GoodEntry(rows, result[i]);
    }
  }

  // ---- Any contestant ----

  lemma SelectedRowsStayConsistent(rows: seq<Row>, c: Condition)
    requires CorrectImpliesSuccessful(rows)
    ensures CorrectImpliesSuccessful(Select(rows, c))
  {
    SelectHolds(rows, c);
  }

  /** For any log at all and any faults, what the validator stored can only produce a score in [0, 100 * TPS],
      with correct <= success <= total in every group. */
  lemma AnyPipelineScoreBounds(log: Log, actions: seq<Action>, now: int, key: GroupKey)
    requires Select(Windowed(log, actions, now), InGroup(key)) != []
    ensures var a := AggregateOf(Windowed(log, actions, now), key);
            && a.correct <= a.success <= a.total
            && Quality(a) == CorrectShare(a)
            && 0.0 <= Score(a) <= 100.0 * a.tps
  {
    CorrectRowsAreSuccessful(log, actions);
    SelectedRowsStayConsistent(Exec(log, actions).rows, Recent(now));
    StoredRowsScoreBounds(Windowed(log, actions, now), key);
  }

  // ---- One clean load test, from its first order to its score ----

  /** `events` are the events of one run against the Go engine, by order number. */
  ghost predicate EngineRun(events: nat -> OrderEvent, key: GroupKey) {
    forall k: nat | k >= 1 ::
      IsFleetEvent(events(k)) && events(k).orderID == OrderID(k)
      && events(k).runID == key.runID && events(k).submissionID == key.submissionID
  }

  predicate AnyRowIs(rows: seq<Row>, orderID: string) {
    exists i | 0 <= i < |rows| :: rows[i].orderID == orderID
  }

  function OrderIDsIn(rows: seq<Row>): (ids: set<string>)
    ensures |ids| <= |rows|
    ensures forall id :: id in ids <==> AnyRowIs(rows, id)
  {
    if rows == [] then {}
    else
      var n := |rows| - 1;
      assert rows == rows[..n] + [rows[n]];
      OrderIDsIn(rows[..n]) + {rows[n].orderID}
  }

  function FirstOrderIDs(n: nat): (ids: set<string>)
    ensures forall id | id in ids :: exists k: nat :: 1 <= k <= n && id == OrderID(k)
    ensures |ids| == n
  {
    if n == 0 then {}
    else
      var ids := FirstOrderIDs(n - 1);
      FreshOrderID(n, ids);
      ids + {OrderID(n)}
  }

  lemma FreshOrderID(n: nat, ids: set<string>)
    requires n >= 1 && forall id | id in ids :: exists k: nat :: 1 <= k <= n - 1 && id == OrderID(k)
    ensures OrderID(n) !in ids
  {
    forall k: nat | 1 <= k <= n - 1
      ensures OrderID(k) != OrderID(n)
    {
      DifferentOrderIDs(k, n);
    }
  }

  lemma DifferentOrderIDs(k: nat, n: nat)
    requires k != n
    ensures OrderID(k) != OrderID(n)
  {
    if OrderID(k) == OrderID(n) {
      OrderIDInjective(k, n);
    }
  }

  lemma {:induction false} SubsetIsSmaller(a: set<string>, b: set<string>)
    requires a <= b
    ensures |a| <= |b|
  {
    if a != {} {
      var x :| x in a;
      SubsetIsSmaller(a - {x}, b - {x});
    }
  }

  /** Rows with `n` different order ids are at least `n`. */
  lemma ManyOrdersManyRows(rows: seq<Row>, n: nat)
    requires forall k: nat | 1 <= k <= n :: AnyRowIs(rows, OrderID(k))
    ensures |rows| >= n
  {
    SubsetIsSmaller(FirstOrderIDs(n), OrderIDsIn(rows));
  }

  lemma SelectKeeps(rows: seq<Row>, c: Condition, row: Row)
    requires row in rows && Holds(c, row)
    ensures row in Select(rows, c)
  {
    SelectCounts(rows, c, row);
    assert row in multiset(rows);
    assert row in multiset(Select(rows, c));
  }

  /** A recent stored order is in its group's rows. */
  lemma StoredOrderInGroup(rows: seq<Row>, e: OrderEvent, now: int, key: GroupKey)
    requires HasRowOf(rows, e) && e.sentAt > now - WINDOW_NS && GroupKey(e.runID, e.submissionID) == key
    ensures AnyRowIs(Select(Select(rows, Recent(now)), InGroup(key)), e.orderID)
  {
    var i :| 0 <= i < |rows| && CarriesColumns(rows[i], e);
    SelectKeeps(rows, Recent(now), rows[i]);
    SelectKeeps(Select(rows, Recent(now)), InGroup(key), rows[i]);
    var group := Select(Select(rows, Recent(now)), InGroup(key));
    var j :| 0 <= j < |group| && group[j] == rows[i];
    assert group[j].orderID == e.orderID;
  }

  /** A load test against the Go engine that returned no error and skipped nothing, under any interleaving; a log
      that carries what it published among other such runs; an ingest service that caught up, after any faults:
      while the run is in the window, its group counts every order, and scores error rate 0, correctness rate 1
      and the undiminished score. */
  lemma CleanRunScores(c: Fleet.Config, steps: seq<Fleet.Action>, events: nat -> OrderEvent, key: GroupKey,
                       log: Log, actions: seq<Action>, now: int)
    requires Fleet.Admitted(c) && Fleet.Feasible(c, steps)
    requires Fleet.Exec(c, steps).result == Some(true) && NothingSkipped(Fleet.Exec(c, steps))
    requires EngineRun(events, key) && FleetLog(log)
    requires Carries(log, events, Emitted(c, steps)) && CaughtUp(log, actions)
    requires forall k | 1 <= k <= c.numOrders :: events(k).sentAt > now - 900_000_000_000
    ensures Select(Windowed(log, actions, now), InGroup(key)) != []
    ensures var a := AggregateOf(Windowed(log, actions, now), key);
            && a.total >= c.numOrders
            && ErrorRate(a) == 0.0 && CorrectnessRate(a) == 1.0 && Undiminished(a)
  {
    var rows := Exec(log, actions).rows;
    CleanRunIsStored(c, steps, events, log, actions);
    var group := Select(Windowed(log, actions, now), InGroup(key));
    forall k: nat | 1 <= k <= c.numOrders
      ensures AnyRowIs(group, OrderID(k))
    {
      StoredOrderInGroup(rows, events(k), now, key);
    }
    ManyOrdersManyRows(group, c.numOrders);
    CompliantPipelineScores(log, actions, now, key);
  }
}
