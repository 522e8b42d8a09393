/** From a load test to the table: what a run publishes is stored, whatever happens to the ingest service. */
module FleetToStore {
  import opened Prelude
  import opened Events
  import opened Ingest
  import opened IngestSafety
  import opened IngestReplay
  import Fleet
  import FleetAccounting

  /** The orders whose event the broker accepted, in that order. */
  function Emitted(c: Fleet.Config, steps: seq<Fleet.Action>): seq<nat>
    requires Fleet.Feasible(c, steps)
  {
    if steps == [] then []
    else
      var n := |steps| - 1;
      var s := Fleet.Exec(c, steps[..n]);
      Emitted(c, steps[..n])
      + (if steps[n].Publish? && steps[n].ok then [s.bots[steps[n].w].order] else [])
  }

  predicate IsPublished(s: Fleet.State, k: nat) {
    k in s.outcomes && s.outcomes[k] == Fleet.Published
  }

  lemma StepPublishes(c: Fleet.Config, s: Fleet.State, a: Fleet.Action, k: nat)
    requires FleetAccounting.ExactlyOnePlace(c, s) && Fleet.Enabled(c, s, a)
    ensures var now := a.Publish? && a.ok && s.bots[a.w].order == k;
            && (now ==> !IsPublished(s, k))
            && (IsPublished(Fleet.Next(c, s, a), k) <==> IsPublished(s, k) || now)
  {
    if a.Publish? || a.Skip? {
      FleetAccounting.HeldIsUnfinished(c, s, a.w);
    }
  }

  /** Each order is emitted once if its outcome is published, and never otherwise. */
  lemma {:induction false} EmittedOnceIffPublished(c: Fleet.Config, steps: seq<Fleet.Action>, k: nat)
    requires Fleet.Admitted(c) && Fleet.Feasible(c, steps)
    ensures multiset(Emitted(c, steps))[k] == if IsPublished(Fleet.Exec(c, steps), k) then 1 else 0
  {
    if steps != [] {
      var n := |steps| - 1;
      EmittedOnceIffPublished(c, steps[..n], k);
      FleetAccounting.ExecInv(c, steps[..n]);
      StepPublishes(c, Fleet.Exec(c, steps[..n]), steps[n], k);
    }
  }

  /** The log holds a message for each of these orders; `events` gives the event of an order. */
  ghost predicate Carries(log: Log, events: nat -> OrderEvent, emitted: seq<nat>) {
    forall k | k in emitted :: exists m :: Decodable(log, m) && EventAt(log, m) == events(k)
  }

  /** The table has a row with the columns of this event. */
  ghost predicate HasRowOf(rows: seq<Row>, e: OrderEvent) {
    exists i :: 0 <= i < |rows| && CarriesColumns(rows[i], e)
  }

  predicate CarriesColumns(row: Row, e: OrderEvent) {
    row == RowOf(ValidatedOrder(e, row.isCorrect))
  }

  lemma StoredMessageHasRow(log: Log, actions: seq<Action>, m: MsgId)
    requires Decodable(log, m) && CaughtUp(log, actions)
    ensures HasRowOf(Exec(log, actions).rows, EventAt(log, m))
  {
    assert m.offset < FetchedUpTo(log, actions, m.partition);
    EmptyBatchMeansStored(log, actions, m);
    ExecTruthful(log, actions);
    var s := Exec(log, actions);
    var i :| 0 <= i < |s.origins| && s.origins[i] == m;
    RowCarriesColumns(log, s.rows[i], m);
    assert CarriesColumns(s.rows[i], EventAt(log, m));
  }

  /** Whatever the interleaving of the load test and whatever the faults of the ingest service: once it has
      caught up, every order the run published has a row with the columns of its event. */
  lemma PublishedOrdersAreStored(c: Fleet.Config, steps: seq<Fleet.Action>, events: nat -> OrderEvent,
                                 log: Log, actions: seq<Action>, k: nat)
    requires Fleet.Admitted(c) && Fleet.Feasible(c, steps)
    requires Carries(log, events, Emitted(c, steps)) && CaughtUp(log, actions)
    requires IsPublished(Fleet.Exec(c, steps), k)
    ensures HasRowOf(Exec(log, actions).rows, events(k))
  {
    PublishedIsEmitted(c, steps, k);
    CarriedIsStored(log, actions, events, Emitted(c, steps), k);
  }

  lemma PublishedIsEmitted(c: Fleet.Config, steps: seq<Fleet.Action>, k: nat)
    requires Fleet.Admitted(c) && Fleet.Feasible(c, steps) && IsPublished(Fleet.Exec(c, steps), k)
    ensures k in Emitted(c, steps)
  {
    EmittedOnceIffPublished(c, steps, k);
    assert k in multiset(Emitted(c, steps));
  }

  lemma CarriedIsStored(log: Log, actions: seq<Action>, events: nat -> OrderEvent, emitted: seq<nat>, k: nat)
    requires Carries(log, events, emitted) && CaughtUp(log, actions) && k in emitted
    ensures HasRowOf(Exec(log, actions).rows, events(k))
  {
    var m :| Decodable(log, m) && EventAt(log, m) == events(k);
    StoredMessageHasRow(log, actions, m);
  }

  /** And the service can always catch up: any run of it, whatever its faults, can go on without another one
      until every published order has its row. */
  lemma PublishedOrdersGetStored(c: Fleet.Config, steps: seq<Fleet.Action>, events: nat -> OrderEvent,
                                 log: Log, actions: seq<Action>) returns (longer: seq<Action>)
    requires Fleet.Admitted(c) && Fleet.Feasible(c, steps) && Carries(log, events, Emitted(c, steps))
    ensures actions <= longer && SameFaults(Exec(log, actions), Exec(log, longer))
    ensures forall k | IsPublished(Fleet.Exec(c, steps), k) :: HasRowOf(Exec(log, longer).rows, events(k))
  {
    longer := CatchUp(log, actions);
    forall k | IsPublished(Fleet.Exec(c, steps), k)
      ensures HasRowOf(Exec(log, longer).rows, events(k))
    {
      PublishedOrdersAreStored(c, steps, events, log, longer, k);
    }
  }

  ghost predicate NothingSkipped(s: Fleet.State) {
    forall k | k in s.outcomes :: !s.outcomes[k].Skipped?
  }

  /** A load test that returned no error and skipped nothing published each of its orders 1..NumOrders. */
  lemma CleanRunPublishes(c: Fleet.Config, steps: seq<Fleet.Action>, k: nat)
    requires Fleet.Admitted(c) && Fleet.Feasible(c, steps) && 1 <= k <= c.numOrders
    requires Fleet.Exec(c, steps).result == Some(true) && NothingSkipped(Fleet.Exec(c, steps))
    ensures IsPublished(Fleet.Exec(c, steps), k)
  {
    var s := Fleet.Exec(c, steps);
    FleetAccounting.FinalAccounting(c, steps);
    assert FleetAccounting.OrdersEnding(s.outcomes, Fleet.PublishFailed) == {};
    assert k in s.outcomes.Keys;
    assert k !in FleetAccounting.OrdersEnding(s.outcomes, Fleet.PublishFailed);
  }

  /** So once ingest has caught up there is a row for each of them. */
  lemma CleanRunIsStored(c: Fleet.Config, steps: seq<Fleet.Action>, events: nat -> OrderEvent,
                         log: Log, actions: seq<Action>)
    requires Fleet.Admitted(c) && Fleet.Feasible(c, steps)
    requires Fleet.Exec(c, steps).result == Some(true) && NothingSkipped(Fleet.Exec(c, steps))
    requires Carries(log, events, Emitted(c, steps)) && CaughtUp(log, actions)
    ensures forall k | 1 <= k <= c.numOrders :: HasRowOf(Exec(log, actions).rows, events(k))
  {
    forall k | 1 <= k <= c.numOrders
      ensures HasRowOf(Exec(log, actions).rows, events(k))
    {
      CleanRunPublishes(c, steps, k);
      PublishedOrdersAreStored(c, steps, events, log, actions, k);
    }
  }
}
