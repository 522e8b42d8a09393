/** The telemetry service as it runs: a database, a group reader and the consume loop, updated in place.
    What the outside world answers is passed in; everything else is the loop's own doing. */
module IngestService {
  import opened Prelude
  import opened Events
  import opened BookModel
  import opened OrderBookService
  import opened Ingest
  import opened IngestSafety

  datatype TxnCommit = Applied | RolledBack | AppliedUnacknowledged

  /** What the database answers to each statement of one bulk insert. */
  datatype Txn = Txn(
    beginOk: bool,
    prepareOk: bool,
    execFailsAt: Option<nat>,
    flushOk: bool,
    closeOk: bool,
    commit: TxnCommit)

  /** Every statement of a bulk insert of `n` rows reports success. */
  predicate StatementsSucceed(txn: Txn, n: nat) {
    && txn.beginOk && txn.prepareOk
    && (txn.execFailsAt.Some? ==> txn.execFailsAt.value >= n)
    && txn.flushOk && txn.closeOk
    && txn.commit == Applied
  }

  /** The rows are in exactly when everything up to the commit succeeded and the server applied the commit, and the
      service hears of it exactly when the reply came as well. */
  lemma OutcomeIff(txn: Txn, n: nat)
    ensures OutcomeOf(txn, n).Stored? <==> StatementsSucceed(txn, n)
    ensures OutcomeOf(txn, n).StoredUnacknowledged? <==>
              txn.commit == AppliedUnacknowledged && StatementsSucceed(txn.(commit := Applied), n)
  {
  }

  /** How a bulk insert of `n` rows ends: only a transaction that gets as far as its commit leaves anything. */
  function OutcomeOf(txn: Txn, n: nat): DbResult {
    if !txn.beginOk || !txn.prepareOk || !txn.flushOk || !txn.closeOk then NotStored
    else if txn.execFailsAt.Some? && txn.execFailsAt.value < n then NotStored
    else
      match txn.commit
      case Applied => Stored
      case RolledBack => NotStored
      case AppliedUnacknowledged => StoredUnacknowledged
  }

  class Database {
    var table: seq<Row>

    constructor ()
      ensures table == []
    {
      table := [];
    }

    /** All or nothing: the whole batch in order, or no change at all. */
    method FlushBatchToDB(batch: seq<ValidatedOrder>, txn: Txn) returns (failed: bool)
      modifies this
      ensures batch == [] ==> !failed && table == old(table)
      ensures batch != [] ==> failed == !StatementsSucceed(txn, |batch|)
      ensures batch != [] && !failed ==> |table| == |old(table)| + |batch|
      ensures |table| == |old(table)| || |table| == |old(table)| + |batch|
      ensures old(table) <= table
      ensures forall i | |old(table)| <= i < |table| ::
                ColumnsOf(table[i], batch[i - |old(table)|].event)
                && table[i].isCorrect == batch[i - |old(table)|].isCorrect
      ensures batch != [] ==> failed == (OutcomeOf(txn, |batch|) != Stored)
      ensures batch != [] && OutcomeOf(txn, |batch|) == NotStored ==> table == old(table)
      ensures batch != [] && OutcomeOf(txn, |batch|) != NotStored ==> table == old(table) + RowsOf(batch)
    {
      if |batch| == 0 {
        return false;
      }
      if !txn.beginOk {
        return true;
      }
      var staged: seq<Row> := [];
      if !txn.prepareOk {
        return true;
      }
      for i := 0 to |batch|
        invariant staged == RowsOf(batch[..i])
        invariant txn.execFailsAt.Some? ==> i <= txn.execFailsAt.value
        invariant table == old(table)
      {
        if txn.execFailsAt == Some(i) {
          return true;
        }
        staged := staged + [RowOf(batch[i])];
      }
      assert batch[..|batch|] == batch;
      if !txn.flushOk {
        return true;
      }
      if !txn.closeOk {
        return true;
      }
      match txn.commit
      case Applied =>
        table := table + staged;
        return false;
      case RolledBack =>
        return true;
      case AppliedUnacknowledged =>
        table := table + staged;
        return true;
    }
  }

  /** The consumer group's position: where it reads next and what it has committed, per partition. */
  class Reader {
    const log: Log
    var fetchPos: seq<nat>
    var committed: seq<nat>

    constructor (log: Log)
      ensures this.log == log
      ensures fetchPos == committed == Init(log).committed
    {
      this.log := log;
      fetchPos := seq(|log|, _ => 0);
      committed := seq(|log|, _ => 0);
    }

    /** None when the partition has nothing to read before the deadline. */
    method FetchMessage(p: nat) returns (m: Option<MsgId>)
      requires |fetchPos| == |log|
      modifies this`fetchPos
      ensures m.Some? <==> p < |log| && old(fetchPos)[p] < |log[p]|
      ensures m.Some? ==> m.value == MsgId(p, old(fetchPos)[p])
      ensures fetchPos == if m.Some? then old(fetchPos)[p := old(fetchPos)[p] + 1] else old(fetchPos)
    {
      if p < |log| && fetchPos[p] < |log[p]| {
        m := Some(MsgId(p, fetchPos[p]));
        fetchPos := fetchPos[p := fetchPos[p] + 1];
      } else {
        m := None;
      }
    }

    method CommitMessages(pending: seq<MsgId>, answer: CommitResult) returns (failed: bool)
      modifies this`committed
      ensures failed == answer.CommitFailed?
      ensures |committed| == |old(committed)|
      ensures forall p | 0 <= p < |committed| :: CommitsTo(pending, answer, p, old(committed)[p], committed[p])
      ensures committed == Advance(old(committed), pending, answer)
    {
      AdvanceCommits(committed, pending, answer);
      committed := Advance(committed, pending, answer);
      failed := answer.CommitFailed?;
    }

    /** A restarted process reads again from the committed offsets. */
    method Rejoin()
      modifies this`fetchPos
      ensures fetchPos == committed
    {
      fetchPos := committed;
    }
  }

  lemma ExecSizes(log: Log, actions: seq<Action>)
    ensures var s := Exec(log, actions);
            |s.fetchPos| == |s.committed| == |log| && |s.batch| == |s.pending|
  {
    ExecPositions(log, actions);
    ExecTail(log, actions);
  }

  lemma CommittedHaveRows(log: Log, actions: seq<Action>)
    ensures |Exec(log, actions).committed| == |log|
    ensures forall m: MsgId | Decodable(log, m) && m.offset < Exec(log, actions).committed[m.partition] ::
              exists i :: 0 <= i < |Exec(log, actions).rows| && RowTells(log, Exec(log, actions).rows[i], m)
  {
    ExecPositions(log, actions);
    forall m: MsgId | Decodable(log, m) && m.offset < Exec(log, actions).committed[m.partition]
      ensures exists i :: 0 <= i < |Exec(log, actions).rows| && RowTells(log, Exec(log, actions).rows[i], m)
    {
      var i := AtLeastOnce(log, actions, m);
    }
  }

  /** One turn of the consume loop's select, with the answers it will get. */
  datatype Turn =
    | OnTick(txn: Txn, commit: CommitResult)
    | OnFetch(partition: nat, txn: Txn, commit: CommitResult)

  /** The step a turn is when it finds `size` orders in the batch. */
  function TurnAction(turn: Turn, size: nat): Action {
    match turn
    case OnTick(txn, commit) => Tick(OutcomeOf(txn, size), commit)
    case OnFetch(p, txn, commit) => Action.Fetch(p, OutcomeOf(txn, size + 1), commit)
  }

  class Consumer {
    const db: Database
    const reader: Reader
    var orderBook: OrderBook
    var batch: seq<ValidatedOrder>
    var pending: seq<MsgId>
    ghost var history: seq<Action>

    /** Every field is as in the protocol state `s`. */
    ghost predicate Agrees(s: State)
      reads this, db, reader, orderBook
    {
      && orderBook.Valid()
      && orderBook.Value() == s.book
      && batch == s.batch
      && pending == s.pending
      && reader.fetchPos == s.fetchPos
      && reader.committed == s.committed
      && db.table == s.rows
    }

    /** The service is where the protocol's transition system is after the steps taken so far. */
    ghost predicate Valid()
      reads this, db, reader, orderBook
    {
      Agrees(Exec(reader.log, history))
    }

    constructor (log: Log)
      ensures Valid() && fresh(db) && fresh(reader) && fresh(orderBook)
      ensures reader.log == log && history == []
    {
      db := new Database();
      reader := new Reader(log);
      orderBook := new OrderBook();
      batch := [];
      pending := [];
      history := [];
    }

    /** The ticker's turn. */
    method Flush(txn: Txn, commit: CommitResult)
      requires Valid()
      modifies this`batch, this`pending, this`history, db, reader`committed
      ensures Valid()
      ensures history == old(history) + [Tick(OutcomeOf(txn, |old(batch)|), commit)]
    {
      ghost var a := Tick(OutcomeOf(txn, |batch|), commit);
      ExecSnoc(reader.log, history, a);
      ExecSizes(reader.log, history);
      FlushPending(txn, commit, Exec(reader.log, history));
      history := history + [a];
    }

    /** The `flush` closure itself: nothing to do on an empty batch; a failed insert or a failed commit keeps
        the batch for the next attempt; only a successful commit clears it. */
    method FlushPending(txn: Txn, commit: CommitResult, ghost s: State)
      requires Agrees(s)
      modifies this`batch, this`pending, db, reader`committed
      ensures Agrees(Ingest.Flush(s, OutcomeOf(txn, |s.batch|), commit))
    {
      if |batch| == 0 {
        return;
      }
      var dbFailed := db.FlushBatchToDB(batch, txn);
      if dbFailed {
        return;
      }
      var commitFailed := reader.CommitMessages(pending, commit);
      if commitFailed {
        return;
      }
      batch := [];
      pending := [];
    }

    /** The loop's default branch. */
    method Fetch(p: nat, txn: Txn, commit: CommitResult)
      requires Valid()
      modifies this, db, reader, orderBook
      ensures Valid() && orderBook == old(orderBook)
      ensures history == old(history) + [Action.Fetch(p, OutcomeOf(txn, |old(batch)| + 1), commit)]
    {
      ghost var a := Action.Fetch(p, OutcomeOf(txn, |batch| + 1), commit);
      ghost var s := Exec(reader.log, history);
      ExecSnoc(reader.log, history, a);
      ExecSizes(reader.log, history);
      FetchAndValidate(p, txn, commit, s);
      history := history + [a];
      assert Exec(reader.log, history) == Next(reader.log, s, a);
    }

    /** Fetch one message, skip it when it does not decode, else validate it, append it and flush a full batch. */
    method FetchAndValidate(p: nat, txn: Txn, commit: CommitResult, ghost s: State)
      requires Agrees(s) && |s.fetchPos| == |reader.log|
      modifies this`batch, this`pending, db, reader, orderBook
      ensures orderBook == old(orderBook)
      ensures Agrees(Next(reader.log, s, Action.Fetch(p, OutcomeOf(txn, |s.batch| + 1), commit)))
    {
      var m := reader.FetchMessage(p);
      if m.None? {
        return;
      }
      var message := reader.log[m.value.partition][m.value.offset];
      if message.None? {
        return;
      }
      Append(m.value, message.value, s);
      if |batch| >= BATCH_SIZE {
        FlushPending(txn, commit, Absorb(reader.log, s, p));
      }
    }

    method Append(m: MsgId, event: OrderEvent, ghost s: State)
      requires Agrees(s.(fetchPos := reader.fetchPos))
      modifies this`batch, this`pending, orderBook
      ensures orderBook == old(orderBook)
      ensures Agrees(s.(fetchPos := reader.fetchPos,
                        batch := s.batch + [ValidatedOrder(event, Verdict(s.book, event))],
                        pending := s.pending + [m],
                        book := After(s.book, event)))
    {
      var isCorrect := orderBook.ValidateOrder(event);
      batch := batch + [ValidatedOrder(event, isCorrect)];
      pending := pending + [m];
    }

    /** The process dies, possibly inside a flush, and a new one starts: what was only in memory is gone, the
        table and the committed offsets are as the flush left them. */
    method Restart(death: Death)
      requires Valid()
      modifies this, db, reader
      ensures Valid() && fresh(orderBook)
      ensures history == old(history) + [Crash(death)]
      ensures batch == [] && pending == [] && orderBook.Value() == EMPTY_BOOK
      ensures db.table == old(db.table) + (if death.AfterStoring? then RowsOf(old(batch)) else [])
      ensures reader.fetchPos == reader.committed && |reader.committed| == |old(reader.committed)|
      ensures death.WithNothingStored? ==> reader.committed == old(reader.committed)
      ensures death.AfterStoring? ==> forall p | 0 <= p < |reader.committed| ::
                CommitsTo(old(pending), CommitFailed(death.advanced), p, old(reader.committed)[p], reader.committed[p])
    {
      ExecSnoc(reader.log, history, Crash(death));
      ExecSizes(reader.log, history);
      history := history + [Crash(death)];
      if death.AfterStoring? {
        DieAfterStoring(death.advanced);
      }
      reader.Rejoin();
      orderBook := new OrderBook();
      batch := [];
      pending := [];
    }

    /** As much of a flush as was done: the rows are in, and the offset commit got as far as `advanced`. */
    method DieAfterStoring(advanced: set<nat>)
      requires |batch| == |pending|
      modifies db, reader`committed
      ensures db.table == old(db.table) + RowsOf(batch)
      ensures reader.committed == Advance(old(reader.committed), pending, CommitFailed(advanced))
      ensures |reader.committed| == |old(reader.committed)|
      ensures forall p | 0 <= p < |reader.committed| ::
                CommitsTo(pending, CommitFailed(advanced), p, old(reader.committed)[p], reader.committed[p])
    {
      var _ := db.FlushBatchToDB(batch, Txn(true, true, None, true, true, AppliedUnacknowledged));
      var _ := reader.CommitMessages(pending, CommitFailed(advanced));
    }

    method TakeTurn(turn: Turn)
      requires Valid()
      modifies this, db, reader, orderBook
      ensures Valid() && orderBook == old(orderBook)
      ensures history == old(history) + [TurnAction(turn, |Exec(reader.log, old(history)).batch|)]
    {
      match turn
      case OnTick(txn, commit) => Flush(txn, commit);
      case OnFetch(p, txn, commit) => Fetch(p, txn, commit);
    }

    /** The endless loop, for as many turns as the world provides. Each turn is one step of the protocol, and at
        every return each decodable message below a committed offset has a row that carries its columns, flagged
        as some process validated it. */
    method Consume(turns: seq<Turn>)
      requires Valid()
      modifies this, db, reader, orderBook
      ensures Valid() && orderBook == old(orderBook)
      ensures |history| == |old(history)| + |turns| && history[..|old(history)|] == old(history)
      ensures forall k | 0 <= k < |turns| ::
                history[|old(history)| + k]
                == TurnAction(turns[k], |Exec(reader.log, history[..|old(history)| + k]).batch|)
      ensures |reader.committed| == |reader.log|
      ensures forall m: MsgId | Decodable(reader.log, m) && m.offset < reader.committed[m.partition] ::
                exists i :: 0 <= i < |db.table| && RowTells(reader.log, db.table[i], m)
    {
      ghost var start := |history|;
      for k := 0 to |turns|
        invariant Valid() && orderBook == old(orderBook)
        invariant |history| == start + k && history[..start] == old(history)
        invariant TurnsDone(turns, k, start, history)
      {
        ghost var before := history;
        TakeTurn(turns[k]);
        OneMoreTurn(turns, k, start, before, history);
      }
      CommittedHaveRows(reader.log, history);
    }

    /** The first `k` turns are the entries of the history from `start` on. */
    ghost predicate TurnsDone(turns: seq<Turn>, k: nat, start: nat, h: seq<Action>)
      requires k <= |turns| && |h| == start + k
    {
      forall i | 0 <= i < k :: IsTurn(turns[i], h, start + i)
    }

    /** Entry `at` of the history is this turn, taken after the entries before it. */
    ghost predicate IsTurn(turn: Turn, h: seq<Action>, at: nat)
      requires at < |h|
    {
      h[at] == TurnAction(turn, |Exec(reader.log, h[..at]).batch|)
    }

    lemma EarlierTurn(turn: Turn, before: seq<Action>, at: nat, a: Action)
      requires at < |before| && IsTurn(turn, before, at)
      ensures IsTurn(turn, before + [a], at)
    {
      assert (before + [a])[..at] == before[..at];
    }

    lemma LastTurn(turn: Turn, before: seq<Action>)
      ensures var a := TurnAction(turn, |Exec(reader.log, before).batch|);
              IsTurn(turn, before + [a], |before|)
    {
      var a := TurnAction(turn, |Exec(reader.log, before).batch|);
      assert (before + [a])[..|before|] == before;
    }

    lemma OneMoreTurn(turns: seq<Turn>, k: nat, start: nat, before: seq<Action>, after: seq<Action>)
      requires k < |turns| && |before| == start + k && TurnsDone(turns, k, start, before)
      requires after == before + [TurnAction(turns[k], |Exec(reader.log, before).batch|)]
      ensures TurnsDone(turns, k + 1, start, after)
    {
      forall i | 0 <= i < k + 1
        ensures IsTurn(turns[i], after, start + i)
      {
        if i < k {
          EarlierTurn(turns[i], before, start + i, after[start + k]);
        } else {
          LastTurn(turns[k], before);
        }
      }
    }
  }
}
