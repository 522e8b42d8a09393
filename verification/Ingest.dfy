/** The telemetry ingest protocol as a transition system: fetch, validate, batch, store, commit, crash.
    Offsets are those of the consumer's own partitions; `log` is what was ever published to them. */
module Ingest {
  import opened Prelude
  import opened Events
  import opened BookModel

  /** What a batch entry and a stored row hold. */
  datatype ValidatedOrder = ValidatedOrder(event: OrderEvent, isCorrect: bool)

  datatype Row = Row(
    time: int,
    runID: string,
    orderID: string,
    submissionID: string,
    latencyMs: int,
    isSuccessful: bool,
    isCorrect: bool)

  function RowOf(v: ValidatedOrder): Row {
    Row(v.event.sentAt, v.event.runID, v.event.orderID, v.event.submissionID, v.event.latencyMs,
        v.event.isSuccessful, v.isCorrect)
  }

  function RowsOf(batch: seq<ValidatedOrder>): (rows: seq<Row>)
    ensures |rows| == |batch|
  {
    seq(|batch|, i requires 0 <= i < |batch| => RowOf(batch[i]))
  }

  /** What the validator guarantees of the flags of every stored row. */
  predicate CorrectImpliesSuccessful(rows: seq<Row>) {
    forall row | row in rows :: row.isCorrect ==> row.isSuccessful
  }

  // ---- The log ----

  datatype MsgId = MsgId(partition: nat, offset: nat)

  /** Per partition, the messages in offset order; None is a message that is not a decodable OrderEvent. */
  type Log = seq<seq<Option<OrderEvent>>>

  predicate Decodable(log: Log, m: MsgId) {
    m.partition < |log| && m.offset < |log[m.partition]| && log[m.partition][m.offset].Some?
  }

  function EventAt(log: Log, m: MsgId): OrderEvent
    requires Decodable(log, m)
  {
    log[m.partition][m.offset].value
  }

  predicate AllDecodable(log: Log, ids: seq<MsgId>) {
    forall i | 0 <= i < |ids| :: Decodable(log, ids[i])
  }

  function EventsAt(log: Log, ids: seq<MsgId>): (events: seq<OrderEvent>)
    requires AllDecodable(log, ids)
    ensures |events| == |ids|
  {
    seq(|ids|, i requires 0 <= i < |ids| => EventAt(log, ids[i]))
  }

  /** Validating events one at a time, from an empty book. */
  function ValidateAll(events: seq<OrderEvent>): (vs: seq<ValidatedOrder>)
    ensures |vs| == |events|
  {
    if events == [] then []
    else
      var n := |events| - 1;
      ValidateAll(events[..n]) + [ValidatedOrder(events[n], Verdict(BookAfter(events[..n]), events[n]))]
  }

  // ---- State and steps ----

  /** How the database transaction ended. The last case is a commit that took effect on the server although
      the client was told it failed. */
  datatype DbResult = Stored | NotStored | StoredUnacknowledged

  /** How the offset commit ended. A failed commit may still have advanced any of the partitions. */
  datatype CommitResult = Committed | CommitFailed(advanced: set<nat>)

  /** Where the process died. Inside a flush it matters only that the rows were already stored; the offset
      commit that follows may by then have advanced none, some or all of the partitions. */
  datatype Death = WithNothingStored | AfterStoring(advanced: set<nat>)

  datatype Action =
    | Tick(db: DbResult, commit: CommitResult)
    | Fetch(partition: nat, db: DbResult, commit: CommitResult)
    | Crash(death: Death)

  /** `fetched` lists the decodable messages fetched by the current process and `resumedAt` where it began;
      `origins` names the message each row came from. The last four fields count faults; `tornFlushes` are the crashes that
      came between a store and the end of its offset commit. */
  datatype State = State(
    fetchPos: seq<nat>,
    committed: seq<nat>,
    resumedAt: seq<nat>,
    fetched: seq<MsgId>,
    batch: seq<ValidatedOrder>,
    pending: seq<MsgId>,
    book: Book,
    rows: seq<Row>,
    origins: seq<MsgId>,
    commitFailures: nat,
    lostAcks: nat,
    crashes: nat,
    tornFlushes: nat)

  const BATCH_SIZE := 1000

  function Init(log: Log): State {
    var zeros := seq(|log|, _ => 0);
    State(zeros, zeros, zeros, [], [], [], EMPTY_BOOK, [], [], 0, 0, 0, 0)
  }

  /** One past the highest pending offset of a partition; 0 when nothing of it is pending. */
  function NextOffset(pending: seq<MsgId>, p: nat): nat {
    if pending == [] then 0
    else
      var n := |pending| - 1;
      var rest := NextOffset(pending[..n], p);
      if pending[n].partition == p && pending[n].offset + 1 > rest then pending[n].offset + 1 else rest
  }

  function CommitOffset(pending: seq<MsgId>, was: nat, p: nat): nat {
    if NextOffset(pending, p) > 0 then NextOffset(pending, p) else was
  }

  function Advance(committed: seq<nat>, pending: seq<MsgId>, r: CommitResult): (c: seq<nat>)
    ensures |c| == |committed|
  {
    seq(|committed|, p requires 0 <= p < |committed| =>
      if r.Committed? || p in r.advanced then CommitOffset(pending, committed[p], p) else committed[p])
  }

  function Store(s: State): State {
    s.(rows := s.rows + RowsOf(s.batch), origins := s.origins + s.pending)
  }

  function Flush(s: State, db: DbResult, commit: CommitResult): State {
    if s.batch == [] then s
    else match db
      case NotStored => s
      case StoredUnacknowledged => Store(s).(lostAcks := s.lostAcks + 1)
      case Stored =>
        var t := Store(s).(committed := Advance(s.committed, s.pending, commit));
        if commit.Committed? then t.(batch := [], pending := [])
        else t.(commitFailures := s.commitFailures + 1)
  }

  predicate CanFetch(log: Log, s: State, p: nat) {
    p < |log| && p < |s.fetchPos| && s.fetchPos[p] < |log[p]|
  }

  /** Take the next message of partition `p`: skip it when it does not decode, else validate and append. */
  function Absorb(log: Log, s: State, p: nat): State
    requires CanFetch(log, s, p)
  {
    var m := MsgId(p, s.fetchPos[p]);
    var t := s.(fetchPos := s.fetchPos[p := s.fetchPos[p] + 1]);
    if !Decodable(log, m) then t
    else
      var e := EventAt(log, m);
      t.(fetched := s.fetched + [m],
         batch := s.batch + [ValidatedOrder(e, Verdict(s.book, e))],
         pending := s.pending + [m],
         book := After(s.book, e))
  }

  function Next(log: Log, s: State, a: Action): State {
    match a
    case Tick(db, commit) => Flush(s, db, commit)
    case Fetch(p, db, commit) =>
      // An empty partition is a fetch that times out: the loop just continues.
      if !CanFetch(log, s, p) then s
      else
        var t := Absorb(log, s, p);
        if Decodable(log, MsgId(p, s.fetchPos[p])) && |t.batch| >= BATCH_SIZE then Flush(t, db, commit) else t
    case Crash(death) => Restarted(Died(s, death))
  }

  /** What a flush had done by the time the process died in it. */
  function Died(s: State, death: Death): State {
    if death.WithNothingStored? || s.batch == [] then s
    else
      Flush(s, Stored, CommitFailed(death.advanced)).(
        commitFailures := s.commitFailures, tornFlushes := s.tornFlushes + 1)
  }

  /** A new process: memory is lost, rows and committed offsets are not. */
  function Restarted(s: State): State {
    s.(fetchPos := s.committed, resumedAt := s.committed, fetched := [], batch := [], pending := [],
       book := EMPTY_BOOK, crashes := s.crashes + 1)
  }

  function Exec(log: Log, actions: seq<Action>): State {
    if actions == [] then Init(log)
    else Next(log, Exec(log, actions[..|actions| - 1]), actions[|actions| - 1])
  }

  function Faults(s: State): nat {
    s.commitFailures + s.lostAcks + s.crashes
  }

  /** Faults that leave rows stored although their offsets may not be committed. */
  function UncleanStores(s: State): nat {
    s.commitFailures + s.lostAcks + s.tornFlushes
  }
}
