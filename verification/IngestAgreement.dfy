/** Exactly when the stored copies of a message agree in every run: a condition on the log alone. */
module IngestAgreement {
  import opened Prelude
  import opened Events
  import opened BookModel
  import opened BookHistory
  import opened Ingest
  import opened IngestSafety
  import opened IngestReplay

  /** Rows of one message are equal. */
  predicate CopiesAgree(s: State) {
    && |s.rows| == |s.origins|
    && (forall i, j | 0 <= i < |s.rows| && 0 <= j < |s.rows| && s.origins[i] == s.origins[j] :: s.rows[i] == s.rows[j])
  }

  /** However the log is read up to a message, from wherever, it gets the same row. */
  ghost predicate OneRowPerMessage(log: Log) {
    forall m, a, b :: RowTells(log, a, m) && RowTells(log, b, m) ==> a == b
  }

  ghost predicate AgreesWithOneCrash(log: Log) {
    forall actions | Exec(log, actions).crashes <= 1 :: CopiesAgree(Exec(log, actions))
  }

  ghost predicate AlwaysAgrees(log: Log) {
    forall actions :: CopiesAgree(Exec(log, actions))
  }

  predicate HasRow(s: State, m: MsgId, row: Row) {
    |s.rows| == |s.origins| && exists i | 0 <= i < |s.rows| :: s.origins[i] == m && s.rows[i] == row
  }

  lemma RowsOfOneMessage(s: State, m: MsgId, a: Row, b: Row)
    requires CopiesAgree(s) && HasRow(s, m, a) && HasRow(s, m, b)
    ensures a == b
  {
  }

  // ---- Committing up to any offsets ----

  function Zeros(log: Log): (zeros: seq<nat>)
    ensures |zeros| == |log| && forall p | 0 <= p < |log| :: zeros[p] == 0
  {
    seq(|log|, _ => 0)
  }

  /** The same messages lie below both. */
  ghost predicate SameBelow(log: Log, a: seq<nat>, b: seq<nat>) {
    && |a| == |b| == |log|
    && (forall m: MsgId | Decodable(log, m) :: m.offset < a[m.partition] <==> m.offset < b[m.partition])
  }

  lemma SameRange(log: Log, ids: seq<MsgId>, from: seq<nat>, start: seq<nat>, to: seq<nat>)
    requires ReadsRange(log, ids, from, to) && SameBelow(log, start, from)
    ensures ReadsRange(log, ids, start, to)
  {
  }

  lemma StartState(log: Log, actions: seq<Action>)
    requires actions == []
    ensures Exec(log, actions) == Init(log)
    ensures Exec(log, actions).fetchPos == Exec(log, actions).committed == Exec(log, actions).resumedAt == Zeros(log)
  {
  }

  /** A clean flush of everything read so far commits just that. */
  lemma CleanFlushCommits(log: Log, s: State)
    requires FetchedExact(log, s) && BatchIsTail(log, s) && s.pending == s.fetched
    requires s.resumedAt == s.committed == Zeros(log)
    ensures SameBelow(log, Next(log, s, Tick(Stored, Committed)).committed, s.fetchPos)
  {
    var t := Next(log, s, Tick(Stored, Committed));
    forall m: MsgId | Decodable(log, m)
      ensures m.offset < t.committed[m.partition] <==> m.offset < s.fetchPos[m.partition]
    {
      CommittedBelow(log, s, m);
    }
  }

  lemma CommittedBelow(log: Log, s: State, m: MsgId)
    requires FetchedExact(log, s) && BatchIsTail(log, s) && s.pending == s.fetched && Decodable(log, m)
    requires s.resumedAt == s.committed == Zeros(log)
    ensures |Next(log, s, Tick(Stored, Committed)).committed| == |log|
    ensures m.offset < Next(log, s, Tick(Stored, Committed)).committed[m.partition]
            <==> m.offset < s.fetchPos[m.partition]
  {
    FlushCommitsNext(log, s, m.partition);
    NextOffsetIsAbove(log, s, m);
  }

  lemma FlushCommitsNext(log: Log, s: State, p: nat)
    requires p < |log| && |s.batch| == |s.pending| && s.committed == Zeros(log)
    ensures |Next(log, s, Tick(Stored, Committed)).committed| == |log|
    ensures Next(log, s, Tick(Stored, Committed)).committed[p] == NextOffset(s.pending, p)
  {
  }

  lemma NextOffsetIsAbove(log: Log, s: State, m: MsgId)
    requires FetchedExact(log, s) && s.pending == s.fetched && s.resumedAt == Zeros(log) && Decodable(log, m)
    ensures m.offset < NextOffset(s.pending, m.partition) <==> m.offset < s.fetchPos[m.partition]
  {
    var p := m.partition;
    NextOffsetIsPastHighest(s.pending, p);
    if m in s.pending {
      assert PendingIn(s.pending, p);
    } else if PendingIn(s.pending, p) {
      var i :| 0 <= i < |s.pending| && s.pending[i].partition == p && NextOffset(s.pending, p) == s.pending[i].offset + 1;
      assert s.pending[i] in s.fetched;
    }
  }

  /** Without a crash, the messages below any offsets, and only those, can be stored and committed. */
  lemma CommitBelow(log: Log, from: seq<nat>) returns (actions: seq<Action>)
    requires |from| == |log|
    ensures var t := Exec(log, actions);
            && t.batch == [] && t.crashes == 0 && t.resumedAt == Zeros(log)
            && SameBelow(log, t.committed, from) && SameBelow(log, t.fetchPos, from)
  {
    var none: seq<Action> := [];
    StartState(log, none);
    var read, ids := ReadBelow(log, none, Clamp(log, from));
    actions := read + [Tick(Stored, Committed)];
    ExecSnoc(log, read, Tick(Stored, Committed));
    CommitRead(log, read, ids);
    ClampSameBelow(log, from);
  }

  /** The offsets a log has. */
  function Clamp(log: Log, from: seq<nat>): (bound: seq<nat>)
    requires |from| == |log|
    ensures |bound| == |log| && forall p | 0 <= p < |log| :: bound[p] <= |log[p]|
  {
    seq(|log|, p requires 0 <= p < |log| => if from[p] < |log[p]| then from[p] else |log[p]|)
  }

  lemma ClampSameBelow(log: Log, from: seq<nat>)
    requires |from| == |log|
    ensures SameBelow(log, Clamp(log, from), from)
  {
  }

  lemma CommitRead(log: Log, read: seq<Action>, ids: seq<MsgId>)
    requires ReadsOn(Init(log), Exec(log, read), ids)
    ensures var s, t := Exec(log, read), Next(log, Exec(log, read), Tick(Stored, Committed));
            && t.batch == [] && t.crashes == 0 && t.resumedAt == Zeros(log) && t.fetchPos == s.fetchPos
            && SameBelow(log, t.committed, s.fetchPos)
  {
    var s := Exec(log, read);
    ExecFetched(log, read);
    ExecTail(log, read);
    CleanFlushCommits(log, s);
    CleanFlushEmpties(log, s);
    FlushKeepsResume(log, s);
  }

  lemma FlushKeepsResume(log: Log, s: State)
    ensures Next(log, s, Tick(Stored, Committed)).resumedAt == s.resumedAt
  {
  }

  // ---- Two readings in one run ----

  /** `row` is that of a process that read from the beginning. */
  ghost predicate RowFromStart(log: Log, ids: seq<MsgId>, row: Row, m: MsgId) {
    && (exists to :: ReadsRange(log, ids, Zeros(log), to))
    && ids != [] && ids[|ids| - 1] == m
    && row == LastRow(log, ids)
  }

  /** What a stored reading leaves in the table for its last message. */
  lemma LastRowStored(log: Log, s: State, t: State, ids: seq<MsgId>)
    requires ids != [] && AllDecodable(log, s.fetched + ids) && StoredReading(log, s, t, ids)
    requires |s.rows| == |s.origins|
    ensures HasRow(t, ids[|ids| - 1], LastRow(log, s.fetched + ids))
    ensures forall m, row | HasRow(s, m, row) :: HasRow(t, m, row)
  {
    var n := |t.rows| - 1;
    assert t.origins[n] == ids[|ids| - 1];
    forall m, row | HasRow(s, m, row)
      ensures HasRow(t, m, row)
    {
      var i :| 0 <= i < |s.rows| && s.origins[i] == m && s.rows[i] == row;
      assert t.origins[i] == m && t.rows[i] == row;
    }
  }

  lemma ExecSizes(log: Log, actions: seq<Action>)
    ensures |Exec(log, actions).rows| == |Exec(log, actions).origins|
  {
    ExecTruthful(log, actions);
  }

  /** Read and store `ids`, die before the commit, read and store `again` from the committed offsets: both last
      rows are in the table. */
  lemma StoreBoth(log: Log, actions: seq<Action>, ids: seq<MsgId>, to: seq<nat>, again: seq<MsgId>, end: seq<nat>)
    returns (longer: seq<Action>)
    requires Exec(log, actions).batch == [] && ids != [] && again != []
    requires ReadsRange(log, ids, Exec(log, actions).fetchPos, to)
    requires ReadsRange(log, again, Exec(log, actions).committed, end)
    ensures AllDecodable(log, Exec(log, actions).fetched + ids)
    ensures exists upTo :: ReadsRange(log, Exec(log, actions).fetched + ids, Exec(log, actions).resumedAt, upTo)
    ensures HasRow(Exec(log, longer), ids[|ids| - 1], LastRow(log, Exec(log, actions).fetched + ids))
    ensures HasRow(Exec(log, longer), again[|again| - 1], LastRow(log, again))
    ensures Exec(log, longer).crashes == Exec(log, actions).crashes + 1
  {
    var torn := StoreReading(log, actions, ids, to, Crash(AfterStoring({})));
    ExecSizes(log, actions);
    LastRowStored(log, Exec(log, actions), Exec(log, torn), ids);
    longer := StoreReading(log, torn, again, end, Tick(Stored, Committed));
    ExecSizes(log, torn);
    assert Exec(log, torn).fetched + again == again;
    LastRowStored(log, Exec(log, torn), Exec(log, longer), again);
  }

  /** With one crash, any row a message can have can be stored beside one from a reading of the whole log. */
  lemma StoreBesideFromStart(log: Log, row: Row, m: MsgId) returns (actions: seq<Action>, ids: seq<MsgId>, first: Row)
    requires RowTells(log, row, m)
    ensures RowFromStart(log, ids, first, m)
    ensures Exec(log, actions).crashes == 1
    ensures HasRow(Exec(log, actions), m, first) && HasRow(Exec(log, actions), m, row)
  {
    var reading :| ValidatedLast(log, reading, row, m);
    var from, to :| ReadsRange(log, reading, from, to);
    var committed := CommitBelow(log, from);
    var s := Exec(log, committed);
    SameRange(log, reading, from, s.fetchPos, to);
    SameRange(log, reading, from, s.committed, to);
    actions := StoreBoth(log, committed, reading, to, reading, to);
    ids := s.fetched + reading;
    first := LastRow(log, ids);
  }

  /** With one crash, the rows of two readings of the whole log can be stored together. */
  lemma StoreTwoFromStart(log: Log, ids: seq<MsgId>, a: Row, again: seq<MsgId>, b: Row, m: MsgId)
    returns (actions: seq<Action>)
    requires RowFromStart(log, ids, a, m) && RowFromStart(log, again, b, m)
    ensures Exec(log, actions).crashes == 1
    ensures HasRow(Exec(log, actions), m, a) && HasRow(Exec(log, actions), m, b)
  {
    var to :| ReadsRange(log, ids, Zeros(log), to);
    var end :| ReadsRange(log, again, Zeros(log), end);
    var none: seq<Action> := [];
    StartState(log, none);
    assert Exec(log, none).fetched + ids == ids;
    actions := StoreBoth(log, none, ids, to, again, end);
  }

  // ---- The theorem ----

  lemma TellsIsUnique(log: Log, m: MsgId, a: Row, b: Row)
    requires AgreesWithOneCrash(log) && RowTells(log, a, m) && RowTells(log, b, m)
    ensures a == b
  {
    var runA, idsA, firstA := StoreBesideFromStart(log, a, m);
    var runB, idsB, firstB := StoreBesideFromStart(log, b, m);
    var both := StoreTwoFromStart(log, idsA, firstA, idsB, firstB, m);
    RowsOfOneMessage(Exec(log, runA), m, firstA, a);
    RowsOfOneMessage(Exec(log, runB), m, firstB, b);
    RowsOfOneMessage(Exec(log, both), m, firstA, firstB);
  }

  lemma OneRowAgrees(log: Log, actions: seq<Action>)
    requires OneRowPerMessage(log)
    ensures CopiesAgree(Exec(log, actions))
  {
    ExecTruthful(log, actions);
    var s := Exec(log, actions);
    forall i, j | 0 <= i < |s.rows| && 0 <= j < |s.rows| && s.origins[i] == s.origins[j]
      ensures s.rows[i] == s.rows[j]
    {
      assert RowTells(log, s.rows[i], s.origins[i]) && RowTells(log, s.rows[j], s.origins[j]);
    }
  }

  /** The copies of every message agree in every run of a log if and only if every complete reading of the log up
      to a message gives it the same row; and if they can disagree at all, one crash is enough. */
  lemma CopiesAgreeIff(log: Log)
    ensures AlwaysAgrees(log) <==> OneRowPerMessage(log)
    ensures AgreesWithOneCrash(log) <==> OneRowPerMessage(log)
  {
    if OneRowPerMessage(log) {
      forall actions
        ensures CopiesAgree(Exec(log, actions))
      {
        OneRowAgrees(log, actions);
      }
    }
    if AgreesWithOneCrash(log) {
      forall m, a, b | RowTells(log, a, m) && RowTells(log, b, m)
        ensures a == b
      {
        TellsIsUnique(log, m, a, b);
      }
    }
  }

  /** Whenever two readings of a log give a message different rows, some run with exactly one crash stores copies
      of a message that disagree. */
  lemma CopiesDisagreeAfterCrash(log: Log, m: MsgId, a: Row, b: Row) returns (actions: seq<Action>)
    requires RowTells(log, a, m) && RowTells(log, b, m) && a != b
    ensures Exec(log, actions).crashes == 1 && !CopiesAgree(Exec(log, actions))
  {
    CopiesAgreeIff(log);
    assert !OneRowPerMessage(log);
    assert !AgreesWithOneCrash(log);
    actions :| Exec(log, actions).crashes <= 1 && !CopiesAgree(Exec(log, actions));
    if Exec(log, actions).crashes == 0 {
      AgreesWithoutCrash(log, actions);
    }
  }

  lemma AgreesWithoutCrash(log: Log, actions: seq<Action>)
    requires Exec(log, actions).crashes == 0
    ensures CopiesAgree(Exec(log, actions))
  {
    ExecSizes(log, actions);
    var s := Exec(log, actions);
    forall i: nat, j: nat | i < |s.rows| && j < |s.rows| && s.origins[i] == s.origins[j]
      ensures s.rows[i] == s.rows[j]
    {
      CopiesAgreeWithoutCrash(log, actions, i, j);
    }
  }

  // ---- An instance ----

  const FIRST := MsgId(0, 0)
  const SECOND := MsgId(0, 1)

  lemma ReadFromFirst(a: OrderEvent, b: OrderEvent)
    ensures RowTells([[Some(a), Some(b)]], RowOf(ValidatedOrder(b, Verdict(After(EMPTY_BOOK, a), b))), SECOND)
  {
    var log := [[Some(a), Some(b)]];
    var ids := [FIRST, SECOND];
    BothAreRead(a, b);
    assert IsReading(log, ids);
    LastOfTwo(a, b);
    assert ValidatedLast(log, ids, RowOf(ValidatedOrder(b, Verdict(After(EMPTY_BOOK, a), b))), SECOND);
  }

  lemma BothAreRead(a: OrderEvent, b: OrderEvent)
    ensures var log := [[Some(a), Some(b)]];
            ReadsRange(log, [FIRST, SECOND], [0], [2]) && EventsAt(log, [FIRST, SECOND]) == [a, b]
  {
  }

  lemma LastOfTwo(a: OrderEvent, b: OrderEvent)
    ensures ValidateAll([a, b])[1] == ValidatedOrder(b, Verdict(After(EMPTY_BOOK, a), b))
  {
    var none: seq<OrderEvent> := [];
    ValidateOneMore(none, a);
    ValidateOneMore([a], b);
    assert none + [a] == [a] && [a] + [b] == [a, b];
  }

  lemma ReadFromSecond(a: OrderEvent, b: OrderEvent)
    ensures RowTells([[Some(a), Some(b)]], RowOf(ValidatedOrder(b, Verdict(EMPTY_BOOK, b))), SECOND)
  {
    var log := [[Some(a), Some(b)]];
    var ids := [SECOND];
    assert ReadsRange(log, ids, [1], [2]);
    assert EventsAt(log, ids) == [] + [b];
    ValidateOneMore([], b);
    assert ValidatedLast(log, ids, RowOf(ValidatedOrder(b, Verdict(EMPTY_BOOK, b))), SECOND);
  }

  /** One message that changes the verdict on the next is enough. */
  lemma EarlierMessageMatters(a: OrderEvent, b: OrderEvent) returns (actions: seq<Action>)
    requires Verdict(EMPTY_BOOK, b) != Verdict(After(EMPTY_BOOK, a), b)
    ensures var s := Exec([[Some(a), Some(b)]], actions);
            s.crashes == 1 && !CopiesAgree(s)
  {
    ReadFromFirst(a, b);
    ReadFromSecond(a, b);
    actions := CopiesDisagreeAfterCrash(
      [[Some(a), Some(b)]], SECOND,
      RowOf(ValidatedOrder(b, Verdict(After(EMPTY_BOOK, a), b))), RowOf(ValidatedOrder(b, Verdict(EMPTY_BOOK, b))));
  }

  /** A resting sell at 5.00 makes a buy executed at 6.00 incorrect; validated from an empty book it is correct. */
  lemma SomeCopiesDisagree() returns (a: OrderEvent, b: OrderEvent, actions: seq<Action>)
    ensures var s := Exec([[Some(a), Some(b)]], actions);
            s.crashes == 1 && !CopiesAgree(s)
  {
    a := LimitEvent("ORD-1", "SELL", 10, 0, 5.0, 0.0);
    b := LimitEvent("ORD-2", "BUY", 10, 10, 8.0, 6.0);
    UnfilledLimitRests(EMPTY_BOOK, "ORD-1", "SELL", 10, 5.0);
    SkippedAskRefused(After(EMPTY_BOOK, a), "ORD-1");
    actions := EarlierMessageMatters(a, b);
  }

  lemma SkippedAskRefused(book: Book, id: string)
    requires id in book.asks && book.asks[id].price == 5.0
    ensures var b := LimitEvent("ORD-2", "BUY", 10, 10, 8.0, 6.0);
            Verdict(EMPTY_BOOK, b) && !Verdict(book, b)
  {
    assert id in Opposite(book, Buy) && Beats(Buy, Opposite(book, Buy)[id].price, 6.0);
    assert !NothingBeats(book, Buy, 6.0);
    assert Screen(LimitEvent("ORD-2", "BUY", 10, 10, 8.0, 6.0)).OrderChecked?;
  }
}
