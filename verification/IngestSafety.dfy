/** What every run of the ingest protocol guarantees, whatever the faults. */
module IngestSafety {
  import opened Events
  import opened BookModel
  import opened Ingest

  // ---- The invariant, in named parts ----

  predicate Ordered(log: Log, fetchPos: seq<nat>, committed: seq<nat>, resumedAt: seq<nat>) {
    && |fetchPos| == |committed| == |resumedAt| == |log|
    && (forall p | 0 <= p < |log| :: committed[p] <= fetchPos[p] <= |log[p]| && resumedAt[p] <= fetchPos[p])
  }

  predicate PositionsOrdered(log: Log, s: State) {
    Ordered(log, s.fetchPos, s.committed, s.resumedAt)
  }

  /** `ids` is exactly the decodable part of one offset range per partition, each range in offset order. */
  ghost predicate ReadsRange(log: Log, ids: seq<MsgId>, from: seq<nat>, to: seq<nat>) {
    && |from| == |to| == |log|
    && AllDecodable(log, ids)
    && (forall m: MsgId | Decodable(log, m) :: m in ids <==> from[m.partition] <= m.offset < to[m.partition])
    && InOffsetOrder(ids)
  }

  ghost predicate FetchedExact(log: Log, s: State) {
    ReadsRange(log, s.fetched, s.resumedAt, s.fetchPos)
  }

  predicate InOffsetOrder(ids: seq<MsgId>) {
    forall i, j | 0 <= i < j < |ids| && ids[i].partition == ids[j].partition :: ids[i].offset < ids[j].offset
  }

  predicate IsTail<T(==)>(t: seq<T>, s: seq<T>) {
    |t| <= |s| && t == s[|s| - |t|..]
  }

  predicate IsUnflushed(log: Log, fetched: seq<MsgId>, batch: seq<ValidatedOrder>, pending: seq<MsgId>, book: Book) {
    && AllDecodable(log, fetched)
    && |batch| == |pending|
    && IsTail(pending, fetched)
    && IsTail(batch, ValidateAll(EventsAt(log, fetched)))
    && book == BookAfter(EventsAt(log, fetched))
  }

  /** The unflushed work is the tail of one-at-a-time validation since the process started. */
  predicate BatchIsTail(log: Log, s: State) {
    IsUnflushed(log, s.fetched, s.batch, s.pending, s.book)
  }

  predicate Ahead(pending: seq<MsgId>, committed: seq<nat>) {
    forall p | 0 <= p < |committed| :: NextOffset(pending, p) > 0 ==> committed[p] <= NextOffset(pending, p)
  }

  /** A later commit never lowers an offset. */
  predicate PendingAhead(s: State) {
    Ahead(s.pending, s.committed)
  }

  /** Every decodable message below these offsets is among the ids. */
  ghost predicate Covered(log: Log, below: seq<nat>, ids: seq<MsgId>) {
    && |below| == |log|
    && (forall m: MsgId | Decodable(log, m) && m.offset < below[m.partition] :: m in ids)
  }

  /** What was read is stored or pending, and what is committed is stored. */
  ghost predicate NothingLost(log: Log, s: State) {
    Covered(log, s.fetchPos, s.origins + s.pending) && Covered(log, s.committed, s.origins)
  }

  /** All that some process can have read at some point. */
  ghost predicate IsReading(log: Log, ids: seq<MsgId>) {
    exists from, to :: ReadsRange(log, ids, from, to)
  }

  /** `row` is what one-at-a-time validation from an empty book makes of the last of `ids`, which are all that a
      process can have read up to it, with no decodable message left out. */
  ghost predicate ValidatedLast(log: Log, ids: seq<MsgId>, row: Row, m: MsgId) {
    && IsReading(log, ids)
    && ids != [] && ids[|ids| - 1] == m
    && row == RowOf(ValidateAll(EventsAt(log, ids))[|ids| - 1])
  }

  ghost predicate RowTells(log: Log, row: Row, m: MsgId) {
    exists ids :: ValidatedLast(log, ids, row, m)
  }

  /** Each of these rows tells of the message beside it. */
  ghost predicate TellAll(log: Log, rows: seq<Row>, ids: seq<MsgId>) {
    |rows| == |ids| && forall i | 0 <= i < |rows| :: RowTells(log, rows[i], ids[i])
  }

  /** Every row carries the columns of the message it came from, flagged as some process validated it. */
  ghost predicate RowsTruthful(log: Log, s: State) {
    TellAll(log, s.rows, s.origins)
  }

  ghost predicate Inv(log: Log, s: State) {
    && PositionsOrdered(log, s)
    && FetchedExact(log, s)
    && BatchIsTail(log, s)
    && PendingAhead(s)
    && NothingLost(log, s)
    && RowsTruthful(log, s)
  }

  // ---- Facts about one-at-a-time validation ----

  lemma AppendEvent(log: Log, ids: seq<MsgId>, m: MsgId)
    requires AllDecodable(log, ids) && Decodable(log, m)
    ensures AllDecodable(log, ids + [m])
    ensures EventsAt(log, ids + [m]) == EventsAt(log, ids) + [EventAt(log, m)]
  {
  }

  lemma ValidateOneMore(events: seq<OrderEvent>, e: OrderEvent)
    ensures BookAfter(events + [e]) == After(BookAfter(events), e)
    ensures ValidateAll(events + [e])
            == ValidateAll(events) + [ValidatedOrder(e, Verdict(BookAfter(events), e))]
  {
    assert (events + [e])[..|events|] == events;
  }

  lemma {:induction false} ValidatedAt(events: seq<OrderEvent>, k: nat)
    requires k < |events|
    ensures ValidateAll(events)[k] == ValidatedOrder(events[k], Verdict(BookAfter(events[..k]), events[k]))
  {
    var n := |events| - 1;
    if k < n {
      ValidatedAt(events[..n], k);
      assert events[..n][..k] == events[..k];
    }
  }

  lemma VerdictNeedsSuccess(b: Book, e: OrderEvent)
    ensures Verdict(b, e) ==> e.isSuccessful
  {
  }

  // ---- Offsets ----

  lemma {:induction false} NextOffsetBounds(pending: seq<MsgId>, p: nat, hi: nat)
    requires forall i | 0 <= i < |pending| && pending[i].partition == p :: pending[i].offset < hi
    ensures NextOffset(pending, p) <= hi
  {
    if pending != [] {
      NextOffsetBounds(pending[..|pending| - 1], p, hi);
    }
  }

  predicate PendingIn(pending: seq<MsgId>, p: nat) {
    exists i | 0 <= i < |pending| :: pending[i].partition == p
  }

  /** `offset` is one past some pending message of the partition, and past every one of them. */
  predicate PastHighest(pending: seq<MsgId>, p: nat, offset: nat) {
    && (exists i | 0 <= i < |pending| :: pending[i].partition == p && offset == pending[i].offset + 1)
    && (forall i | 0 <= i < |pending| && pending[i].partition == p :: pending[i].offset < offset)
  }

  lemma {:induction false} NextOffsetIsPastHighest(pending: seq<MsgId>, p: nat)
    ensures PendingIn(pending, p) ==> PastHighest(pending, p, NextOffset(pending, p))
    ensures !PendingIn(pending, p) ==> NextOffset(pending, p) == 0
  {
    if pending != [] {
      var n := |pending| - 1;
      NextOffsetIsPastHighest(pending[..n], p);
      if PendingIn(pending[..n], p) {
        var i :| 0 <= i < n && pending[i].partition == p && NextOffset(pending[..n], p) == pending[i].offset + 1;
        assert pending[i].partition == p;
      }
      assert PendingIn(pending, p) ==> pending[n].partition == p || PendingIn(pending[..n], p);
    }
  }

  /** What an offset commit leaves a partition at: past all its pending messages when the commit took effect
      there and there are any, and otherwise where it was. */
  predicate CommitsTo(pending: seq<MsgId>, r: CommitResult, p: nat, was: nat, now: nat) {
    if (r.Committed? || p in r.advanced) && PendingIn(pending, p) then PastHighest(pending, p, now) else now == was
  }

  lemma AdvanceCommits(committed: seq<nat>, pending: seq<MsgId>, r: CommitResult)
    ensures forall p | 0 <= p < |committed| ::
              CommitsTo(pending, r, p, committed[p], Advance(committed, pending, r)[p])
  {
    forall p | 0 <= p < |committed|
      ensures CommitsTo(pending, r, p, committed[p], Advance(committed, pending, r)[p])
    {
      NextOffsetIsPastHighest(pending, p);
    }
  }

  lemma NextOffsetSnoc(pending: seq<MsgId>, m: MsgId, p: nat)
    ensures NextOffset(pending + [m], p) >= NextOffset(pending, p)
    ensures p == m.partition ==> NextOffset(pending + [m], p) > m.offset
    ensures p != m.partition ==> NextOffset(pending + [m], p) == NextOffset(pending, p)
  {
    assert (pending + [m])[..|pending|] == pending;
  }

  // ---- Each step keeps each part ----

  lemma InitReads(log: Log)
    ensures PositionsOrdered(log, Init(log)) && FetchedExact(log, Init(log))
  {
  }

  lemma InitStores(log: Log)
    ensures NothingLost(log, Init(log)) && RowsTruthful(log, Init(log))
  {
  }

  lemma NoEvents(log: Log, ids: seq<MsgId>)
    requires ids == []
    ensures AllDecodable(log, ids) && EventsAt(log, ids) == []
  {
  }

  lemma NothingValidated(events: seq<OrderEvent>)
    requires events == []
    ensures ValidateAll(events) == [] && BookAfter(events) == EMPTY_BOOK
  {
  }

  lemma TailSnoc<T>(t: seq<T>, s: seq<T>, x: T)
    requires IsTail(t, s)
    ensures IsTail(t + [x], s + [x])
  {
  }

  lemma NoTail<T>(s: seq<T>)
    ensures IsTail([], s)
  {
  }

  lemma EmptyTail(log: Log, s: State)
    requires s.fetched == [] && s.batch == [] && s.pending == [] && s.book == EMPTY_BOOK
    ensures BatchIsTail(log, s)
  {
    NoEvents(log, s.fetched);
    NothingValidated(EventsAt(log, s.fetched));
  }

  lemma NoneAhead(s: State)
    requires s.pending == []
    ensures PendingAhead(s)
  {
  }

  lemma InitInv(log: Log)
    ensures Inv(log, Init(log))
  {
    InitReads(log);
    InitStores(log);
    EmptyTail(log, Init(log));
    NoneAhead(Init(log));
  }

  lemma AbsorbKeepsFetched(log: Log, s: State, p: nat)
    requires FetchedExact(log, s) && PositionsOrdered(log, s) && CanFetch(log, s, p)
    ensures FetchedExact(log, Absorb(log, s, p))
  {
    var m := MsgId(p, s.fetchPos[p]);
    var t := Absorb(log, s, p);
    if Decodable(log, m) {
      forall k: MsgId | Decodable(log, k)
        ensures k in t.fetched <==> t.resumedAt[k.partition] <= k.offset < t.fetchPos[k.partition]
      {
        assert k in t.fetched <==> k in s.fetched || k == m;
      }
      assert forall i | 0 <= i < |s.fetched| && s.fetched[i].partition == p ::
          s.fetched[i] in s.fetched && s.fetched[i].offset < s.fetchPos[p];
    } else {
      forall k: MsgId | Decodable(log, k)
        ensures k in t.fetched <==> t.resumedAt[k.partition] <= k.offset < t.fetchPos[k.partition]
      {
        assert k != m;
      }
    }
  }

  lemma AbsorbKeepsTail(log: Log, s: State, p: nat)
    requires BatchIsTail(log, s) && CanFetch(log, s, p)
    ensures BatchIsTail(log, Absorb(log, s, p))
  {
    var m := MsgId(p, s.fetchPos[p]);
    if Decodable(log, m) {
      AppendEvent(log, s.fetched, m);
      var events := EventsAt(log, s.fetched);
      var e := EventAt(log, m);
      ValidateOneMore(events, e);
      TailSnoc(s.pending, s.fetched, m);
      TailSnoc(s.batch, ValidateAll(events), ValidatedOrder(e, Verdict(s.book, e)));
    }
  }

  lemma AbsorbKeepsPositions(log: Log, s: State, p: nat)
    requires PositionsOrdered(log, s) && CanFetch(log, s, p)
    ensures PositionsOrdered(log, Absorb(log, s, p))
  {
  }

  lemma AbsorbKeepsAhead(log: Log, s: State, p: nat)
    requires PositionsOrdered(log, s) && PendingAhead(s) && CanFetch(log, s, p)
    ensures PendingAhead(Absorb(log, s, p))
  {
    var m := MsgId(p, s.fetchPos[p]);
    if Decodable(log, m) {
      forall q | 0 <= q < |s.committed| && NextOffset(s.pending + [m], q) > 0
        ensures s.committed[q] <= NextOffset(s.pending + [m], q)
      {
        NextOffsetSnoc(s.pending, m, q);
      }
    }
  }

  lemma CoveredByMore(log: Log, below: seq<nat>, ids: seq<MsgId>, m: MsgId)
    requires Covered(log, below, ids) && m.partition < |log| && m.offset == below[m.partition]
    ensures var above := below[m.partition := m.offset + 1];
            if Decodable(log, m) then Covered(log, above, ids + [m]) else Covered(log, above, ids)
  {
    var above := below[m.partition := m.offset + 1];
    forall k: MsgId | Decodable(log, k) && k.offset < above[k.partition]
      ensures k == m || k in ids
    {
      if k != m {
        assert k.offset < below[k.partition];
      }
    }
  }

  lemma AbsorbKeepsNothingLost(log: Log, s: State, p: nat)
    requires NothingLost(log, s) && CanFetch(log, s, p)
    ensures NothingLost(log, Absorb(log, s, p))
  {
    var m := MsgId(p, s.fetchPos[p]);
    CoveredByMore(log, s.fetchPos, s.origins + s.pending, m);
    assert s.origins + (s.pending + [m]) == (s.origins + s.pending) + [m];
  }

  lemma AbsorbInv(log: Log, s: State, p: nat)
    requires Inv(log, s) && CanFetch(log, s, p)
    ensures Inv(log, Absorb(log, s, p))
  {
    AbsorbKeepsFetched(log, s, p);
    AbsorbKeepsTail(log, s, p);
    AbsorbKeepsPositions(log, s, p);
    AbsorbKeepsAhead(log, s, p);
    AbsorbKeepsNothingLost(log, s, p);
  }

  /** What a process had read up to any one message is itself a complete range. */
  lemma {:induction false} ReadingPrefix(log: Log, ids: seq<MsgId>, from: seq<nat>, to: seq<nat>, n: nat)
    returns (upTo: seq<nat>)
    requires ReadsRange(log, ids, from, to) && n <= |ids|
    ensures ReadsRange(log, ids[..n], from, upTo)
  {
    if n == |ids| {
      assert ids[..n] == ids;
      upTo := to;
    } else {
      var last := |ids| - 1;
      upTo := DropLastRead(log, ids, from, to);
      upTo := ReadingPrefix(log, ids[..last], from, upTo, n);
      assert ids[..last][..n] == ids[..n];
    }
  }

  lemma DropLastRead(log: Log, ids: seq<MsgId>, from: seq<nat>, to: seq<nat>) returns (upTo: seq<nat>)
    requires ReadsRange(log, ids, from, to) && ids != []
    ensures ReadsRange(log, ids[..|ids| - 1], from, upTo)
  {
    var n := |ids| - 1;
    var last := ids[n];
    assert Decodable(log, last) && last in ids;
    upTo := to[last.partition := last.offset];
    forall m: MsgId | Decodable(log, m)
      ensures m in ids[..n] <==> from[m.partition] <= m.offset < upTo[m.partition]
    {
      LastIsHighest(ids, m);
    }
  }

  lemma LastIsHighest(ids: seq<MsgId>, m: MsgId)
    requires InOffsetOrder(ids) && ids != []
    ensures var n := |ids| - 1;
            m in ids[..n] <==> m in ids && (m.partition == ids[n].partition ==> m.offset < ids[n].offset)
  {
    var n := |ids| - 1;
    if m in ids && m != ids[n] {
      var i :| 0 <= i < |ids| && ids[i] == m;
      assert ids[..n][i] == m;
    }
    if m in ids[..n] {
      var i :| 0 <= i < n && ids[..n][i] == m;
      assert ids[i] == m;
    }
  }

  lemma ValidatedPrefix(events: seq<OrderEvent>, k: nat)
    requires k < |events|
    ensures ValidateAll(events[..k + 1])[k] == ValidateAll(events)[k]
  {
    ValidatedAt(events, k);
    ValidatedAt(events[..k + 1], k);
    assert events[..k + 1][..k] == events[..k];
  }

  lemma EventsOfPrefix(log: Log, ids: seq<MsgId>, n: nat)
    requires AllDecodable(log, ids) && n <= |ids|
    ensures AllDecodable(log, ids[..n]) && EventsAt(log, ids[..n]) == EventsAt(log, ids)[..n]
  {
  }

  ghost predicate PrefixesAreReadings(log: Log, ids: seq<MsgId>) {
    forall n | 0 <= n <= |ids| :: IsReading(log, ids[..n])
  }

  lemma FetchedPrefixesAreReadings(log: Log, s: State)
    requires FetchedExact(log, s)
    ensures PrefixesAreReadings(log, s.fetched)
  {
    forall n | 0 <= n <= |s.fetched|
      ensures IsReading(log, s.fetched[..n])
    {
      var upTo := ReadingPrefix(log, s.fetched, s.resumedAt, s.fetchPos, n);
    }
  }

  /** Batch entry `i` is what one-at-a-time validation makes of pending message `i`, the `k`th of all read. */
  predicate EntryOf(log: Log, ids: seq<MsgId>, k: int, v: ValidatedOrder, m: MsgId)
    requires AllDecodable(log, ids)
  {
    0 <= k < |ids| && m == ids[k] && v == ValidateAll(EventsAt(log, ids))[k]
  }

  lemma BatchEntry(log: Log, s: State, i: nat)
    requires BatchIsTail(log, s) && i < |s.batch|
    ensures EntryOf(log, s.fetched, |s.fetched| - |s.pending| + i, s.batch[i], s.pending[i])
  {
    TailEntry(s.pending, s.fetched, i);
    TailEntry(s.batch, ValidateAll(EventsAt(log, s.fetched)), i);
  }

  lemma TailEntry<T>(t: seq<T>, s: seq<T>, i: nat)
    requires IsTail(t, s) && i < |t|
    ensures t[i] == s[|s| - |t| + i]
  {
  }

  lemma EntryTells(log: Log, ids: seq<MsgId>, k: nat, v: ValidatedOrder, m: MsgId)
    requires AllDecodable(log, ids) && EntryOf(log, ids, k, v, m) && PrefixesAreReadings(log, ids)
    ensures RowTells(log, RowOf(v), m)
  {
    var prefix := ids[..k + 1];
    EventsOfPrefix(log, ids, k + 1);
    ValidatedPrefix(EventsAt(log, ids), k);
    assert IsReading(log, prefix);
    assert ValidatedLast(log, prefix, RowOf(v), m);
  }

  /** A batch entry tells the truth about the pending message beside it. */
  lemma BatchTells(log: Log, s: State, i: nat)
    requires PrefixesAreReadings(log, s.fetched) && BatchIsTail(log, s) && i < |s.batch|
    ensures RowTells(log, RowOf(s.batch[i]), s.pending[i])
  {
    BatchEntry(log, s, i);
    EntryTells(log, s.fetched, |s.fetched| - |s.pending| + i, s.batch[i], s.pending[i]);
  }

  /** Column by column, but for the flag, the row stored for an event. */
  predicate ColumnsOf(row: Row, e: OrderEvent) {
    && row.time == e.sentAt
    && row.runID == e.runID
    && row.orderID == e.orderID
    && row.submissionID == e.submissionID
    && row.latencyMs == e.latencyMs
    && row.isSuccessful == e.isSuccessful
  }

  /** A row that tells of a message carries its columns, and is marked correct only if it succeeded. */
  lemma RowCarriesColumns(log: Log, row: Row, m: MsgId)
    requires RowTells(log, row, m)
    ensures Decodable(log, m)
    ensures row == RowOf(ValidatedOrder(EventAt(log, m), row.isCorrect))
    ensures ColumnsOf(row, EventAt(log, m))
    ensures row.isCorrect ==> row.isSuccessful
  {
    var ids :| ValidatedLast(log, ids, row, m);
    var k := |ids| - 1;
    var events := EventsAt(log, ids);
    ValidatedAt(events, k);
    VerdictNeedsSuccess(BookAfter(events[..k]), events[k]);
  }

  lemma TellAllConcat(log: Log, rows: seq<Row>, ids: seq<MsgId>, more: seq<Row>, others: seq<MsgId>)
    requires TellAll(log, rows, ids) && TellAll(log, more, others)
    ensures TellAll(log, rows + more, ids + others)
  {
    forall i | 0 <= i < |rows + more|
      ensures RowTells(log, (rows + more)[i], (ids + others)[i])
    {
      if i < |rows| {
        assert (rows + more)[i] == rows[i] && (ids + others)[i] == ids[i];
      } else {
        assert (rows + more)[i] == more[i - |rows|] && (ids + others)[i] == others[i - |rows|];
      }
    }
  }

  lemma BatchTellsAll(log: Log, s: State)
    requires PrefixesAreReadings(log, s.fetched) && BatchIsTail(log, s)
    ensures TellAll(log, RowsOf(s.batch), s.pending)
  {
    forall i: nat | i < |s.batch|
      ensures RowTells(log, RowsOf(s.batch)[i], s.pending[i])
    {
      BatchTells(log, s, i);
    }
  }

  lemma StoreKeepsTruth(log: Log, s: State)
    requires FetchedExact(log, s) && BatchIsTail(log, s) && RowsTruthful(log, s)
    ensures RowsTruthful(log, Store(s))
  {
    FetchedPrefixesAreReadings(log, s);
    BatchTellsAll(log, s);
    TellAllConcat(log, s.rows, s.origins, RowsOf(s.batch), s.pending);
  }

  lemma PendingIsFetched(log: Log, s: State, p: nat)
    requires FetchedExact(log, s) && BatchIsTail(log, s) && p < |log|
    ensures NextOffset(s.pending, p) <= s.fetchPos[p]
  {
    assert forall i | 0 <= i < |s.pending| :: s.pending[i] in s.fetched;
    NextOffsetBounds(s.pending, p, s.fetchPos[p]);
  }

  /** Committed offsets that are between what was committed and what was read. */
  predicate Between(log: Log, low: seq<nat>, now: seq<nat>, high: seq<nat>) {
    && |low| == |now| == |high| == |log|
    && (forall p | 0 <= p < |log| :: low[p] <= now[p] <= high[p])
  }

  lemma AdvanceWithin(log: Log, fetchPos: seq<nat>, committed: seq<nat>, pending: seq<MsgId>, r: CommitResult)
    requires Between(log, committed, committed, fetchPos) && Ahead(pending, committed)
    requires forall p | 0 <= p < |log| :: NextOffset(pending, p) <= fetchPos[p]
    ensures Between(log, committed, Advance(committed, pending, r), fetchPos)
    ensures Ahead(pending, Advance(committed, pending, r))
  {
  }

  lemma AdvanceBounds(log: Log, s: State, r: CommitResult)
    requires PositionsOrdered(log, s) && FetchedExact(log, s) && BatchIsTail(log, s) && PendingAhead(s)
    ensures Between(log, s.committed, Advance(s.committed, s.pending, r), s.fetchPos)
    ensures Ahead(s.pending, Advance(s.committed, s.pending, r))
  {
    forall p: nat | p < |log|
      ensures NextOffset(s.pending, p) <= s.fetchPos[p]
    {
      PendingIsFetched(log, s, p);
    }
    AdvanceWithin(log, s.fetchPos, s.committed, s.pending, r);
  }

  lemma NothingPending(committed: seq<nat>)
    ensures Ahead([], committed)
  {
  }

  lemma CoveredBelow(log: Log, below: seq<nat>, lower: seq<nat>, low: seq<nat>, ids: seq<MsgId>)
    requires Covered(log, below, ids) && Between(log, low, lower, below)
    ensures Covered(log, lower, ids)
  {
  }

  lemma CoveredByConcat(log: Log, below: seq<nat>, ids: seq<MsgId>, more: seq<MsgId>)
    requires Covered(log, below, ids)
    ensures Covered(log, below, ids + more)
  {
  }

  lemma OrderedAt(log: Log, fetchPos: seq<nat>, committed: seq<nat>, now: seq<nat>, resumedAt: seq<nat>)
    requires Ordered(log, fetchPos, committed, resumedAt) && Between(log, committed, now, fetchPos)
    ensures Ordered(log, fetchPos, now, resumedAt)
  {
  }

  lemma FlushFields(s: State, db: DbResult, commit: CommitResult)
    ensures var t, now := Flush(s, db, commit), Advance(s.committed, s.pending, commit);
            && t.fetchPos == s.fetchPos && t.resumedAt == s.resumedAt
            && (t.committed == s.committed || t.committed == now)
            && (t.pending == s.pending || (t.committed == now && t.pending == []))
  {
  }

  lemma FlushKeepsPositions(log: Log, s: State, db: DbResult, commit: CommitResult)
    requires PositionsOrdered(log, s) && FetchedExact(log, s) && BatchIsTail(log, s) && PendingAhead(s)
    ensures PositionsOrdered(log, Flush(s, db, commit))
    ensures PendingAhead(Flush(s, db, commit))
    ensures Between(log, s.committed, Flush(s, db, commit).committed, s.fetchPos)
  {
    var now := Advance(s.committed, s.pending, commit);
    AdvanceBounds(log, s, commit);
    OrderedAt(log, s.fetchPos, s.committed, now, s.resumedAt);
    NothingPending(now);
    FlushFields(s, db, commit);
  }

  lemma FlushKeepsFetched(log: Log, s: State, db: DbResult, commit: CommitResult)
    requires FetchedExact(log, s)
    ensures FetchedExact(log, Flush(s, db, commit))
  {
  }

  lemma FlushKeepsTail(log: Log, s: State, db: DbResult, commit: CommitResult)
    requires BatchIsTail(log, s)
    ensures BatchIsTail(log, Flush(s, db, commit))
  {
    NoTail(s.fetched);
    NoTail(ValidateAll(EventsAt(log, s.fetched)));
  }

  lemma FlushKeepsNothingLost(log: Log, s: State, db: DbResult, commit: CommitResult)
    requires PositionsOrdered(log, s) && FetchedExact(log, s) && BatchIsTail(log, s) && PendingAhead(s)
    requires NothingLost(log, s)
    ensures NothingLost(log, Flush(s, db, commit))
  {
    var stored := s.origins + s.pending;
    var now := Advance(s.committed, s.pending, commit);
    AdvanceBounds(log, s, commit);
    CoveredBelow(log, s.fetchPos, now, s.committed, stored);
    CoveredBelow(log, s.fetchPos, s.committed, s.committed, stored);
    CoveredByConcat(log, s.fetchPos, stored, s.pending);
    assert stored + [] == stored;
  }

  lemma FlushKeepsTruth(log: Log, s: State, db: DbResult, commit: CommitResult)
    requires FetchedExact(log, s) && BatchIsTail(log, s) && RowsTruthful(log, s)
    ensures RowsTruthful(log, Flush(s, db, commit))
  {
    StoreKeepsTruth(log, s);
  }

  lemma FlushInv(log: Log, s: State, db: DbResult, commit: CommitResult)
    requires Inv(log, s)
    ensures Inv(log, Flush(s, db, commit))
  {
    FlushKeepsPositions(log, s, db, commit);
    FlushKeepsFetched(log, s, db, commit);
    FlushKeepsTail(log, s, db, commit);
    FlushKeepsNothingLost(log, s, db, commit);
    FlushKeepsTruth(log, s, db, commit);
  }

  lemma RestartReads(log: Log, s: State)
    requires PositionsOrdered(log, s)
    ensures PositionsOrdered(log, Restarted(s)) && FetchedExact(log, Restarted(s))
  {
  }

  lemma RestartStores(log: Log, s: State)
    requires PositionsOrdered(log, s) && NothingLost(log, s) && RowsTruthful(log, s)
    ensures NothingLost(log, Restarted(s)) && RowsTruthful(log, Restarted(s))
  {
  }

  lemma DiedPositions(log: Log, s: State, death: Death)
    requires PositionsOrdered(log, s) && FetchedExact(log, s) && BatchIsTail(log, s) && PendingAhead(s)
    ensures PositionsOrdered(log, Died(s, death))
    ensures Between(log, s.committed, Died(s, death).committed, s.fetchPos)
  {
    if death.AfterStoring? {
      FlushKeepsPositions(log, s, Stored, CommitFailed(death.advanced));
    }
  }

  lemma DiedStores(log: Log, s: State, death: Death)
    requires PositionsOrdered(log, s) && FetchedExact(log, s) && BatchIsTail(log, s) && PendingAhead(s)
    requires NothingLost(log, s) && RowsTruthful(log, s)
    ensures NothingLost(log, Died(s, death)) && RowsTruthful(log, Died(s, death))
  {
    if death.AfterStoring? {
      FlushKeepsNothingLost(log, s, Stored, CommitFailed(death.advanced));
      FlushKeepsTruth(log, s, Stored, CommitFailed(death.advanced));
    }
  }

  lemma CrashInv(log: Log, s: State, death: Death)
    requires Inv(log, s)
    ensures Inv(log, Restarted(Died(s, death)))
  {
    var t := Died(s, death);
    DiedPositions(log, s, death);
    DiedStores(log, s, death);
    RestartReads(log, t);
    RestartStores(log, t);
    EmptyTail(log, Restarted(t));
    NoneAhead(Restarted(t));
  }

  lemma FetchInv(log: Log, s: State, p: nat, db: DbResult, commit: CommitResult)
    requires Inv(log, s)
    ensures Inv(log, Next(log, s, Fetch(p, db, commit)))
  {
    if CanFetch(log, s, p) {
      var t := Absorb(log, s, p);
      AbsorbInv(log, s, p);
      FlushInv(log, t, db, commit);
      assert Next(log, s, Fetch(p, db, commit)) == t || Next(log, s, Fetch(p, db, commit)) == Flush(t, db, commit);
    }
  }

  lemma NextInv(log: Log, s: State, a: Action)
    requires Inv(log, s)
    ensures Inv(log, Next(log, s, a))
  {
    match a
    case Tick(db, commit) => FlushInv(log, s, db, commit);
    case Fetch(p, db, commit) => FetchInv(log, s, p, db, commit);
    case Crash(death) => CrashInv(log, s, death);
  }

  lemma NextKeepsCommitted(log: Log, s: State, a: Action, p: nat)
    requires Inv(log, s) && p < |log|
    ensures |s.committed| == |Next(log, s, a).committed| == |log|
    ensures s.committed[p] <= Next(log, s, a).committed[p]
  {
    match a
    case Tick(db, commit) => FlushRaises(s, db, commit);
    case Fetch(q, db, commit) => FetchKeepsCommitted(log, s, q, db, commit, p);
    case Crash(death) => DiedPositions(log, s, death);
  }

  lemma FlushRaises(s: State, db: DbResult, commit: CommitResult)
    requires PendingAhead(s)
    ensures |Flush(s, db, commit).committed| == |s.committed|
    ensures forall p | 0 <= p < |s.committed| :: s.committed[p] <= Flush(s, db, commit).committed[p]
  {
  }

  lemma FetchKeepsCommitted(log: Log, s: State, q: nat, db: DbResult, commit: CommitResult, p: nat)
    requires PositionsOrdered(log, s) && PendingAhead(s) && p < |log|
    ensures |s.committed| == |Next(log, s, Fetch(q, db, commit)).committed| == |log|
    ensures s.committed[p] <= Next(log, s, Fetch(q, db, commit)).committed[p]
  {
    if CanFetch(log, s, q) {
      AbsorbKeepsAhead(log, s, q);
      FlushRaises(Absorb(log, s, q), db, commit);
    }
  }

  lemma {:induction false} ExecInv(log: Log, actions: seq<Action>)
    ensures Inv(log, Exec(log, actions))
  {
    if actions == [] {
      InitInv(log);
    } else {
      var n := |actions| - 1;
      ExecInv(log, actions[..n]);
      NextInv(log, Exec(log, actions[..n]), actions[n]);
    }
  }

  lemma ExecSnoc(log: Log, actions: seq<Action>, a: Action)
    ensures Exec(log, actions + [a]) == Next(log, Exec(log, actions), a)
  {
    assert (actions + [a])[..|actions|] == actions;
  }

  lemma ExecPositions(log: Log, actions: seq<Action>)
    ensures PositionsOrdered(log, Exec(log, actions))
  {
    ExecInv(log, actions);
  }

  lemma ExecFetched(log: Log, actions: seq<Action>)
    ensures FetchedExact(log, Exec(log, actions))
  {
    ExecInv(log, actions);
  }

  lemma ExecTail(log: Log, actions: seq<Action>)
    ensures BatchIsTail(log, Exec(log, actions))
  {
    ExecInv(log, actions);
  }

  lemma ExecNothingLost(log: Log, actions: seq<Action>)
    ensures NothingLost(log, Exec(log, actions))
  {
    ExecInv(log, actions);
  }

  lemma ExecTruthful(log: Log, actions: seq<Action>)
    ensures RowsTruthful(log, Exec(log, actions))
  {
    ExecInv(log, actions);
  }

  // ---- The theorems ----

  ghost function CommittedAt(log: Log, actions: seq<Action>, p: nat): nat
    requires p < |log|
  {
    ExecPositions(log, actions);
    Exec(log, actions).committed[p]
  }

  ghost function FetchedUpTo(log: Log, actions: seq<Action>, p: nat): nat
    requires p < |log|
  {
    ExecPositions(log, actions);
    Exec(log, actions).fetchPos[p]
  }

  /** At least once: in every run, with any mix of faults, each decodable message below its partition's
      committed offset has a row, and that row carries its columns. */
  lemma AtLeastOnce(log: Log, actions: seq<Action>, m: MsgId) returns (i: nat)
    requires Decodable(log, m) && m.offset < CommittedAt(log, actions, m.partition)
    ensures i < |Exec(log, actions).rows| && i < |Exec(log, actions).origins|
    ensures Exec(log, actions).origins[i] == m
    ensures RowTells(log, Exec(log, actions).rows[i], m)
    ensures ColumnsOf(Exec(log, actions).rows[i], log[m.partition][m.offset].value)
  {
    ExecNothingLost(log, actions);
    ExecTruthful(log, actions);
    var s := Exec(log, actions);
    i :| 0 <= i < |s.origins| && s.origins[i] == m;
    RowCarriesColumns(log, s.rows[i], m);
  }

  // ---- When a full batch is flushed ----

  predicate AllAnswersClean(actions: seq<Action>) {
    forall k | 0 <= k < |actions| ::
      match actions[k]
      case Tick(db, commit) => db.Stored? && commit.Committed?
      case Fetch(_, db, commit) => db.Stored? && commit.Committed?
      case Crash(_) => true
  }

  /** A fetch flushes exactly when it makes the batch a thousand orders or more. */
  lemma FetchFlushesIffFull(log: Log, s: State, p: nat)
    requires CanFetch(log, s, p) && log[p][s.fetchPos[p]].Some? && |s.batch| == |s.pending|
    ensures var t := Next(log, s, Fetch(p, Stored, Committed));
            if |s.batch| >= 999
            then t.batch == [] && t.pending == [] && |t.rows| == |s.rows| + |s.batch| + 1
            else t.rows == s.rows && |t.batch| == |s.batch| + 1 && t.committed == s.committed
  {
  }

  /** As long as stores and commits succeed, a thousand orders are never waiting. */
  lemma {:induction false} BatchStaysBelowThousand(log: Log, actions: seq<Action>)
    requires AllAnswersClean(actions)
    ensures |Exec(log, actions).batch| < 1000
  {
    if actions != [] {
      var n := |actions| - 1;
      BatchStaysBelowThousand(log, actions[..n]);
      assert AllAnswersClean(actions[..n]) by {
        forall k | 0 <= k < n
          ensures actions[..n][k] == actions[k]
        {
        }
      }
      StepStaysBelowThousand(log, Exec(log, actions[..n]), actions[n]);
    }
  }

  lemma StepStaysBelowThousand(log: Log, s: State, a: Action)
    requires |s.batch| < 1000 && AllAnswersClean([a])
    ensures |Next(log, s, a).batch| < 1000
  {
    assert [a][0] == a;
  }

  /** Committed offsets never move back. */
  lemma {:induction false} CommittedIsMonotone(log: Log, actions: seq<Action>, k: nat, p: nat)
    requires k <= |actions| && p < |log|
    ensures CommittedAt(log, actions[..k], p) <= CommittedAt(log, actions, p)
  {
    if k == |actions| {
      assert actions[..k] == actions;
    } else {
      var n := |actions| - 1;
      assert actions[..n][..k] == actions[..k];
      CommittedIsMonotone(log, actions[..n], k, p);
      LastActionKeepsCommitted(log, actions, p);
    }
  }

  lemma LastActionKeepsCommitted(log: Log, actions: seq<Action>, p: nat)
    requires actions != [] && p < |log|
    ensures CommittedAt(log, actions[..|actions| - 1], p) <= CommittedAt(log, actions, p)
  {
    var n := |actions| - 1;
    ExecInv(log, actions[..n]);
    NextKeepsCommitted(log, Exec(log, actions[..n]), actions[n], p);
  }

  /** Whenever the batch is empty, every decodable message fetched, by this or an earlier process, is stored. */
  lemma EmptyBatchMeansStored(log: Log, actions: seq<Action>, m: MsgId)
    requires Exec(log, actions).batch == []
    requires Decodable(log, m) && m.offset < FetchedUpTo(log, actions, m.partition)
    ensures m in Exec(log, actions).origins
  {
    ExecNothingLost(log, actions);
  }

  /** Every stored row that is correct is also successful. */
  lemma CorrectRowsAreSuccessful(log: Log, actions: seq<Action>)
    ensures CorrectImpliesSuccessful(Exec(log, actions).rows)
  {
    ExecTruthful(log, actions);
    var s := Exec(log, actions);
    forall row | row in s.rows
      ensures row.isCorrect ==> row.isSuccessful
    {
      var i :| 0 <= i < |s.rows| && s.rows[i] == row;
      RowCarriesColumns(log, s.rows[i], s.origins[i]);
    }
  }

  // ---- Batching refines one-at-a-time processing ----

  predicate RefinesSequential(log: Log, s: State) {
    Faults(s) == 0 ==>
      && (forall p | 0 <= p < |s.resumedAt| :: s.resumedAt[p] == 0)
      && s.origins + s.pending == s.fetched
      && AllDecodable(log, s.fetched)
      && s.rows + RowsOf(s.batch) == RowsOf(ValidateAll(EventsAt(log, s.fetched)))
  }

  lemma RowsOfConcat(a: seq<ValidatedOrder>, b: seq<ValidatedOrder>)
    ensures RowsOf(a + b) == RowsOf(a) + RowsOf(b)
  {
  }

  lemma RowsRefineOneMore(rows: seq<Row>, batch: seq<ValidatedOrder>, all: seq<ValidatedOrder>, v: ValidatedOrder)
    requires rows + RowsOf(batch) == RowsOf(all)
    ensures rows + RowsOf(batch + [v]) == RowsOf(all + [v])
  {
    RowsOfConcat(all, [v]);
    RowsOfConcat(batch, [v]);
    assert rows + (RowsOf(batch) + RowsOf([v])) == (rows + RowsOf(batch)) + RowsOf([v]);
  }

  lemma ConcatAssociates(a: seq<MsgId>, b: seq<MsgId>, m: MsgId)
    ensures a + (b + [m]) == (a + b) + [m]
  {
  }

  lemma AbsorbRefines(log: Log, s: State, p: nat)
    requires BatchIsTail(log, s) && RefinesSequential(log, s) && CanFetch(log, s, p)
    ensures RefinesSequential(log, Absorb(log, s, p))
  {
    var m := MsgId(p, s.fetchPos[p]);
    if Decodable(log, m) && Faults(s) == 0 {
      var events := EventsAt(log, s.fetched);
      var e := EventAt(log, m);
      AppendEvent(log, s.fetched, m);
      ValidateOneMore(events, e);
      RowsRefineOneMore(s.rows, s.batch, ValidateAll(events), ValidatedOrder(e, Verdict(s.book, e)));
      ConcatAssociates(s.origins, s.pending, m);
    }
  }

  lemma FlushRefines(log: Log, s: State, db: DbResult, commit: CommitResult)
    requires RefinesSequential(log, s)
    ensures RefinesSequential(log, Flush(s, db, commit))
  {
    var t := Flush(s, db, commit);
    if Faults(t) == 0 && t != s {
      assert t.rows + RowsOf(t.batch) == s.rows + RowsOf(s.batch);
      assert t.origins + t.pending == s.origins + s.pending;
    }
  }

  lemma NextRefines(log: Log, s: State, a: Action)
    requires BatchIsTail(log, s) && RefinesSequential(log, s)
    ensures RefinesSequential(log, Next(log, s, a))
  {
    match a
    case Tick(db, commit) => FlushRefines(log, s, db, commit);
    case Fetch(p, db, commit) =>
      if CanFetch(log, s, p) {
        AbsorbRefines(log, s, p);
        FlushRefines(log, Absorb(log, s, p), db, commit);
      }
    case Crash(_) =>
  }

  /** In every run without crash, failed commit or lost acknowledgement, and whatever the ticks, size flushes
      and database failures: the rows followed by the batch are the decodable messages in fetch order, each
      flagged as validating them one by one from an empty book flags it ... */
  lemma {:induction false} BatchingRefinesOneAtATime(log: Log, actions: seq<Action>)
    ensures RefinesSequential(log, Exec(log, actions))
  {
    if actions == [] {
      InitRefines(log);
    } else {
      var n := |actions| - 1;
      BatchingRefinesOneAtATime(log, actions[..n]);
      ExecTail(log, actions[..n]);
      NextRefines(log, Exec(log, actions[..n]), actions[n]);
    }
  }

  lemma InitRefines(log: Log)
    ensures RefinesSequential(log, Init(log))
  {
    var s := Init(log);
    NoEvents(log, s.fetched);
    NothingValidated(EventsAt(log, s.fetched));
  }

  /** ... and the fetch order is the offset order of every partition with no decodable message missing. */
  lemma FaultlessFetchIsComplete(log: Log, actions: seq<Action>)
    requires Faults(Exec(log, actions)) == 0
    ensures InOffsetOrder(Exec(log, actions).fetched)
    ensures forall m: MsgId | Decodable(log, m) ::
              m in Exec(log, actions).fetched <==> m.offset < FetchedUpTo(log, actions, m.partition)
  {
    ExecFetched(log, actions);
    BatchingRefinesOneAtATime(log, actions);
  }

  // ---- What the flags say without a crash ----

  /** `row` is what one-at-a-time validation of everything in `ids` makes of `m`. */
  predicate FlaggedIn(log: Log, ids: seq<MsgId>, row: Row, m: MsgId)
    requires AllDecodable(log, ids)
  {
    exists k | 0 <= k < |ids| :: ids[k] == m && row == RowOf(ValidateAll(EventsAt(log, ids))[k])
  }

  predicate AllFlaggedIn(log: Log, s: State) {
    && AllDecodable(log, s.fetched)
    && |s.rows| == |s.origins|
    && (forall i | 0 <= i < |s.rows| :: FlaggedIn(log, s.fetched, s.rows[i], s.origins[i]))
  }

  lemma FlaggedInMore(log: Log, ids: seq<MsgId>, more: MsgId, row: Row, m: MsgId)
    requires AllDecodable(log, ids) && Decodable(log, more) && FlaggedIn(log, ids, row, m)
    ensures AllDecodable(log, ids + [more]) && FlaggedIn(log, ids + [more], row, m)
  {
    AppendEvent(log, ids, more);
    ValidateOneMore(EventsAt(log, ids), EventAt(log, more));
    var k :| 0 <= k < |ids| && ids[k] == m && row == RowOf(ValidateAll(EventsAt(log, ids))[k]);
    assert (ids + [more])[k] == m;
  }

  lemma AbsorbKeepsFlags(log: Log, s: State, p: nat)
    requires AllFlaggedIn(log, s) && CanFetch(log, s, p)
    ensures AllFlaggedIn(log, Absorb(log, s, p))
  {
    var m := MsgId(p, s.fetchPos[p]);
    if Decodable(log, m) {
      forall i | 0 <= i < |s.rows|
        ensures FlaggedIn(log, s.fetched + [m], s.rows[i], s.origins[i])
      {
        FlaggedInMore(log, s.fetched, m, s.rows[i], s.origins[i]);
      }
    }
  }

  lemma BatchFlagged(log: Log, s: State, i: nat)
    requires BatchIsTail(log, s) && i < |s.batch|
    ensures FlaggedIn(log, s.fetched, RowOf(s.batch[i]), s.pending[i])
  {
    BatchEntry(log, s, i);
  }

  lemma StoreKeepsFlags(log: Log, s: State)
    requires AllFlaggedIn(log, s) && BatchIsTail(log, s)
    ensures AllFlaggedIn(log, Store(s))
  {
    var t := Store(s);
    forall i | 0 <= i < |t.rows|
      ensures FlaggedIn(log, s.fetched, t.rows[i], t.origins[i])
    {
      if i >= |s.rows| {
        BatchFlagged(log, s, i - |s.rows|);
      }
    }
  }

  lemma FlushKeepsFlags(log: Log, s: State, db: DbResult, commit: CommitResult)
    requires AllFlaggedIn(log, s) && BatchIsTail(log, s)
    ensures AllFlaggedIn(log, Flush(s, db, commit))
  {
    StoreKeepsFlags(log, s);
  }

  /** In every run without a crash, whatever the failed commits, lost acknowledgements and database failures,
      each row ever stored carries the flag of validating everything fetched one by one from an empty book. */
  lemma {:induction false} FlagsWithoutCrash(log: Log, actions: seq<Action>)
    requires Exec(log, actions).crashes == 0
    ensures AllFlaggedIn(log, Exec(log, actions))
  {
    if actions != [] {
      var n := |actions| - 1;
      var s := Exec(log, actions[..n]);
      FlagsWithoutCrash(log, actions[..n]);
      ExecTail(log, actions[..n]);
      match actions[n]
      case Tick(db, commit) => FlushKeepsFlags(log, s, db, commit);
      case Fetch(p, db, commit) =>
        if CanFetch(log, s, p) {
          AbsorbKeepsFlags(log, s, p);
          AbsorbKeepsTail(log, s, p);
          FlushKeepsFlags(log, Absorb(log, s, p), db, commit);
        }
    }
  }

  /** So without a crash all the copies of a message are the same row. */
  lemma CopiesAgreeWithoutCrash(log: Log, actions: seq<Action>, i: nat, j: nat)
    requires Exec(log, actions).crashes == 0
    requires i < |Exec(log, actions).origins| && j < |Exec(log, actions).origins|
    requires Exec(log, actions).origins[i] == Exec(log, actions).origins[j]
    ensures i < |Exec(log, actions).rows| && j < |Exec(log, actions).rows|
    ensures Exec(log, actions).rows[i] == Exec(log, actions).rows[j]
  {
    FlagsWithoutCrash(log, actions);
    ExecFetched(log, actions);
    var s := Exec(log, actions);
    FlaggedAlike(log, s.fetched, s.rows[i], s.rows[j], s.origins[i]);
  }

  lemma FlaggedAlike(log: Log, ids: seq<MsgId>, a: Row, b: Row, m: MsgId)
    requires AllDecodable(log, ids) && InOffsetOrder(ids)
    requires FlaggedIn(log, ids, a, m) && FlaggedIn(log, ids, b, m)
    ensures a == b
  {
    var all := ValidateAll(EventsAt(log, ids));
    var j :| 0 <= j < |ids| && ids[j] == m && a == RowOf(all[j]);
    var k :| 0 <= k < |ids| && ids[k] == m && b == RowOf(all[k]);
    assert j == k;
  }
}
