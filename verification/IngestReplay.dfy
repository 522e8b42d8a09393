/** What a service can be driven to: any reading of the log, and from any state to the end of it. */
module IngestReplay {
  import opened Ingest
  import opened IngestSafety

  // ---- Reading without storing ----

  /** `t` is `s` after reading `ids` more, with nothing stored or committed in between. */
  predicate ReadsOn(s: State, t: State, ids: seq<MsgId>) {
    && t.fetched == s.fetched + ids && t.pending == s.pending + ids
    && t.committed == s.committed && t.resumedAt == s.resumedAt
    && t.rows == s.rows && t.origins == s.origins
    && SameFaults(s, t)
  }

  predicate SameFaults(s: State, t: State) {
    && t.commitFailures == s.commitFailures && t.lostAcks == s.lostAcks
    && t.crashes == s.crashes && t.tornFlushes == s.tornFlushes
  }

  lemma ReadsOnTwice(s: State, t: State, u: State, ids: seq<MsgId>, more: seq<MsgId>)
    requires ReadsOn(s, t, ids) && ReadsOn(t, u, more)
    ensures ReadsOn(s, u, ids + more)
  {
  }

  lemma ReadsNothing(s: State)
    ensures ReadsOn(s, s, [])
  {
  }

  /** A fetch whose store, if the batch is full, fails. */
  function ReadStep(p: nat): Action {
    Fetch(p, NotStored, Committed)
  }

  lemma ReadStepAbsorbs(log: Log, s: State, p: nat)
    requires CanFetch(log, s, p)
    ensures Next(log, s, ReadStep(p)) == Absorb(log, s, p)
  {
  }

  lemma ReadOne(log: Log, actions: seq<Action>, p: nat)
    requires CanFetch(log, Exec(log, actions), p)
    ensures var s, t := Exec(log, actions), Exec(log, actions + [ReadStep(p)]);
            var m := MsgId(p, s.fetchPos[p]);
            && t.fetchPos == s.fetchPos[p := s.fetchPos[p] + 1]
            && ReadsOn(s, t, if Decodable(log, m) then [m] else [])
  {
    ExecSnoc(log, actions, ReadStep(p));
    ReadStepAbsorbs(log, Exec(log, actions), p);
  }

  ghost predicate OnlyGarbage(log: Log, p: nat, lo: nat, hi: nat) {
    forall offset: nat | lo <= offset < hi :: !Decodable(log, MsgId(p, offset))
  }

  /** One partition can be read up to any offset it has. */
  lemma {:induction false} ReadTo(log: Log, actions: seq<Action>, p: nat, k: nat)
    returns (longer: seq<Action>, ids: seq<MsgId>)
    requires p < |log| && FetchedUpTo(log, actions, p) <= k <= |log[p]|
    ensures actions <= longer
    ensures ReadsOn(Exec(log, actions), Exec(log, longer), ids)
    ensures |Exec(log, actions).fetchPos| == |log|
    ensures Exec(log, longer).fetchPos == Exec(log, actions).fetchPos[p := k]
    ensures OnlyGarbage(log, p, FetchedUpTo(log, actions, p), k) ==> ids == []
    decreases k - FetchedUpTo(log, actions, p)
  {
    ExecPositions(log, actions);
    var s := Exec(log, actions);
    if s.fetchPos[p] == k {
      longer, ids := actions, [];
      ReadsNothing(s);
    } else {
      ReadOne(log, actions, p);
      var m := MsgId(p, s.fetchPos[p]);
      var first := if Decodable(log, m) then [m] else [];
      var next := actions + [ReadStep(p)];
      var rest;
      longer, rest := ReadTo(log, next, p, k);
      ids := first + rest;
      ReadsOnTwice(s, Exec(log, next), Exec(log, longer), first, rest);
    }
  }

  /** Offsets the log has, none below where the process stands. */
  predicate CanReadTo(log: Log, start: seq<nat>, bound: seq<nat>) {
    |start| == |bound| == |log| && forall p | 0 <= p < |log| :: start[p] <= bound[p] <= |log[p]|
  }

  /** The first `n` partitions at their bounds, the others still at the start. */
  function FirstAt(start: seq<nat>, bound: seq<nat>, n: nat): (at: seq<nat>)
    requires |start| == |bound|
  {
    seq(|start|, p requires 0 <= p < |start| => if p < n then bound[p] else start[p])
  }

  lemma FirstAtNext(start: seq<nat>, bound: seq<nat>, n: nat)
    requires |start| == |bound| && 0 < n <= |start|
    ensures FirstAt(start, bound, n) == FirstAt(start, bound, n - 1)[n - 1 := bound[n - 1]]
  {
  }

  lemma FirstAtEnds(start: seq<nat>, bound: seq<nat>)
    requires |start| == |bound|
    ensures FirstAt(start, bound, 0) == start && FirstAt(start, bound, |start|) == bound
  {
  }

  /** All partitions can be read up to any offsets they have. */
  lemma ReadBelow(log: Log, actions: seq<Action>, bound: seq<nat>) returns (longer: seq<Action>, ids: seq<MsgId>)
    requires CanReadTo(log, Exec(log, actions).fetchPos, bound)
    ensures actions <= longer
    ensures ReadsOn(Exec(log, actions), Exec(log, longer), ids)
    ensures Exec(log, longer).fetchPos == bound
  {
    longer, ids := ReadFirst(log, actions, bound, |log|);
    FirstAtEnds(Exec(log, actions).fetchPos, bound);
  }

  lemma {:induction false} ReadFirst(log: Log, actions: seq<Action>, bound: seq<nat>, n: nat)
    returns (longer: seq<Action>, ids: seq<MsgId>)
    requires CanReadTo(log, Exec(log, actions).fetchPos, bound) && n <= |log|
    ensures actions <= longer
    ensures ReadsOn(Exec(log, actions), Exec(log, longer), ids)
    ensures Exec(log, longer).fetchPos == FirstAt(Exec(log, actions).fetchPos, bound, n)
  {
    var start := Exec(log, actions).fetchPos;
    if n == 0 {
      longer, ids := actions, [];
      ReadsNothing(Exec(log, actions));
      FirstAtEnds(start, bound);
    } else {
      var some, most := ReadFirst(log, actions, bound, n - 1);
      var last;
      longer, last := ReadPartition(log, some, start, bound, n);
      ids := most + last;
      ReadsOnTwice(Exec(log, actions), Exec(log, some), Exec(log, longer), most, last);
    }
  }

  lemma ReadPartition(log: Log, actions: seq<Action>, start: seq<nat>, bound: seq<nat>, n: nat)
    returns (longer: seq<Action>, ids: seq<MsgId>)
    requires CanReadTo(log, start, bound) && 0 < n <= |log|
    requires Exec(log, actions).fetchPos == FirstAt(start, bound, n - 1)
    ensures actions <= longer
    ensures ReadsOn(Exec(log, actions), Exec(log, longer), ids)
    ensures Exec(log, longer).fetchPos == FirstAt(start, bound, n)
  {
    longer, ids := ReadTo(log, actions, n - 1, bound[n - 1]);
    FirstAtNext(start, bound, n);
  }

  /** Between what was read and the next id of a reading there is nothing that decodes. */
  lemma OnlyGarbageBefore(log: Log, ids: seq<MsgId>, from: seq<nat>, to: seq<nat>, reached: seq<nat>)
    requires ids != [] && ReadsRange(log, ids, from, to) && ReadsRange(log, ids[..|ids| - 1], from, reached)
    requires forall p | 0 <= p < |log| :: from[p] <= reached[p]
    ensures var last := ids[|ids| - 1];
            && Decodable(log, last)
            && reached[last.partition] <= last.offset
            && OnlyGarbage(log, last.partition, reached[last.partition], last.offset)
  {
    var n := |ids| - 1;
    var last := ids[n];
    assert last in ids;
    LastIsHighest(ids, last);
    forall offset: nat | reached[last.partition] <= offset < last.offset
      ensures !Decodable(log, MsgId(last.partition, offset))
    {
      LastIsHighest(ids, MsgId(last.partition, offset));
    }
  }

  lemma RangeGrows(log: Log, ids: seq<MsgId>, from: seq<nat>, to: seq<nat>, reached: seq<nat>)
    requires ids != [] && ReadsRange(log, ids, from, to) && ReadsRange(log, ids[..|ids| - 1], from, reached)
    requires forall p | 0 <= p < |log| :: from[p] <= reached[p]
    ensures var last := ids[|ids| - 1];
            && Decodable(log, last)
            && ReadsRange(log, ids, from, reached[last.partition := last.offset + 1])
            && (forall p | 0 <= p < |log| :: from[p] <= reached[last.partition := last.offset + 1][p])
  {
    OnlyGarbageBefore(log, ids, from, to, reached);
    var n := |ids| - 1;
    var last := ids[n];
    forall m: MsgId | Decodable(log, m)
      ensures m in ids <==>
              from[m.partition] <= m.offset < reached[last.partition := last.offset + 1][m.partition]
    {
      LastIsHighest(ids, m);
      assert m == MsgId(m.partition, m.offset) && last in ids;
    }
  }

  /** Any reading that starts where the process stands can be made, in its own order. */
  lemma {:induction false} ReadIds(log: Log, actions: seq<Action>, ids: seq<MsgId>, to: seq<nat>)
    returns (longer: seq<Action>)
    requires ReadsRange(log, ids, Exec(log, actions).fetchPos, to)
    ensures actions <= longer
    ensures ReadsOn(Exec(log, actions), Exec(log, longer), ids)
    ensures ReadsRange(log, ids, Exec(log, actions).fetchPos, Exec(log, longer).fetchPos)
    ensures forall p | 0 <= p < |log| :: Exec(log, actions).fetchPos[p] <= Exec(log, longer).fetchPos[p]
    decreases |ids|
  {
    var s := Exec(log, actions);
    if ids == [] {
      longer := actions;
      ReadsNothing(s);
    } else {
      var front, last := ids[..|ids| - 1], ids[|ids| - 1];
      var upTo := DropLastRead(log, ids, s.fetchPos, to);
      var most := ReadIds(log, actions, front, upTo);
      OnlyGarbageBefore(log, ids, s.fetchPos, to, Exec(log, most).fetchPos);
      RangeGrows(log, ids, s.fetchPos, to, Exec(log, most).fetchPos);
      longer := ReadLastId(log, s, most, front, last);
      assert ids == front + [last];
    }
  }

  lemma ReadLastId(log: Log, s: State, most: seq<Action>, front: seq<MsgId>, last: MsgId)
    returns (longer: seq<Action>)
    requires ReadsOn(s, Exec(log, most), front)
    requires Decodable(log, last) && FetchedUpTo(log, most, last.partition) <= last.offset
    requires OnlyGarbage(log, last.partition, FetchedUpTo(log, most, last.partition), last.offset)
    ensures most <= longer
    ensures ReadsOn(s, Exec(log, longer), front + [last])
    ensures |Exec(log, most).fetchPos| == |log|
    ensures Exec(log, longer).fetchPos == Exec(log, most).fetchPos[last.partition := last.offset + 1]
  {
    longer := ReadNext(log, most, last);
    ReadsOnTwice(s, Exec(log, most), Exec(log, longer), front, [last]);
  }

  /** Skip what does not decode and read `m`. */
  lemma ReadNext(log: Log, actions: seq<Action>, m: MsgId) returns (longer: seq<Action>)
    requires Decodable(log, m) && FetchedUpTo(log, actions, m.partition) <= m.offset
    requires OnlyGarbage(log, m.partition, FetchedUpTo(log, actions, m.partition), m.offset)
    ensures actions <= longer
    ensures ReadsOn(Exec(log, actions), Exec(log, longer), [m])
    ensures |Exec(log, actions).fetchPos| == |log|
    ensures Exec(log, longer).fetchPos == Exec(log, actions).fetchPos[m.partition := m.offset + 1]
  {
    var before, skipped := ReadTo(log, actions, m.partition, m.offset);
    ReadOne(log, before, m.partition);
    longer := before + [ReadStep(m.partition)];
    ReadsOnTwice(Exec(log, actions), Exec(log, before), Exec(log, longer), [], [m]);
    assert [] + [m] == [m];
  }

  // ---- Progress ----

  /** Everything in the log has been fetched and nothing is waiting in the batch. */
  ghost predicate CaughtUp(log: Log, actions: seq<Action>) {
    && Exec(log, actions).batch == []
    && (forall p: nat | p < |log| :: FetchedUpTo(log, actions, p) == |log[p]|)
  }

  lemma CleanFlushEmpties(log: Log, s: State)
    ensures var t := Next(log, s, Tick(Stored, Committed));
            t.batch == [] && t.fetchPos == s.fetchPos && SameFaults(s, t)
  {
  }

  /** Whatever faults came before, a service left undisturbed can go on to store everything in the log. */
  lemma CatchUp(log: Log, actions: seq<Action>) returns (longer: seq<Action>)
    ensures actions <= longer && CaughtUp(log, longer)
    ensures SameFaults(Exec(log, actions), Exec(log, longer))
  {
    ExecPositions(log, actions);
    var ends := seq(|log|, p requires 0 <= p < |log| => |log[p]|);
    var read, _ := ReadBelow(log, actions, ends);
    longer := read + [Tick(Stored, Committed)];
    ExecSnoc(log, read, Tick(Stored, Committed));
    CleanFlushEmpties(log, Exec(log, read));
  }

  // ---- Storing a reading ----

  /** The row one-at-a-time validation of `ids` makes of the last of them. */
  function LastRow(log: Log, ids: seq<MsgId>): Row
    requires ids != [] && AllDecodable(log, ids)
  {
    RowOf(ValidateAll(EventsAt(log, ids))[|ids| - 1])
  }

  predicate Stores(how: Action) {
    how == Tick(Stored, Committed) || how == Crash(AfterStoring({}))
  }

  lemma AdvancesNothing(committed: seq<nat>, pending: seq<MsgId>)
    ensures Advance(committed, pending, CommitFailed({})) == committed
  {
  }

  lemma StoreBatch(log: Log, s: State, how: Action)
    requires Stores(how) && s.batch != []
    ensures var t := Next(log, s, how);
            && t.rows == s.rows + RowsOf(s.batch) && t.origins == s.origins + s.pending
            && (how.Tick? ==> t.crashes == s.crashes)
            && (how.Crash? ==> t.crashes == s.crashes + 1 && t.batch == [] && t.fetched == []
                               && t.fetchPos == t.resumedAt == t.committed == s.committed)
  {
    AdvancesNothing(s.committed, s.pending);
  }

  lemma LastOfBatch(log: Log, s: State)
    requires BatchIsTail(log, s) && s.batch != []
    ensures s.fetched != [] && RowOf(s.batch[|s.batch| - 1]) == LastRow(log, s.fetched)
  {
  }

  lemma NothingPendingWithBatch(log: Log, actions: seq<Action>)
    requires Exec(log, actions).batch == []
    ensures Exec(log, actions).pending == []
  {
    ExecTail(log, actions);
  }

  /** Read `ids` and store them. The row stored last is that of the last of all the process has read. */
  lemma StoreReading(log: Log, actions: seq<Action>, ids: seq<MsgId>, to: seq<nat>, how: Action)
    returns (longer: seq<Action>)
    requires Exec(log, actions).batch == [] && ids != [] && Stores(how)
    requires ReadsRange(log, ids, Exec(log, actions).fetchPos, to)
    ensures actions <= longer
    ensures AllDecodable(log, Exec(log, actions).fetched + ids)
    ensures StoredReading(log, Exec(log, actions), Exec(log, longer), ids)
    ensures exists upTo :: ReadsRange(log, Exec(log, actions).fetched + ids, Exec(log, actions).resumedAt, upTo)
    ensures how.Tick? ==> Exec(log, longer).crashes == Exec(log, actions).crashes
    ensures how.Crash? ==> RestartedAt(Exec(log, longer), Exec(log, actions).committed)
                           && Exec(log, longer).crashes == Exec(log, actions).crashes + 1
  {
    var read := ReadIds(log, actions, ids, to);
    var s, u := Exec(log, actions), Exec(log, read);
    NothingPendingWithBatch(log, actions);
    ExecFetched(log, read);
    ExecTail(log, read);
    longer := read + [how];
    ExecSnoc(log, read, how);
    BatchIsStored(log, s, u, ids, how);
    assert ReadsRange(log, s.fetched + ids, s.resumedAt, u.fetchPos);
  }

  lemma BatchIsStored(log: Log, s: State, u: State, ids: seq<MsgId>, how: Action)
    requires s.pending == [] && ReadsOn(s, u, ids) && ids != [] && BatchIsTail(log, u) && Stores(how)
    ensures AllDecodable(log, s.fetched + ids)
    ensures StoredReading(log, s, Next(log, u, how), ids)
    ensures how.Tick? ==> Next(log, u, how).crashes == s.crashes
    ensures how.Crash? ==> RestartedAt(Next(log, u, how), s.committed) && Next(log, u, how).crashes == s.crashes + 1
  {
    assert u.pending == ids;
    StoreBatch(log, u, how);
    LastOfBatch(log, u);
  }

  predicate RestartedAt(t: State, committed: seq<nat>) {
    t.batch == [] && t.fetched == [] && t.fetchPos == t.resumedAt == t.committed == committed
  }

  predicate StoredReading(log: Log, s: State, t: State, ids: seq<MsgId>)
    requires ids != [] && AllDecodable(log, s.fetched + ids)
  {
    && s.rows <= t.rows && t.origins == s.origins + ids
    && |t.rows| == |s.rows| + |ids|
    && t.rows[|t.rows| - 1] == LastRow(log, s.fetched + ids)
  }
}
