/** How often one message is stored. */
module IngestCopies {
  import opened Prelude
  import opened Events
  import opened Ingest
  import opened IngestSafety

  /** What an action does to the table: nothing, a store whose offsets are then committed and its batch cleared,
      or a store after which the same messages may be stored again. */
  datatype StoreKind = NoStore | CleanStore | UncleanStore

  function KindOf(db: DbResult, commit: CommitResult): StoreKind {
    match db
    case NotStored => NoStore
    case StoredUnacknowledged => UncleanStore
    case Stored => if commit.Committed? then CleanStore else UncleanStore
  }

  /** The state an action flushes, if it flushes at all. */
  function BeforeFlush(log: Log, s: State, a: Action): State {
    if a.Fetch? && CanFetch(log, s, a.partition) then Absorb(log, s, a.partition) else s
  }

  function StoreOf(log: Log, s: State, a: Action): StoreKind {
    var t := BeforeFlush(log, s, a);
    if t.batch == [] then NoStore
    else
      match a
      case Tick(db, commit) => KindOf(db, commit)
      case Fetch(p, db, commit) =>
        if CanFetch(log, s, p) && Decodable(log, MsgId(p, s.fetchPos[p])) && |t.batch| >= BATCH_SIZE
        then KindOf(db, commit) else NoStore
      case Crash(death) => if death.AfterStoring? then UncleanStore else NoStore
  }

  predicate StoresPending(log: Log, s: State, a: Action, m: MsgId, kind: StoreKind) {
    StoreOf(log, s, a) == kind && m in BeforeFlush(log, s, a).pending
  }

  /** How many stores of one kind were made in a run while `m` was pending. */
  function StoresOf(log: Log, actions: seq<Action>, m: MsgId, kind: StoreKind): nat {
    if actions == [] then 0
    else
      var n := |actions| - 1;
      StoresOf(log, actions[..n], m, kind)
      + (if StoresPending(log, Exec(log, actions[..n]), actions[n], m, kind) then 1 else 0)
  }

  lemma {:induction false} PendingOnce(pending: seq<MsgId>, m: MsgId)
    requires InOffsetOrder(pending)
    ensures multiset(pending)[m] == if m in pending then 1 else 0
  {
    if pending != [] {
      var n := |pending| - 1;
      PendingOnce(pending[..n], m);
      assert pending == pending[..n] + [pending[n]];
      assert forall i | 0 <= i < n :: pending[i] != pending[n];
    }
  }

  /** An action appends the pending messages to the origins exactly when it stores. */
  lemma StepOrigins(log: Log, s: State, a: Action)
    requires |s.batch| == |s.pending|
    ensures Next(log, s, a).origins
            == s.origins + (if StoreOf(log, s, a).NoStore? then [] else BeforeFlush(log, s, a).pending)
  {
  }

  lemma PendingInOrder(log: Log, s: State)
    requires FetchedExact(log, s) && BatchIsTail(log, s)
    ensures InOffsetOrder(s.pending)
  {
  }

  lemma BeforeFlushFetched(log: Log, s: State, a: Action)
    requires PositionsOrdered(log, s) && FetchedExact(log, s) && BatchIsTail(log, s)
    ensures InOffsetOrder(BeforeFlush(log, s, a).pending)
    ensures forall m | m in BeforeFlush(log, s, a).pending :: Decodable(log, m)
  {
    if a.Fetch? && CanFetch(log, s, a.partition) {
      AbsorbKeepsFetched(log, s, a.partition);
      AbsorbKeepsTail(log, s, a.partition);
    }
    PendingInOrder(log, BeforeFlush(log, s, a));
  }

  lemma StepCopies(log: Log, s: State, a: Action, m: MsgId)
    requires PositionsOrdered(log, s) && FetchedExact(log, s) && BatchIsTail(log, s)
    ensures multiset(Next(log, s, a).origins)[m]
            == multiset(s.origins)[m]
               + (if StoresPending(log, s, a, m, UncleanStore) then 1 else 0)
               + (if StoresPending(log, s, a, m, CleanStore) then 1 else 0)
  {
    var pending := BeforeFlush(log, s, a).pending;
    StepOrigins(log, s, a);
    BeforeFlushFetched(log, s, a);
    PendingOnce(pending, m);
    CountConcat(s.origins, pending, m);
    assert s.origins + [] == s.origins;
  }

  lemma CountConcat(a: seq<MsgId>, b: seq<MsgId>, m: MsgId)
    ensures multiset(a + b)[m] == multiset(a)[m] + multiset(b)[m]
  {
  }

  /** The copies of a message are exactly the stores made while it was pending. */
  lemma {:induction false} CopiesAreStores(log: Log, actions: seq<Action>, m: MsgId)
    ensures multiset(Exec(log, actions).origins)[m]
            == StoresOf(log, actions, m, UncleanStore) + StoresOf(log, actions, m, CleanStore)
  {
    if actions != [] {
      var n := |actions| - 1;
      CopiesAreStores(log, actions[..n], m);
      ExecPositions(log, actions[..n]);
      ExecFetched(log, actions[..n]);
      ExecTail(log, actions[..n]);
      StepCopies(log, Exec(log, actions[..n]), actions[n], m);
    }
  }

  // ---- A clean store is the last ----

  /** Committed and no longer pending: `m` will never be read again. */
  predicate Retired(s: State, m: MsgId) {
    m !in s.pending && m.partition < |s.committed| && m.offset < s.committed[m.partition]
  }

  lemma CleanStoreRetires(log: Log, s: State, a: Action, m: MsgId)
    requires PositionsOrdered(log, s) && FetchedExact(log, s) && BatchIsTail(log, s)
    requires StoresPending(log, s, a, m, CleanStore)
    ensures Retired(Next(log, s, a), m)
  {
    BeforeFlushFetched(log, s, a);
    assert Decodable(log, m);
    CleanNextIsFlush(log, s, a);
    CleanFlushRetires(BeforeFlush(log, s, a), m);
  }

  lemma CleanNextIsFlush(log: Log, s: State, a: Action)
    requires StoreOf(log, s, a).CleanStore?
    ensures Next(log, s, a) == Flush(BeforeFlush(log, s, a), Stored, Committed)
    ensures BeforeFlush(log, s, a).batch != [] && BeforeFlush(log, s, a).committed == s.committed
  {
  }

  lemma CleanFlushRetires(t: State, m: MsgId)
    requires t.batch != [] && m in t.pending && m.partition < |t.committed|
    ensures Retired(Flush(t, Stored, Committed), m)
  {
    NextOffsetIsPastHighest(t.pending, m.partition);
  }

  lemma RetiredStays(log: Log, s: State, a: Action, m: MsgId)
    requires Inv(log, s) && Retired(s, m)
    ensures Retired(Next(log, s, a), m)
    ensures m !in BeforeFlush(log, s, a).pending
  {
    NextKeepsCommitted(log, s, a, m.partition);
    RetiredUnread(log, s, a, m);
    NextPending(log, s, a);
  }

  lemma RetiredUnread(log: Log, s: State, a: Action, m: MsgId)
    requires PositionsOrdered(log, s) && Retired(s, m)
    ensures m !in BeforeFlush(log, s, a).pending
  {
    if a.Fetch? && CanFetch(log, s, a.partition) {
      assert MsgId(a.partition, s.fetchPos[a.partition]) != m;
    }
  }

  lemma NextPending(log: Log, s: State, a: Action)
    ensures Next(log, s, a).pending == [] || Next(log, s, a).pending == BeforeFlush(log, s, a).pending
  {
  }

  lemma {:induction false} CleanStoreIsLast(log: Log, actions: seq<Action>, m: MsgId)
    ensures StoresOf(log, actions, m, CleanStore) <= 1
    ensures StoresOf(log, actions, m, CleanStore) == 1 ==> Retired(Exec(log, actions), m)
  {
    if actions != [] {
      var n := |actions| - 1;
      var s := Exec(log, actions[..n]);
      CleanStoreIsLast(log, actions[..n], m);
      ExecInv(log, actions[..n]);
      if Retired(s, m) {
        RetiredStays(log, s, actions[n], m);
      } else if StoresPending(log, s, actions[n], m, CleanStore) {
        CleanStoreRetires(log, s, actions[n], m);
      }
    }
  }

  // ---- The bound ----

  lemma StepCountsUnclean(log: Log, s: State, a: Action)
    ensures UncleanStores(Next(log, s, a))
            == UncleanStores(s) + (if StoreOf(log, s, a).UncleanStore? then 1 else 0)
  {
  }

  lemma {:induction false} UncleanStoresCounted(log: Log, actions: seq<Action>, m: MsgId)
    ensures StoresOf(log, actions, m, UncleanStore) <= UncleanStores(Exec(log, actions))
  {
    if actions != [] {
      var n := |actions| - 1;
      UncleanStoresCounted(log, actions[..n], m);
      StepCountsUnclean(log, Exec(log, actions[..n]), actions[n]);
    }
  }

  /** In every run a message is stored at most once plus the failed commits, the lost acknowledgements and the
      crashes that came between a store and the end of its commit. Other crashes never add a copy. */
  lemma DuplicateBound(log: Log, actions: seq<Action>, m: MsgId)
    ensures multiset(Exec(log, actions).origins)[m] <= 1 + UncleanStores(Exec(log, actions))
  {
    CopiesAreStores(log, actions, m);
    CleanStoreIsLast(log, actions, m);
    UncleanStoresCounted(log, actions, m);
  }

  // ---- The bound is reached, by any mix of faults ----

  datatype Fault = FailedCommit | LostAck | TornFlush

  function CountOf(faults: seq<Fault>, f: Fault): nat {
    multiset(faults)[f]
  }

  /** A fault that strikes the flush of one pending message, and what puts the message back in the batch. */
  function Strike(f: Fault): seq<Action> {
    match f
    case FailedCommit => [Tick(Stored, CommitFailed({}))]
    case LostAck => [Tick(StoredUnacknowledged, Committed)]
    case TornFlush => [Crash(AfterStoring({})), Fetch(0, NotStored, Committed)]
  }

  const ONLY := MsgId(0, 0)

  /** One message, fetched and not committed. */
  predicate HoldsOnly(s: State) {
    s.fetchPos == [1] && s.committed == [0] && s.pending == [ONLY] && |s.batch| == 1
  }

  /** The state after a fault that costs one more copy. */
  predicate StruckBy(s: State, t: State, f: Fault) {
    && HoldsOnly(t)
    && t.origins == s.origins + [ONLY]
    && t.commitFailures == s.commitFailures + (if f.FailedCommit? then 1 else 0)
    && t.lostAcks == s.lostAcks + (if f.LostAck? then 1 else 0)
    && t.tornFlushes == s.tornFlushes + (if f.TornFlush? then 1 else 0)
  }

  lemma NothingAdvanced(s: State)
    requires HoldsOnly(s)
    ensures Advance(s.committed, s.pending, CommitFailed({})) == [0]
  {
  }

  lemma RefetchOnly(e: OrderEvent, s: State)
    requires s.fetchPos == [0] && s.committed == [0] && s.pending == [] && s.batch == []
    ensures var t := Next([[Some(e)]], s, Fetch(0, NotStored, Committed));
            HoldsOnly(t) && t == s.(fetchPos := t.fetchPos, fetched := t.fetched, batch := t.batch,
                                    pending := t.pending, book := t.book)
  {
    assert CanFetch([[Some(e)]], s, 0);
  }

  lemma TearAndRefetch(e: OrderEvent, s: State)
    requires HoldsOnly(s)
    ensures var log := [[Some(e)]];
            StruckBy(s, Next(log, Next(log, s, Crash(AfterStoring({}))), Fetch(0, NotStored, Committed)), TornFlush)
  {
    NothingAdvanced(s);
    RefetchOnly(e, Next([[Some(e)]], s, Crash(AfterStoring({}))));
  }

  lemma FailCommit(log: Log, s: State)
    requires HoldsOnly(s)
    ensures StruckBy(s, Next(log, s, Tick(Stored, CommitFailed({}))), FailedCommit)
  {
    NothingAdvanced(s);
  }

  lemma LoseAck(log: Log, s: State)
    requires HoldsOnly(s)
    ensures StruckBy(s, Next(log, s, Tick(StoredUnacknowledged, Committed)), LostAck)
  {
  }

  lemma StrikeAddsCopy(e: OrderEvent, actions: seq<Action>, f: Fault)
    requires HoldsOnly(Exec([[Some(e)]], actions))
    ensures StruckBy(Exec([[Some(e)]], actions), Exec([[Some(e)]], actions + Strike(f)), f)
  {
    var log := [[Some(e)]];
    var s := Exec(log, actions);
    ExecSnoc(log, actions, Strike(f)[0]);
    match f
    case FailedCommit =>
      FailCommit(log, s);
    case LostAck =>
      LoseAck(log, s);
    case TornFlush =>
      var struck := actions + [Crash(AfterStoring({}))];
      ExecSnoc(log, struck, Fetch(0, NotStored, Committed));
      TearAndRefetch(e, s);
      assert actions + Strike(f) == struck + [Fetch(0, NotStored, Committed)];
  }

  predicate FaultsAre(s: State, faults: seq<Fault>) {
    && s.commitFailures == CountOf(faults, FailedCommit)
    && s.lostAcks == CountOf(faults, LostAck)
    && s.tornFlushes == CountOf(faults, TornFlush)
  }

  lemma FaultsAddUp(s: State, faults: seq<Fault>)
    requires FaultsAre(s, faults)
    ensures UncleanStores(s) == |faults|
  {
    CountsAddUp(faults);
  }

  lemma {:induction false} CountsAddUp(faults: seq<Fault>)
    ensures CountOf(faults, FailedCommit) + CountOf(faults, LostAck) + CountOf(faults, TornFlush) == |faults|
  {
    if faults != [] {
      var n := |faults| - 1;
      CountsAddUp(faults[..n]);
      LastFaultCounts(faults);
      assert faults[n].FailedCommit? || faults[n].LostAck? || faults[n].TornFlush?;
    }
  }

  lemma {:induction false} StrikeAll(e: OrderEvent, faults: seq<Fault>) returns (actions: seq<Action>)
    ensures var s := Exec([[Some(e)]], actions);
            HoldsOnly(s) && FaultsAre(s, faults) && multiset(s.origins)[ONLY] == |faults|
  {
    var log := [[Some(e)]];
    if faults == [] {
      RefetchOnly(e, Init(log));
      ExecSnoc(log, [], Fetch(0, NotStored, Committed));
      actions := [] + [Fetch(0, NotStored, Committed)];
    } else {
      var n := |faults| - 1;
      var before := StrikeAll(e, faults[..n]);
      StrikeAddsCopy(e, before, faults[n]);
      actions := before + Strike(faults[n]);
      CountConcat(Exec(log, before).origins, [ONLY], ONLY);
      LastFaultCounts(faults);
    }
  }

  lemma LastFaultCounts(faults: seq<Fault>)
    requires faults != []
    ensures var n := |faults| - 1;
            forall f :: CountOf(faults, f) == CountOf(faults[..n], f) + (if faults[n] == f then 1 else 0)
  {
    var n := |faults| - 1;
    assert faults == faults[..n] + [faults[n]];
  }

  /** For every sequence of faults of the three kinds there is a run with exactly those faults in which one
      message is stored once more than there are faults. */
  lemma DuplicateBoundIsTight(e: OrderEvent, faults: seq<Fault>) returns (actions: seq<Action>)
    ensures var s := Exec([[Some(e)]], actions);
            && FaultsAre(s, faults)
            && UncleanStores(s) == |faults|
            && multiset(s.origins)[ONLY] == 1 + |faults|
  {
    var log := [[Some(e)]];
    var before := StrikeAll(e, faults);
    var s := Exec(log, before);
    actions := before + [Tick(Stored, Committed)];
    ExecSnoc(log, before, Tick(Stored, Committed));
    assert Exec(log, actions).origins == s.origins + [ONLY];
    FaultsAddUp(Exec(log, actions), faults);
  }
}
