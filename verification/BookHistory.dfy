/** What the maps contain after a whole history of events, and when the book can cross. */
module BookHistory {
  import opened Prelude
  import opened Events
  import opened BookModel

  // ---- Histories of writes ----

  function Replay(fs: seq<Effect>): Book {
    if fs == [] then EMPTY_BOOK
    else ApplyEffect(Replay(fs[..|fs| - 1]), fs[|fs| - 1])
  }

  function RestCount(fs: seq<Effect>): nat {
    if fs == [] then 0
    else RestCount(fs[..|fs| - 1]) + (if fs[|fs| - 1].Rest? then 1 else 0)
  }

  predicate RestsAt(fs: seq<Effect>, k: int, side: Side, id: string) {
    0 <= k < |fs| && fs[k].Rest? && fs[k].side == side && fs[k].id == id
  }

  predicate ClearsAt(fs: seq<Effect>, k: int, id: string) {
    0 <= k < |fs| && fs[k].Clear? && fs[k].id == id
  }

  predicate NoClearAfter(fs: seq<Effect>, k: int, id: string) {
    forall j | k < j < |fs| :: !ClearsAt(fs, j, id)
  }

  predicate NoRestAfter(fs: seq<Effect>, k: int, side: Side, id: string) {
    forall j | k < j < |fs| :: !RestsAt(fs, j, side, id)
  }

  lemma {:induction false} SequenceCountsRests(fs: seq<Effect>)
    ensures Replay(fs).sequence == RestCount(fs)
  {
    if fs != [] {
      SequenceCountsRests(fs[..|fs| - 1]);
    }
  }

  /** An id rests on a side exactly when some write put it there and no later write cleared it. */
  lemma {:induction false} RestingIffWritten(fs: seq<Effect>, side: Side, id: string)
    ensures id in Own(Replay(fs), side) <==>
            exists k :: RestsAt(fs, k, side, id) && NoClearAfter(fs, k, id)
  {
    if fs != [] {
      var n := |fs| - 1;
      var before := fs[..n];
      RestingIffWritten(before, side, id);
      if k :| RestsAt(before, k, side, id) && NoClearAfter(before, k, id) && !ClearsAt(fs, n, id) {
        assert RestsAt(fs, k, side, id);
        assert NoClearAfter(fs, k, id) by {
          assert forall j | k < j < n :: ClearsAt(fs, j, id) ==> ClearsAt(before, j, id);
        }
      }
      if k :| RestsAt(fs, k, side, id) && NoClearAfter(fs, k, id) {
        if k < n {
          assert RestsAt(before, k, side, id);
          assert NoClearAfter(before, k, id) by {
            assert forall j | k < j < n :: ClearsAt(before, j, id) ==> ClearsAt(fs, j, id);
          }
          assert !ClearsAt(fs, n, id);
        }
      }
      if RestsAt(fs, n, side, id) {
        assert NoClearAfter(fs, n, id);
      }
    }
  }

  /** The entry found is that of the last such write, numbered by the writes up to it. */
  lemma {:induction false} EntryIsLastWrite(fs: seq<Effect>, k: int, side: Side, id: string)
    requires RestsAt(fs, k, side, id) && NoClearAfter(fs, k, id) && NoRestAfter(fs, k, side, id)
    ensures id in Own(Replay(fs), side)
    ensures Own(Replay(fs), side)[id] == LimitEntry(id, fs[k].price, fs[k].qty, RestCount(fs[..k + 1]))
  {
    var n := |fs| - 1;
    if k == n {
      assert fs[..k + 1] == fs;
      SequenceCountsRests(fs[..n]);
    } else {
      var before := fs[..n];
      assert before[..k + 1] == fs[..k + 1];
      assert forall j | k < j < n :: ClearsAt(before, j, id) ==> ClearsAt(fs, j, id);
      assert forall j | k < j < n :: RestsAt(before, j, side, id) ==> RestsAt(fs, j, side, id);
      EntryIsLastWrite(before, k, side, id);
      assert !ClearsAt(fs, n, id) && !RestsAt(fs, n, side, id);
    }
  }

  // ---- Histories of events ----

  predicate AcceptedAt(events: seq<OrderEvent>, k: int) {
    0 <= k < |events| && Verdict(BookAfter(events[..k]), events[k])
  }

  /** Event `k` was accepted and left part of a limit order resting on `side`. */
  predicate RestedAt(events: seq<OrderEvent>, k: int, side: Side, id: string) {
    && AcceptedAt(events, k)
    && events[k].kind != "CANCEL"
    && events[k].orderID == id
    && var r := events[k].body.value;
       && r.kind == "LIMIT" && r.filledQty < r.orderedQty && r.status != "REJECTED"
       && r.side == (if side == Buy then "BUY" else "SELL")
  }

  /** Event `k` was accepted and was a CANCEL carrying this id, or filled it completely. */
  predicate RemovedAt(events: seq<OrderEvent>, k: int, id: string) {
    && AcceptedAt(events, k)
    && events[k].orderID == id
    && (events[k].kind == "CANCEL" || events[k].body.value.filledQty == events[k].body.value.orderedQty)
  }

  function RestedCount(events: seq<OrderEvent>): nat {
    if events == [] then 0
    else
      var n := |events| - 1;
      var rested := RestedAt(events, n, Buy, events[n].orderID) || RestedAt(events, n, Sell, events[n].orderID);
      RestedCount(events[..n]) + (if rested then 1 else 0)
  }

  function EffectsOf(events: seq<OrderEvent>): (fs: seq<Effect>)
    ensures |fs| == |events|
  {
    if events == [] then []
    else
      var n := |events| - 1;
      EffectsOf(events[..n]) + [EffectOf(BookAfter(events[..n]), events[n])]
  }

  lemma {:induction false} EffectsOfPrefix(events: seq<OrderEvent>, k: nat)
    requires k <= |events|
    ensures EffectsOf(events)[..k] == EffectsOf(events[..k])
    ensures k < |events| ==> EffectsOf(events)[k] == EffectOf(BookAfter(events[..k]), events[k])
  {
    if k < |events| {
      var n := |events| - 1;
      if k < n {
        EffectsOfPrefix(events[..n], k);
        assert events[..n][..k] == events[..k];
      }
    } else {
      assert events[..k] == events;
    }
  }

  lemma {:induction false} BookIsReplay(events: seq<OrderEvent>)
    ensures BookAfter(events) == Replay(EffectsOf(events))
  {
    if events != [] {
      var n := |events| - 1;
      BookIsReplay(events[..n]);
      assert EffectsOf(events)[..n] == EffectsOf(events[..n]);
    }
  }

  lemma RestOfEvent(b: Book, e: OrderEvent)
    ensures EffectOf(b, e).Rest? <==> Verdict(b, e) && e.kind != "CANCEL" && LeavesRemainder(e.body.value)
    ensures EffectOf(b, e).Rest? ==>
              var r := e.body.value;
              EffectOf(b, e) == Rest(SideOf(r), e.orderID, r.price, r.orderedQty - r.filledQty)
  {
  }

  lemma ClearOfEvent(b: Book, e: OrderEvent)
    ensures EffectOf(b, e).Clear? <==>
              && Verdict(b, e)
              && (e.kind == "CANCEL" || e.body.value.filledQty == e.body.value.orderedQty)
    ensures EffectOf(b, e).Clear? ==> EffectOf(b, e) == Clear(e.orderID)
  {
  }

  lemma WriteOfEvent(events: seq<OrderEvent>, k: nat, side: Side, id: string)
    requires k < |events|
    ensures RestsAt(EffectsOf(events), k, side, id) <==> RestedAt(events, k, side, id)
    ensures ClearsAt(EffectsOf(events), k, id) <==> RemovedAt(events, k, id)
    ensures RestedAt(events, k, side, id) ==>
              var r := events[k].body.value;
              EffectsOf(events)[k] == Rest(side, id, r.price, r.orderedQty - r.filledQty)
  {
    EffectsOfPrefix(events, k);
    RestOfEvent(BookAfter(events[..k]), events[k]);
    ClearOfEvent(BookAfter(events[..k]), events[k]);
  }

  lemma WritesOfEvents(events: seq<OrderEvent>, side: Side, id: string)
    ensures forall k :: RestsAt(EffectsOf(events), k, side, id) <==> RestedAt(events, k, side, id)
    ensures forall k :: ClearsAt(EffectsOf(events), k, id) <==> RemovedAt(events, k, id)
  {
    forall k: nat | k < |events|
      ensures RestsAt(EffectsOf(events), k, side, id) <==> RestedAt(events, k, side, id)
      ensures ClearsAt(EffectsOf(events), k, id) <==> RemovedAt(events, k, id)
    {
      WriteOfEvent(events, k, side, id);
    }
  }

  lemma {:induction false} RestCountOfEvents(events: seq<OrderEvent>)
    ensures RestCount(EffectsOf(events)) == RestedCount(events)
  {
    if events != [] {
      var n := |events| - 1;
      RestCountOfEvents(events[..n]);
      var fs := EffectsOf(events);
      assert fs[..n] == EffectsOf(events[..n]);
      WriteOfEvent(events, n, Buy, events[n].orderID);
      WriteOfEvent(events, n, Sell, events[n].orderID);
      EffectsOfPrefix(events, n);
      assert fs[n].Rest? ==> fs[n].id == events[n].orderID;
    }
  }

  /** An id is in a map exactly when some accepted event rested it there and no later accepted event
      with that id was a CANCEL or a full fill. */
  lemma MapsAgreeWithHistory(events: seq<OrderEvent>, side: Side, id: string)
    ensures id in Own(BookAfter(events), side) <==>
            exists k :: RestedAt(events, k, side, id) && forall j | k < j < |events| :: !RemovedAt(events, j, id)
  {
    var fs := EffectsOf(events);
    BookIsReplay(events);
    RestingIffWritten(fs, side, id);
    WritesOfEvents(events, side, id);
    if k :| RestsAt(fs, k, side, id) && NoClearAfter(fs, k, id) {
      assert RestedAt(events, k, side, id);
    }
    if k :| RestedAt(events, k, side, id) && forall j | k < j < |events| :: !RemovedAt(events, j, id) {
      assert RestsAt(fs, k, side, id) && NoClearAfter(fs, k, id);
    }
  }

  /** One id rests on both sides at once exactly when it was rested on each by accepted events that no later
      accepted CANCEL or full fill of it undid: resting on one side never clears the other. */
  lemma BothSidesIff(events: seq<OrderEvent>, id: string)
    ensures id in BookAfter(events).bids && id in BookAfter(events).asks <==>
            exists k, j ::
              && RestedAt(events, k, Buy, id) && RestedAt(events, j, Sell, id)
              && forall n | k < n < |events| || j < n < |events| :: !RemovedAt(events, n, id)
  {
    MapsAgreeWithHistory(events, Buy, id);
    MapsAgreeWithHistory(events, Sell, id);
    if k, j :| RestedAt(events, k, Buy, id) && RestedAt(events, j, Sell, id)
               && forall n | k < n < |events| || j < n < |events| :: !RemovedAt(events, n, id) {
      assert RestedAt(events, k, Buy, id) && forall n | k < n < |events| :: !RemovedAt(events, n, id);
      assert RestedAt(events, j, Sell, id) && forall n | j < n < |events| :: !RemovedAt(events, n, id);
    }
  }

  /** The entry stored is the remainder of the last resting event, numbered by the resting events up to it. */
  lemma EntryAgreesWithHistory(events: seq<OrderEvent>, k: nat, side: Side, id: string)
    requires RestedAt(events, k, side, id)
    requires forall j | k < j < |events| :: !RemovedAt(events, j, id) && !RestedAt(events, j, side, id)
    ensures id in Own(BookAfter(events), side)
    ensures var r := events[k].body.value;
            Own(BookAfter(events), side)[id]
            == LimitEntry(id, r.price, r.orderedQty - r.filledQty, RestedCount(events[..k + 1]))
  {
    var fs := EffectsOf(events);
    BookIsReplay(events);
    WritesOfEvents(events, side, id);
    WriteOfEvent(events, k, side, id);
    EntryIsLastWrite(fs, k, side, id);
    EffectsOfPrefix(events, k + 1);
    RestCountOfEvents(events[..k + 1]);
  }

  /** An accepted CANCEL leaves the book as it was exactly when its own id, not its target's, is not resting. */
  lemma CancelChangesOnlyItsOwnId(b: Book, e: OrderEvent)
    requires e.kind == "CANCEL" && Verdict(b, e)
    ensures After(b, e) == b <==> e.orderID !in b.bids && e.orderID !in b.asks
    ensures After(b, e).bids == b.bids - {e.orderID} && After(b, e).asks == b.asks - {e.orderID}
    ensures After(b, e).sequence == b.sequence
  {
    if e.orderID !in b.bids && e.orderID !in b.asks {
      assert b.bids - {e.orderID} == b.bids;
      assert b.asks - {e.orderID} == b.asks;
    }
  }

  /** An accepted order with nothing filled takes a resting order of the same id off the book exactly when it
      also ordered nothing: 0 == 0 counts as a complete fill. */
  lemma UnfilledRemovesIffNothingOrdered(b: Book, e: OrderEvent, side: Side)
    requires Verdict(b, e) && e.kind != "CANCEL" && e.body.value.filledQty == 0
    requires e.orderID in Own(b, side)
    ensures e.orderID !in Own(After(b, e), side) <==> e.body.value.orderedQty == 0
    ensures e.body.value.orderedQty == 0 ==>
              After(b, e) == b.(bids := b.bids - {e.orderID}, asks := b.asks - {e.orderID})
  {
    AcceptedIsScreened(b, e);
  }

  lemma AcceptedIsScreened(b: Book, e: OrderEvent)
    requires Verdict(b, e) && e.kind != "CANCEL"
    ensures Screen(e) == OrderChecked(e.body.value) && e.body.value.orderID == e.orderID
    ensures 0 <= e.body.value.filledQty <= e.body.value.orderedQty
  {
  }

  /** A resting order that an accepted answer of zero ordered and zero filled takes off the book. */
  lemma EmptyAnswerRemovesOrder() returns (events: seq<OrderEvent>)
    ensures |events| == 2 && AcceptedAt(events, 0) && AcceptedAt(events, 1)
    ensures events[0].orderID == events[1].orderID
    ensures events[1].body.value.orderedQty == events[1].body.value.filledQty == 0
    ensures events[0].orderID in BookAfter(events[..1]).asks
    ensures events[0].orderID !in BookAfter(events).asks
  {
    var sell := LimitEvent("ORD-1", "SELL", 10, 0, 5.0, 0.0);
    var empty := LimitEvent("ORD-1", "SELL", 0, 0, 5.0, 0.0);
    events := [sell, empty];
    assert events[..0] == [] && events[..2] == events;
    BookAfterStep(events, 0);
    BookAfterStep(events, 1);
    UnfilledLimitRests(EMPTY_BOOK, "ORD-1", "SELL", 10, 5.0);
    var one := BookAfter(events[..1]);
    assert one == ApplyEffect(EMPTY_BOOK, Rest(Sell, "ORD-1", 5.0, 10));
    assert "ORD-1" in Own(one, Sell);
    UnfilledRemovesIffNothingOrdered(one, empty, Sell);
  }

  // ---- Crossing ----

  predicate Uncrossed(b: Book) {
    forall i, j | i in b.bids && j in b.asks :: b.bids[i].price <= b.asks[j].price
  }

  /** If this event rests an order, nothing opposite is strictly better than its limit price. */
  predicate RestsBehindOpposite(b: Book, e: OrderEvent) {
    var f := EffectOf(b, e);
    f.Rest? ==> NothingBeats(b, f.side, f.price)
  }

  lemma StepUncrossedIff(b: Book, e: OrderEvent)
    requires Uncrossed(b)
    ensures Uncrossed(After(b, e)) <==> RestsBehindOpposite(b, e)
  {
    match EffectOf(b, e)
    case Keep =>
    case Clear(id) =>
    case Rest(side, id, price, qty) =>
      RestUncrossedIff(b, side, id, price, qty);
  }

  lemma RestUncrossedIff(b: Book, side: Side, id: string, price: real, qty: int)
    requires Uncrossed(b)
    ensures Uncrossed(ApplyEffect(b, Rest(side, id, price, qty))) <==> NothingBeats(b, side, price)
  {
    var c := ApplyEffect(b, Rest(side, id, price, qty));
    assert id in Own(c, side) && Own(c, side)[id].price == price;
    assert Opposite(c, side) == Opposite(b, side);
  }

  lemma BookAfterStep(events: seq<OrderEvent>, k: nat)
    requires k < |events|
    ensures BookAfter(events[..k + 1]) == After(BookAfter(events[..k]), events[k])
  {
    assert events[..k + 1][..k] == events[..k];
  }

  /** Uncrossed after every prefix of the run. */
  predicate UncrossedThroughout(events: seq<OrderEvent>) {
    forall k | 0 <= k <= |events| :: Uncrossed(BookAfter(events[..k]))
  }

  predicate RestsBehindThroughout(events: seq<OrderEvent>) {
    forall k | 0 <= k < |events| :: RestsBehindOpposite(BookAfter(events[..k]), events[k])
  }

  lemma {:induction false} RestingBehindKeepsUncrossed(events: seq<OrderEvent>, k: nat)
    requires RestsBehindThroughout(events) && k <= |events|
    ensures Uncrossed(BookAfter(events[..k]))
  {
    if k > 0 {
      RestingBehindKeepsUncrossed(events, k - 1);
      StepUncrossedIff(BookAfter(events[..k - 1]), events[k - 1]);
      BookAfterStep(events, k - 1);
    }
  }

  /** The book is uncrossed throughout a run exactly when every resting order stayed behind the opposite side. */
  lemma RunUncrossedIff(events: seq<OrderEvent>)
    ensures UncrossedThroughout(events) <==> RestsBehindThroughout(events)
  {
    if UncrossedThroughout(events) {
      forall k: nat | k < |events|
        ensures RestsBehindOpposite(BookAfter(events[..k]), events[k])
      {
        BookAfterStep(events, k);
        StepUncrossedIff(BookAfter(events[..k]), events[k]);
        assert Uncrossed(BookAfter(events[..k + 1]));
      }
    }
    if RestsBehindThroughout(events) {
      forall k: nat | k <= |events|
        ensures Uncrossed(BookAfter(events[..k]))
      {
        RestingBehindKeepsUncrossed(events, k);
      }
    }
  }

  /** A remainder left after a partial fill at exactly the limit price. */
  predicate RestsAtExactPrice(e: OrderEvent) {
    e.body.Some? ==>
      var r := e.body.value;
      r.kind == "LIMIT" && r.filledQty < r.orderedQty && r.status != "REJECTED" ==>
        r.filledQty > 0 && r.executionPrice == r.price
  }

  lemma ExactPriceRunsUncrossed(events: seq<OrderEvent>)
    requires forall k | 0 <= k < |events| ::
      AcceptedAt(events, k) && events[k].kind != "CANCEL" ==> RestsAtExactPrice(events[k])
    ensures UncrossedThroughout(events)
  {
    forall k | 0 <= k < |events|
      ensures RestsBehindOpposite(BookAfter(events[..k]), events[k])
    {
      if EffectOf(BookAfter(events[..k]), events[k]).Rest? {
        assert AcceptedAt(events, k);
      }
    }
    RunUncrossedIff(events);
  }

  function LimitEvent(id: string, side: string, ordered: int, filled: int, price: real, execution: real): OrderEvent {
    OrderEvent("run", id, "sub", "LIMIT", 0, 0, 0, 0, 200, true,
               Some(TargetResponse(id, "LIMIT", side, ordered, filled, price, execution, "")), 200)
  }

  /** Without the exact-price condition the claim fails: two accepted, unfilled orders cross, and one id
      rests on both sides at once. */
  lemma UnfilledOrdersCanCross() returns (events: seq<OrderEvent>)
    ensures AcceptedAt(events, 0) && AcceptedAt(events, 1)
    ensures !Uncrossed(BookAfter(events))
    ensures exists id :: id in BookAfter(events).bids && id in BookAfter(events).asks
  {
    var sell := LimitEvent("ORD-1", "SELL", 10, 0, 5.0, 0.0);
    var buy := LimitEvent("ORD-1", "BUY", 10, 0, 8.0, 0.0);
    events := [sell, buy];
    assert events[..0] == [] && events[..2] == events;
    BookAfterStep(events, 0);
    BookAfterStep(events, 1);
    UnfilledLimitRests(EMPTY_BOOK, "ORD-1", "SELL", 10, 5.0);
    var one := BookAfter(events[..1]);
    assert one == ApplyEffect(EMPTY_BOOK, Rest(Sell, "ORD-1", 5.0, 10));
    UnfilledLimitRests(one, "ORD-1", "BUY", 10, 8.0);
    BothSidesCross(one, "ORD-1", 5.0, 8.0);
  }

  lemma UnfilledLimitRests(b: Book, id: string, side: string, qty: int, price: real)
    requires qty > 0 && (side == "BUY" || side == "SELL")
    ensures var e := LimitEvent(id, side, qty, 0, price, 0.0);
            Verdict(b, e) && EffectOf(b, e) == Rest(if side == "BUY" then Buy else Sell, id, price, qty)
  {
  }

  lemma BothSidesCross(b: Book, id: string, ask: real, bid: real)
    requires id in b.asks && b.asks[id].price == ask && ask < bid
    ensures var c := ApplyEffect(b, Rest(Buy, id, bid, 10));
            !Uncrossed(c) && id in c.bids && id in c.asks
  {
    var c := ApplyEffect(b, Rest(Buy, id, bid, 10));
    assert c.bids[id].price > c.asks[id].price;
  }
}
