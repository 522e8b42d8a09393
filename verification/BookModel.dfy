/** The order book as a value: what one event does to it, and the facts every operation keeps. */
module BookModel {
  import opened Events

  datatype LimitEntry = LimitEntry(orderID: string, price: real, qty: int, sequence: int)

  datatype Book = Book(bids: map<string, LimitEntry>, asks: map<string, LimitEntry>, sequence: int)

  const EMPTY_BOOK := Book(map[], map[], 0)

  datatype Side = Buy | Sell

  function SideOf(r: TargetResponse): Side {
    if r.side == "BUY" then Buy else Sell
  }

  function Own(b: Book, side: Side): map<string, LimitEntry> {
    if side == Buy then b.bids else b.asks
  }

  function Opposite(b: Book, side: Side): map<string, LimitEntry> {
    if side == Buy then b.asks else b.bids
  }

  /** A resting price `p` that a taker on `side` prefers strictly to trading at `q`. */
  predicate Beats(side: Side, p: real, q: real) {
    if side == Buy then p < q else p > q
  }

  /** No order resting on the opposite side offers a strictly better price than `q`. */
  predicate NothingBeats(b: Book, side: Side, q: real) {
    var opp := Opposite(b, side);
    forall id | id in opp :: !Beats(side, opp[id].price, q)
  }

  /** The tests that look at the event alone. */
  datatype Screening = Refused | CancelAccepted(id: string) | OrderChecked(resp: TargetResponse)

  function Screen(e: OrderEvent): Screening {
    if !e.isSuccessful || e.statusCode != e.expectedStatus || e.body.None? then Refused
    else
      var r := e.body.value;
      if r.orderID != e.orderID then Refused
      else if e.kind == "CANCEL" then
        if r.status != "cancelled" then Refused else CancelAccepted(e.orderID)
      else if r.orderedQty < 0 || r.filledQty < 0 || r.filledQty > r.orderedQty then Refused
      else if r.side != "BUY" && r.side != "SELL" then Refused
      else if TradesAtLimit(r) && r.side == "BUY" && r.executionPrice > r.price then Refused
      else if TradesAtLimit(r) && r.side == "SELL" && r.executionPrice < r.price then Refused
      else if r.filledQty == 0 && r.status == "FILLED" then Refused
      else if r.filledQty == r.orderedQty && r.orderedQty > 0 && r.status == "REJECTED" then Refused
      else OrderChecked(r)
  }

  predicate TradesAtLimit(r: TargetResponse) {
    r.kind == "LIMIT" && r.filledQty > 0
  }

  predicate LeavesRemainder(r: TargetResponse) {
    r.kind == "LIMIT" && r.filledQty < r.orderedQty && r.status != "REJECTED"
  }

  predicate Verdict(b: Book, e: OrderEvent) {
    match Screen(e)
    case Refused => false
    case CancelAccepted(_) => true
    case OrderChecked(r) => TradesAtLimit(r) ==> NothingBeats(b, SideOf(r), r.executionPrice)
  }

  /** One lock-protected write to the maps. */
  datatype Effect =
    | Keep
    | Clear(id: string)
    | Rest(side: Side, id: string, price: real, qty: int)

  function ApplyEffect(b: Book, f: Effect): Book {
    match f
    case Keep => b
    case Clear(id) => b.(bids := b.bids - {id}, asks := b.asks - {id})
    case Rest(side, id, price, qty) =>
      var entry := LimitEntry(id, price, qty, b.sequence + 1);
      if side == Buy then Book(b.bids[id := entry], b.asks, b.sequence + 1)
      else Book(b.bids, b.asks[id := entry], b.sequence + 1)
  }

  function RestEffect(r: TargetResponse): Effect {
    if LeavesRemainder(r)
    then Rest(SideOf(r), r.orderID, r.price, r.orderedQty - r.filledQty)
    else Keep
  }

  function FillEffect(r: TargetResponse): Effect {
    if r.filledQty == r.orderedQty then Clear(r.orderID) else Keep
  }

  function OrderEffect(r: TargetResponse): Effect {
    if LeavesRemainder(r) then RestEffect(r) else FillEffect(r)
  }

  function EffectOf(b: Book, e: OrderEvent): Effect {
    if !Verdict(b, e) then Keep
    else
      match Screen(e)
      case Refused => Keep
      case CancelAccepted(id) => Clear(id)
      case OrderChecked(r) => OrderEffect(r)
  }

  function After(b: Book, e: OrderEvent): Book {
    ApplyEffect(b, EffectOf(b, e))
  }

  /** What one event does to the book, in the fields of the event and of its answer. */
  lemma AfterInFields(b: Book, e: OrderEvent)
    ensures !Verdict(b, e) ==> After(b, e) == b
    ensures Verdict(b, e) ==> e.body.Some? && e.body.value.orderID == e.orderID
    ensures Verdict(b, e) && e.kind == "CANCEL" ==>
              After(b, e) == Book(b.bids - {e.orderID}, b.asks - {e.orderID}, b.sequence)
    ensures Verdict(b, e) && e.kind != "CANCEL" ==>
              var r := e.body.value;
              var x := LimitEntry(e.orderID, r.price, r.orderedQty - r.filledQty, b.sequence + 1);
              if r.kind == "LIMIT" && r.filledQty < r.orderedQty && r.status != "REJECTED" then
                && (r.side == "BUY" ==> After(b, e) == Book(b.bids[e.orderID := x], b.asks, b.sequence + 1))
                && (r.side == "SELL" ==> After(b, e) == Book(b.bids, b.asks[e.orderID := x], b.sequence + 1))
                && (r.side == "BUY" || r.side == "SELL")
              else if r.filledQty == r.orderedQty then
                After(b, e) == Book(b.bids - {e.orderID}, b.asks - {e.orderID}, b.sequence)
              else After(b, e) == b
  {
  }

  /** An accepted order comes to rest, under the next sequence number, exactly when it is a limit order that was
      not filled completely and not rejected; otherwise nothing is inserted and the counter stays. */
  lemma RestsIff(b: Book, e: OrderEvent)
    requires Verdict(b, e) && e.kind != "CANCEL"
    ensures e.body.Some?
    ensures var r := e.body.value;
            After(b, e).sequence == b.sequence + 1
            <==> r.kind == "LIMIT" && r.filledQty < r.orderedQty && r.status != "REJECTED"
    ensures var r := e.body.value;
            var side := if r.side == "BUY" then Buy else Sell;
            After(b, e).sequence == b.sequence + 1 ==>
              && e.orderID in Own(After(b, e), side)
              && Own(After(b, e), side)[e.orderID]
                 == LimitEntry(e.orderID, r.price, r.orderedQty - r.filledQty, b.sequence + 1)
    ensures After(b, e).sequence != b.sequence + 1 ==>
              && After(b, e).sequence == b.sequence
              && After(b, e).bids.Items <= b.bids.Items && After(b, e).asks.Items <= b.asks.Items
  {
    AfterInFields(b, e);
  }

  /** Validating events one by one. */
  function BookAfter(events: seq<OrderEvent>): Book {
    if events == [] then EMPTY_BOOK
    else
      var n := |events| - 1;
      After(BookAfter(events[..n]), events[n])
  }

  // ---- What every write keeps ----

  predicate SideWellFormed(m: map<string, LimitEntry>, sequence: int) {
    forall id | id in m :: m[id].orderID == id && m[id].qty > 0 && 1 <= m[id].sequence <= sequence
  }

  predicate DistinctSequences(m: map<string, LimitEntry>) {
    forall i, j | i in m && j in m && i != j :: m[i].sequence != m[j].sequence
  }

  predicate WellFormed(b: Book) {
    && b.sequence >= 0
    && SideWellFormed(b.bids, b.sequence)
    && SideWellFormed(b.asks, b.sequence)
    && DistinctSequences(b.bids)
    && DistinctSequences(b.asks)
    && (forall i, j | i in b.bids && j in b.asks :: b.bids[i].sequence != b.asks[j].sequence)
  }

  predicate PositiveRest(f: Effect) {
    f.Rest? ==> f.qty > 0
  }

  lemma EffectKeepsWellFormed(b: Book, f: Effect)
    requires WellFormed(b) && PositiveRest(f)
    ensures WellFormed(ApplyEffect(b, f))
  {
    match f
    case Keep =>
    case Clear(id) => ClearKeepsWellFormed(b, id);
    case Rest(_, _, _, _) => RestEffectKeepsWellFormed(b, f);
  }

  lemma RestEffectKeepsWellFormed(b: Book, f: Effect)
    requires WellFormed(b) && f.Rest? && f.qty > 0
    ensures WellFormed(ApplyEffect(b, f))
  {
    var x := LimitEntry(f.id, f.price, f.qty, b.sequence + 1);
    RestKeepsWellFormed(b, f.side, x);
    match f.side
    case Buy => assert ApplyEffect(b, f) == Book(b.bids[x.orderID := x], b.asks, x.sequence);
    case Sell => assert ApplyEffect(b, f) == Book(b.bids, b.asks[x.orderID := x], x.sequence);
  }

  lemma ClearKeepsWellFormed(b: Book, id: string)
    requires WellFormed(b)
    ensures WellFormed(b.(bids := b.bids - {id}, asks := b.asks - {id}))
  {
    RemoveKeepsSide(b.bids, b.sequence, id);
    RemoveKeepsSide(b.asks, b.sequence, id);
  }

  lemma RemoveKeepsSide(m: map<string, LimitEntry>, sequence: int, id: string)
    requires SideWellFormed(m, sequence) && DistinctSequences(m)
    ensures SideWellFormed(m - {id}, sequence) && DistinctSequences(m - {id})
  {
  }

  lemma RestKeepsWellFormed(b: Book, side: Side, x: LimitEntry)
    requires WellFormed(b)
    requires x.qty > 0 && x.sequence == b.sequence + 1
    ensures side == Buy ==> WellFormed(Book(b.bids[x.orderID := x], b.asks, x.sequence))
    ensures side == Sell ==> WellFormed(Book(b.bids, b.asks[x.orderID := x], x.sequence))
  {
    InsertKeepsSide(Own(b, side), b.sequence, x);
    var own := Own(b, side)[x.orderID := x];
    var opp := Opposite(b, side);
    assert SideWellFormed(opp, x.sequence);
    assert forall i, j | i in own && j in opp :: own[i].sequence != opp[j].sequence;
  }

  lemma InsertKeepsSide(m: map<string, LimitEntry>, sequence: int, x: LimitEntry)
    requires SideWellFormed(m, sequence) && DistinctSequences(m)
    requires x.qty > 0 && x.sequence == sequence + 1 && sequence >= 0
    ensures SideWellFormed(m[x.orderID := x], sequence + 1) && DistinctSequences(m[x.orderID := x])
  {
  }

  lemma EventKeepsWellFormed(b: Book, e: OrderEvent)
    requires WellFormed(b)
    ensures WellFormed(After(b, e))
  {
    EffectKeepsWellFormed(b, EffectOf(b, e));
  }

  lemma {:induction false} SequentialRunsWellFormed(events: seq<OrderEvent>)
    ensures WellFormed(BookAfter(events))
  {
    if events != [] {
      var n := |events| - 1;
      SequentialRunsWellFormed(events[..n]);
      EventKeepsWellFormed(BookAfter(events[..n]), events[n]);
    }
  }

  // ---- The best resting order ----

  /** Price first, then the earlier sequence: what a taker on `side` would hit before `y`. */
  predicate Ahead(side: Side, x: LimitEntry, y: LimitEntry) {
    Beats(side, x.price, y.price) || (x.price == y.price && x.sequence < y.sequence)
  }

  /** `x` rests on the opposite side and is ahead of everything else there. */
  predicate IsBest(b: Book, side: Side, x: LimitEntry) {
    var opp := Opposite(b, side);
    && x.orderID in opp
    && opp[x.orderID] == x
    && (forall id | id in opp && opp[id] != x :: Ahead(side, x, opp[id]))
  }

  lemma BestIsUnique(b: Book, side: Side, x: LimitEntry, y: LimitEntry)
    requires IsBest(b, side, x) && IsBest(b, side, y)
    ensures x == y
  {
  }

  /** The best ask has the lowest price and the best bid the highest; among equal prices it came to rest first. */
  lemma BestInFields(b: Book, x: LimitEntry)
    ensures IsBest(b, Buy, x) <==>
              && x.orderID in b.asks && b.asks[x.orderID] == x
              && forall id | id in b.asks && b.asks[id] != x ::
                   x.price < b.asks[id].price || (x.price == b.asks[id].price && x.sequence < b.asks[id].sequence)
    ensures IsBest(b, Sell, x) <==>
              && x.orderID in b.bids && b.bids[x.orderID] == x
              && forall id | id in b.bids && b.bids[id] != x ::
                   x.price > b.bids[id].price || (x.price == b.bids[id].price && x.sequence < b.bids[id].sequence)
  {
    assert Opposite(b, Buy) == b.asks && Opposite(b, Sell) == b.bids;
  }

  /** A non-empty side of a well-formed book always has a best order, found by price and sequence alone. */
  lemma {:induction false} BestAmong(b: Book, side: Side, ids: set<string>) returns (x: LimitEntry)
    requires WellFormed(b)
    requires ids != {} && ids <= Opposite(b, side).Keys
    ensures x.orderID in ids && x == Opposite(b, side)[x.orderID]
    ensures forall id | id in ids && id != x.orderID :: Ahead(side, x, Opposite(b, side)[id])
    decreases ids
  {
    var opp := Opposite(b, side);
    var id :| id in ids;
    if ids == {id} {
      x := opp[id];
    } else {
      var y := BestAmong(b, side, ids - {id});
      x := if Ahead(side, opp[id], y) then opp[id] else y;
    }
  }

  /** The test on execution price is a statement about the best order only. */
  lemma PriorityFailsIffBestBeats(b: Book, side: Side, q: real)
    requires WellFormed(b)
    ensures !NothingBeats(b, side, q) <==>
            exists x :: IsBest(b, side, x) && Beats(side, x.price, q)
  {
    var opp := Opposite(b, side);
    if id :| id in opp && Beats(side, opp[id].price, q) {
      var x := BestAmong(b, side, opp.Keys);
      assert IsBest(b, side, x);
      assert Beats(side, x.price, q);
    }
  }
}
