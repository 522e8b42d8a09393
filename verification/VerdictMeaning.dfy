/** What an accepted event promises, stated without reference to the order of the validator's tests. */
module VerdictMeaning {
  import opened Prelude
  import opened Events
  import opened BookModel

  predicate Answered(e: OrderEvent) {
    && e.isSuccessful
    && e.statusCode == e.expectedStatus
    && e.body.Some?
    && e.body.value.orderID == e.orderID
  }

  predicate SaneQuantities(r: TargetResponse) {
    && 0 <= r.filledQty <= r.orderedQty
    && (r.status == "FILLED" ==> r.filledQty > 0)
    && (r.status == "REJECTED" && r.orderedQty > 0 ==> r.filledQty < r.orderedQty)
  }

  /** A traded limit order got its own limit or better, and no resting opposite order was passed over. */
  predicate BestExecution(b: Book, r: TargetResponse) {
    r.kind == "LIMIT" && r.filledQty > 0 ==>
      && OwnLimitKept(r)
      && (r.side == "BUY" ==> forall id | id in b.asks :: r.executionPrice <= b.asks[id].price)
      && (r.side == "SELL" ==> forall id | id in b.bids :: r.executionPrice >= b.bids[id].price)
  }

  predicate OwnLimitKept(r: TargetResponse) {
    && (r.side == "BUY" ==> r.executionPrice <= r.price)
    && (r.side == "SELL" ==> r.executionPrice >= r.price)
  }

  lemma NothingBeatsInFields(b: Book, q: real)
    ensures NothingBeats(b, Buy, q) <==> forall id | id in b.asks :: q <= b.asks[id].price
    ensures NothingBeats(b, Sell, q) <==> forall id | id in b.bids :: q >= b.bids[id].price
  {
    assert Opposite(b, Buy) == b.asks && Opposite(b, Sell) == b.bids;
    assert NothingBeats(b, Buy, q) ==> forall id | id in b.asks :: !Beats(Buy, Opposite(b, Buy)[id].price, q);
    assert NothingBeats(b, Sell, q) ==> forall id | id in b.bids :: !Beats(Sell, Opposite(b, Sell)[id].price, q);
  }

  /** The tests on the event alone, which decide what a call may do before it looks at the book. */
  lemma ScreeningIff(e: OrderEvent)
    ensures Screen(e).CancelAccepted? <==>
              Answered(e) && e.kind == "CANCEL" && e.body.value.status == "cancelled"
    ensures Screen(e).OrderChecked? <==>
              && Answered(e) && e.kind != "CANCEL"
              && SaneQuantities(e.body.value)
              && (e.body.value.side == "BUY" || e.body.value.side == "SELL")
              && (e.body.value.kind == "LIMIT" && e.body.value.filledQty > 0 ==> OwnLimitKept(e.body.value))
    ensures Screen(e).CancelAccepted? ==> Screen(e).id == e.orderID
    ensures Screen(e).OrderChecked? ==> Screen(e).resp == e.body.value
  {
  }

  lemma AcceptedIff(b: Book, e: OrderEvent)
    ensures Verdict(b, e) <==>
              && Answered(e)
              && (e.kind == "CANCEL" ==> e.body.value.status == "cancelled")
              && (e.kind != "CANCEL" ==>
                    && SaneQuantities(e.body.value)
                    && (e.body.value.side == "BUY" || e.body.value.side == "SELL")
                    && BestExecution(b, e.body.value))
  {
    if e.body.Some? {
      NothingBeatsInFields(b, e.body.value.executionPrice);
    }
    ScreeningIff(e);
  }

  /** An accepted traded BUY pays at most its limit and at most every resting ask; a SELL gets at least its limit
      and at least every resting bid. */
  lemma AcceptedTradesAtBestPrice(b: Book, e: OrderEvent)
    requires Verdict(b, e) && e.kind != "CANCEL" && TradesAtLimit(e.body.value)
    ensures e.body.Some?
    ensures e.body.value.side == "BUY" ==> PaysAtMost(b, e.body.value.executionPrice, e.body.value.price)
    ensures e.body.value.side == "SELL" ==> GetsAtLeast(b, e.body.value.executionPrice, e.body.value.price)
  {
    AcceptedIff(b, e);
  }

  predicate PaysAtMost(b: Book, paid: real, limit: real) {
    paid <= limit && forall id | id in b.asks :: paid <= b.asks[id].price
  }

  predicate GetsAtLeast(b: Book, got: real, limit: real) {
    got >= limit && forall id | id in b.bids :: got >= b.bids[id].price
  }

  /** A refused event leaves the book alone. */
  lemma RefusedChangesNothing(b: Book, e: OrderEvent)
    requires !Verdict(b, e)
    ensures After(b, e) == b
  {
  }

  // ---- The eight published cases, each on a fresh book ----

  function Case(kind: string, r: Option<TargetResponse>, id: string): OrderEvent {
    OrderEvent("", id, "SUB-TEST", kind, 0, 0, 0, 0, 200, true, r, 200)
  }

  function Fill(id: string, kind: string, side: string, ordered: int, filled: int, price: real, execution: real): OrderEvent {
    Case(kind, Some(TargetResponse(id, kind, side, ordered, filled, price, execution, "")), id)
  }

  lemma PublishedCases()
    ensures Verdict(EMPTY_BOOK, Fill("ORD-1", "LIMIT", "BUY", 10, 10, 100.00, 99.50))
    ensures Verdict(EMPTY_BOOK, Fill("ORD-2", "LIMIT", "SELL", 10, 10, 100.00, 100.50))
    ensures !Verdict(EMPTY_BOOK, Fill("ORD-3", "LIMIT", "BUY", 10, 10, 100.00, 101.00))
    ensures !Verdict(EMPTY_BOOK, Fill("ORD-4", "LIMIT", "SELL", 10, 10, 100.00, 99.00))
    ensures !Verdict(EMPTY_BOOK, Fill("ORD-5", "LIMIT", "BUY", 10, 15, 100.00, 100.00))
    ensures !Verdict(EMPTY_BOOK, Case("LIMIT", None, "ORD-6"))
    ensures Verdict(EMPTY_BOOK, Fill("ORD-7", "MARKET", "BUY", 10, 10, 0.00, 9999.99))
    ensures Verdict(EMPTY_BOOK,
                    Case("CANCEL", Some(TargetResponse("ORD-8", "CANCEL", "", 0, 0, 0.0, 0.0, "cancelled")), "ORD-8"))
  {
  }
}
