/** What a fleet CANCEL does to its target in the validator's book: nothing, unless it names itself. */
module FleetCancels {
  import opened Prelude
  import opened Events
  import opened BookModel
  import opened BookHistory
  import opened FleetOrders
  import opened Contestant

  /** After an accepted cancel the target is off a side if and only if it is the cancel's own id or was not
      resting there to begin with. */
  lemma TargetGoneIff(b: Book, o: Order, e: OrderEvent, side: Side)
    requires e.orderID == o.id && e.kind == o.kind == "CANCEL" && Verdict(b, e)
    ensures o.cancelTargetID !in Own(After(b, e), side)
            <==> o.cancelTargetID == o.id || o.cancelTargetID !in Own(b, side)
  {
    CancelChangesOnlyItsOwnId(b, e);
  }

  /** Only the first generated order can name itself. */
  lemma TargetIsSelfIff(index: nat, d: Draws, now: int)
    requires index >= 1 && Drawable(index, d) && GenerateOrder(index, d, now).kind == "CANCEL"
    ensures var o := GenerateOrder(index, d, now);
            o.cancelTargetID == o.id <==> index == 1
  {
    if index > 1 && OrderID(d.target + 1) == OrderID(index) {
      OrderIDInjective(d.target + 1, index);
    }
  }

  /** So an accepted CANCEL the fleet generated takes its target off the book only if it is order 1. */
  lemma GeneratedCancelTargetGoneIff(b: Book, index: nat, d: Draws, now: int, e: OrderEvent, side: Side)
    requires index >= 1 && Drawable(index, d) && GenerateOrder(index, d, now).kind == "CANCEL"
    requires e.orderID == OrderID(index) && e.kind == "CANCEL" && Verdict(b, e)
    ensures var target := GenerateOrder(index, d, now).cancelTargetID;
            target !in Own(After(b, e), side) <==> index == 1 || target !in Own(b, side)
  {
    var o := GenerateOrder(index, d, now);
    TargetIsSelfIff(index, d, now);
    TargetGoneIff(b, o, e, side);
  }

  function AnsweredEvent(o: Order, reply: TargetResponse): OrderEvent {
    EventFor("run", "sub", o, 0, 0, Response(200, Some(reply)))
  }

  lemma AnsweredCancelAccepted(b: Book, o: Order)
    requires o.kind == "CANCEL"
    ensures Verdict(b, AnsweredEvent(o, CancelReply(o)))
  {
  }

  lemma AnsweredLimitRests(b: Book, o: Order)
    requires o.kind == "LIMIT" && o.side == "SELL" && o.quantity > 0
    ensures var e := AnsweredEvent(o, TargetResponse(o.id, "LIMIT", "SELL", o.quantity, 0, o.price, 0.0, ""));
            Verdict(b, e) && After(b, e) == ApplyEffect(b, Rest(Sell, o.id, o.price, o.quantity))
  {
  }

  /** A generated limit order that rests, and a generated CANCEL of it that is accepted: the order still rests. */
  lemma CancelledOrderStillRests() returns (order: Order, cancel: Order, events: seq<OrderEvent>)
    ensures exists d, now :: Drawable(1, d) && order == GenerateOrder(1, d, now)
    ensures exists d, now :: Drawable(2, d) && cancel == GenerateOrder(2, d, now)
    ensures cancel.kind == "CANCEL" && cancel.cancelTargetID == order.id
    ensures |events| == 2 && AcceptedAt(events, 0) && AcceptedAt(events, 1)
    ensures events[0].orderID == order.id && events[1].orderID == cancel.id && events[1].kind == "CANCEL"
    ensures order.id in BookAfter(events).asks
  {
    var d1 := Draws(0.1, 0, 0.9, 0.5, 9);
    var d2 := Draws(0.95, 0, 0.0, 0.0, 0);
    order := GenerateOrder(1, d1, 0);
    cancel := GenerateOrder(2, d2, 0);
    assert Drawable(1, d1) && Drawable(2, d2);
    var placed := AnsweredEvent(order, TargetResponse(order.id, "LIMIT", "SELL", order.quantity, 0, order.price, 0.0, ""));
    var cancelled := AnsweredEvent(cancel, CancelReply(cancel));
    events := [placed, cancelled];
    assert events[..0] == [] && events[..2] == events;
    BookAfterStep(events, 0);
    BookAfterStep(events, 1);
    AnsweredLimitRests(EMPTY_BOOK, order);
    var one := BookAfter(events[..1]);
    AnsweredCancelAccepted(one, cancel);
    GeneratedCancelTargetGoneIff(one, 2, d2, 0, cancelled, Sell);
  }
}
