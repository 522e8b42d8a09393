/** The Go reference contestant: the order map it keeps and the answers it gives. */
module Contestant {
  import opened Prelude
  import opened Events
  import opened FleetOrders

  /** The answer on the wire: fields marked omitempty are absent when they are empty or zero. */
  datatype WireResponse = WireResponse(
    orderID: string,
    kind: string,
    side: Option<string>,
    orderedQty: Option<int>,
    filledQty: Option<int>,
    price: Option<real>,
    executionPrice: Option<real>,
    status: Option<string>)

  function OmitEmpty(s: string): Option<string> {
    if s == "" then None else Some(s)
  }

  function OmitZero(n: int): Option<int> {
    if n == 0 then None else Some(n)
  }

  function OmitZeroPrice(p: real): Option<real> {
    if p == 0.0 then None else Some(p)
  }

  function Encode(r: TargetResponse): WireResponse {
    WireResponse(r.orderID, r.kind, OmitEmpty(r.side), OmitZero(r.orderedQty), OmitZero(r.filledQty),
                 OmitZeroPrice(r.price), OmitZeroPrice(r.executionPrice), OmitEmpty(r.status))
  }

  function OrElse<T>(o: Option<T>, d: T): T {
    if o.Some? then o.value else d
  }

  /** The validator's decoding: an absent field is the zero value. */
  function Decode(w: WireResponse): TargetResponse {
    TargetResponse(w.orderID, w.kind, OrElse(w.side, ""), OrElse(w.orderedQty, 0), OrElse(w.filledQty, 0),
                   OrElse(w.price, 0.0), OrElse(w.executionPrice, 0.0), OrElse(w.status, ""))
  }

  /** Dropping empty fields loses nothing. */
  lemma WireRoundTrip(r: TargetResponse)
    ensures Decode(Encode(r)) == r
  {
  }

  const MARKET_PRICE := 100.00

  function OrderReply(req: Order): TargetResponse {
    TargetResponse(req.id, req.kind, req.side, req.quantity, req.quantity, req.price,
                   if req.kind == "MARKET" then MARKET_PRICE else req.price, "")
  }

  function CancelReply(req: Order): TargetResponse {
    TargetResponse(req.id, "CANCEL", "", 0, 0, 0.0, 0.0, "cancelled")
  }

  /** A complete fill of the order, at its own price or at 100 for a MARKET order, with empty fields left out. */
  predicate FillsOrder(w: WireResponse, o: Order) {
    && w.orderID == o.id && w.kind == o.kind
    && w.side == (if o.side == "" then None else Some(o.side))
    && w.orderedQty == w.filledQty == (if o.quantity == 0 then None else Some(o.quantity))
    && w.price == (if o.price == 0.0 then None else Some(o.price))
    && w.executionPrice == (if o.kind == "MARKET" then Some(100.0) else w.price)
    && w.status.None?
  }

  datatype HttpAnswer = HttpAnswer(status: int, body: Option<WireResponse>)

  /** One request that reached the engine's map. */
  datatype Request = PlaceOrder(order: Order) | CancelOrder(order: Order)

  /** The map after a history of accepted requests. */
  function OrdersAfter(history: seq<Request>): map<string, Order> {
    if history == [] then map[]
    else
      var n := |history| - 1;
      var before := OrdersAfter(history[..n]);
      match history[n]
      case PlaceOrder(o) => before[o.id := o]
      case CancelOrder(o) => before - {o.cancelTargetID}
  }

  class TradingEngine {
    var orders: map<string, Order>
    ghost var history: seq<Request>

    ghost predicate Valid()
      reads this
    {
      orders == OrdersAfter(history)
    }

    constructor ()
      ensures Valid() && history == []
    {
      orders := map[];
      history := [];
    }

    /** `body` is None when the request body is not a JSON order. */
    method HandleOrder(isPost: bool, body: Option<Order>) returns (answer: HttpAnswer)
      requires Valid()
      modifies this
      ensures Valid()
      ensures !isPost ==> answer == HttpAnswer(405, None) && history == old(history)
      ensures isPost && body.None? ==> answer == HttpAnswer(400, None) && history == old(history)
      ensures isPost && body.Some? ==>
                && answer == HttpAnswer(200, Some(Encode(OrderReply(body.value))))
                && FillsOrder(answer.body.value, body.value)
                && orders == old(orders)[body.value.id := body.value]
                && history == old(history) + [PlaceOrder(body.value)]
    {
      if !isPost {
        return HttpAnswer(405, None);
      }
      if body.None? {
        return HttpAnswer(400, None);
      }
      var req := body.value;
      orders := orders[req.id := req];
      history := history + [PlaceOrder(req)];
      assert history[..|history| - 1] == old(history);
      var execPrice := req.price;
      if req.kind == "MARKET" {
        execPrice := MARKET_PRICE;
      }
      var resp := TargetResponse(req.id, req.kind, req.side, req.quantity, req.quantity, req.price, execPrice, "");
      return HttpAnswer(200, Some(Encode(resp)));
    }

    method HandleCancel(isPost: bool, body: Option<Order>) returns (answer: HttpAnswer)
      requires Valid()
      modifies this
      ensures Valid()
      ensures !isPost ==> answer == HttpAnswer(405, None) && history == old(history)
      ensures isPost && body.None? ==> answer == HttpAnswer(400, None) && history == old(history)
      ensures isPost && body.Some? ==>
                && answer == HttpAnswer(200, Some(Encode(CancelReply(body.value))))
                && answer.body.value == WireResponse(body.value.id, "CANCEL", None, None, None, None, None, Some("cancelled"))
                && orders == old(orders) - {body.value.cancelTargetID}
                && history == old(history) + [CancelOrder(body.value)]
    {
      if !isPost {
        return HttpAnswer(405, None);
      }
      if body.None? {
        return HttpAnswer(400, None);
      }
      var req := body.value;
      ghost var before := orders;
      if req.cancelTargetID in orders {
        orders := orders - {req.cancelTargetID};
      }
      assert orders == before - {req.cancelTargetID};
      history := history + [CancelOrder(req)];
      assert history[..|history| - 1] == old(history);
      var resp := TargetResponse(req.id, "CANCEL", "", 0, 0, 0.0, 0.0, "cancelled");
      return HttpAnswer(200, Some(Encode(resp)));
    }
  }

  predicate PlacesAt(history: seq<Request>, k: int, id: string) {
    0 <= k < |history| && history[k].PlaceOrder? && history[k].order.id == id
  }

  predicate TargetsAt(history: seq<Request>, k: int, id: string) {
    0 <= k < |history| && history[k].CancelOrder? && history[k].order.cancelTargetID == id
  }

  predicate NotTargetedAfter(history: seq<Request>, k: int, id: string) {
    forall j | k < j < |history| :: !TargetsAt(history, j, id)
  }

  /** Unlike the validator's book, the engine drops a cancel's target: an order is held exactly when it was
      placed and no later cancel named it. */
  lemma {:induction false} HeldIffPlaced(history: seq<Request>, id: string)
    ensures id in OrdersAfter(history) <==>
            exists k :: PlacesAt(history, k, id) && NotTargetedAfter(history, k, id)
  {
    if history != [] {
      var n := |history| - 1;
      var before := history[..n];
      HeldIffPlaced(before, id);
      assert forall j | 0 <= j < n :: TargetsAt(before, j, id) == TargetsAt(history, j, id);
      if k :| PlacesAt(before, k, id) && NotTargetedAfter(before, k, id) && !TargetsAt(history, n, id) {
        assert PlacesAt(history, k, id) && NotTargetedAfter(history, k, id);
      }
      if k :| PlacesAt(history, k, id) && NotTargetedAfter(history, k, id) {
        if k < n {
          assert PlacesAt(before, k, id) && NotTargetedAfter(before, k, id);
          assert !TargetsAt(history, n, id);
        }
      }
      if PlacesAt(history, n, id) {
        assert NotTargetedAfter(history, n, id);
      }
    }
  }

  /** What is held is the order placed last under its id. */
  lemma {:induction false} HeldIsLastPlaced(history: seq<Request>, k: nat, id: string)
    requires PlacesAt(history, k, id) && NotTargetedAfter(history, k, id)
    requires forall j | k < j < |history| :: !PlacesAt(history, j, id)
    ensures id in OrdersAfter(history) && OrdersAfter(history)[id] == history[k].order
  {
    var n := |history| - 1;
    if k < n {
      var before := history[..n];
      assert forall j | k < j < n :: TargetsAt(before, j, id) == TargetsAt(history, j, id);
      assert forall j | k < j < n :: PlacesAt(before, j, id) == PlacesAt(history, j, id);
      HeldIsLastPlaced(before, k, id);
      assert !TargetsAt(history, n, id) && !PlacesAt(history, n, id);
    }
  }
}
