/** The orders the fleet generates, how they are printed, and what a worker makes of the answer. */
module FleetOrders {
  import opened Prelude
  import opened Events
  import opened Decimal
  import opened FlatJson
  import Fleet

  datatype Order = Order(
    id: string,
    kind: string,
    side: string,
    price: real,
    quantity: int,
    timestamp: int,
    cancelTargetID: string)

  // ---- Generating ----

  /** The random draws behind one order: two Float32 rolls, the Intn draws and the Float64 price draw. */
  datatype Draws = Draws(roll: real, target: nat, side: real, price: real, quantity: nat)

  /** What the generator's draws can be for the order at `index`. */
  predicate Drawable(index: nat, d: Draws) {
    && 0.0 <= d.roll < 1.0 && 0.0 <= d.side < 1.0 && 0.0 <= d.price < 1.0
    && d.quantity < 100
    && (index > 1 ==> d.target < index - 1)
  }

  function OrderID(index: nat): string {
    "ORD-" + NatText(index)
  }

  /** The price in hundredths: 10.00 plus up to 490.00, truncated. */
  function CentsOf(draw: real): int {
    ((10.0 + draw * 490.0) * 100.0).Floor
  }

  function Hundredths(cents: int): real {
    cents as real / 100.0
  }

  function GenerateOrder(index: nat, d: Draws, now: int): Order {
    if d.roll > 0.90 then
      var targetIndex := if index > 1 then d.target + 1 else 1;
      Order(OrderID(index), "CANCEL", "", 0.0, 0, now, OrderID(targetIndex))
    else
      Order(
        OrderID(index),
        if d.roll > 0.45 then "MARKET" else "LIMIT",
        if d.side > 0.5 then "SELL" else "BUY",
        Hundredths(CentsOf(d.price)),
        d.quantity + 1,
        now,
        "")
  }

  lemma CentsInRange(draw: real)
    requires 0.0 <= draw < 1.0
    ensures 1000 <= CentsOf(draw) < 50000
  {
    assert 0.0 <= draw * 490.0 < 490.0;
  }

  lemma OrderIDInjective(m: nat, n: nat)
    requires OrderID(m) == OrderID(n)
    ensures m == n
  {
    assert OrderID(m)[4..] == NatText(m) && OrderID(n)[4..] == NatText(n);
    NatTextInjective(m, n);
  }

  /** Every generated order is either a CANCEL of an order numbered lower (the first one targets itself), or a
      LIMIT or MARKET order with a side, a two-place price in [10, 500) and a quantity in 1..100. */
  lemma GeneratedOrderInRange(index: nat, d: Draws, now: int)
    requires index >= 1 && Drawable(index, d)
    ensures var o := GenerateOrder(index, d, now);
            && o.id == OrderID(index)
            && (o.kind == "CANCEL" ==>
                  exists t: nat :: o.cancelTargetID == OrderID(t) && 1 <= t && (t < index || t == index == 1))
            && (o.kind != "CANCEL" ==>
                  && (o.kind == "LIMIT" || o.kind == "MARKET")
                  && (o.side == "BUY" || o.side == "SELL")
                  && 10.0 <= o.price < 500.0 && (exists cents: int :: o.price == Hundredths(cents))
                  && 1 <= o.quantity <= 100
                  && o.cancelTargetID == "")
  {
    CentsInRange(d.price);
    var o := GenerateOrder(index, d, now);
    if o.kind == "CANCEL" {
      var t := if index > 1 then d.target + 1 else 1;
      assert o.cancelTargetID == OrderID(t);
    } else {
      assert o.price == Hundredths(CentsOf(d.price));
    }
  }

  /** What each draw decides: more than 0.90 makes a CANCEL, else more than 0.45 a MARKET order, else a LIMIT order;
      more than 0.5 makes it a SELL; the price is the drawn one cut to whole cents. */
  lemma GeneratedByDraws(index: nat, d: Draws, now: int)
    requires index >= 1 && Drawable(index, d)
    ensures var o := GenerateOrder(index, d, now);
            && o.timestamp == now
            && (o.kind == "CANCEL" <==> d.roll > 0.90)
            && (o.kind == "MARKET" <==> 0.45 < d.roll <= 0.90)
            && (o.kind == "LIMIT" <==> d.roll <= 0.45)
            && (o.kind == "CANCEL" ==>
                  && o.cancelTargetID == OrderID(if index == 1 then 1 else d.target + 1)
                  && o.side == "" && o.price == 0.0 && o.quantity == 0)
            && (o.kind != "CANCEL" ==>
                  && o.side == (if d.side > 0.5 then "SELL" else "BUY")
                  && o.quantity == d.quantity + 1
                  && o.price <= 10.0 + 490.0 * d.price < o.price + 0.01
                  && (o.price * 100.0).Floor as real == o.price * 100.0)
  {
    KindsDiffer();
    CentsBound(d.price);
  }

  lemma KindsDiffer()
    ensures "CANCEL" != "MARKET" && "CANCEL" != "LIMIT" && "MARKET" != "LIMIT"
  {
    assert "CANCEL"[0] != "MARKET"[0] && "CANCEL"[0] != "LIMIT"[0] && "MARKET"[0] != "LIMIT"[0];
  }

  lemma CentsBound(draw: real)
    ensures var p := Hundredths(CentsOf(draw));
            && p <= 10.0 + 490.0 * draw < p + 0.01
            && (p * 100.0).Floor as real == p * 100.0
  {
  }

  // ---- Printing, and what the reference contestants read ----

  function OptionalField(present: bool, f: Field): seq<Field> {
    if present then [f] else []
  }

  /** The order as encoding/json prints it, with `priceText` for its price; empty and zero fields marked
      omitempty are dropped. */
  function Fields(o: Order, priceText: string): seq<Field> {
    [Field("id", Text(o.id)), Field("type", Text(o.kind))]
    + OptionalField(o.side != "", Field("side", Text(o.side)))
    + OptionalField(o.price != 0.0, Field("price", Numeral(priceText)))
    + OptionalField(o.quantity != 0, Field("quantity", Numeral(IntText(o.quantity))))
    + [Field("timestamp", Numeral(IntText(o.timestamp)))]
    + OptionalField(o.cancelTargetID != "", Field("cancel_target_id", Text(o.cancelTargetID)))
  }

  function PrintOrder(o: Order, priceText: string): string {
    Render(Fields(o, priceText))
  }

  predicate PrintablePrice(text: string) {
    text != "" && '"' !in text
  }

  /** The place each key has in the printed order. */
  function Rank(key: string): nat {
    if key == "id" then 0
    else if key == "type" then 1
    else if key == "side" then 2
    else if key == "price" then 3
    else if key == "quantity" then 4
    else if key == "timestamp" then 5
    else 6
  }

  predicate RanksIncrease(fs: seq<Field>, lo: nat, hi: nat) {
    && (forall i | 0 <= i < |fs| :: lo <= Rank(fs[i].key) < hi)
    && (forall i, j | 0 <= i < j < |fs| :: Rank(fs[i].key) < Rank(fs[j].key))
  }

  lemma AppendRank(fs: seq<Field>, present: bool, f: Field, lo: nat, hi: nat)
    requires RanksIncrease(fs, lo, hi) && lo <= hi == Rank(f.key)
    ensures RanksIncrease(fs + OptionalField(present, f), lo, hi + 1)
  {
  }

  lemma IntTextPlain(n: int)
    ensures IntText(n) != "" && '"' !in IntText(n) && IsNumeral(IntText(n))
  {
  }

  lemma KeysAreKeys()
    ensures IsKey("id") && IsKey("type") && IsKey("side") && IsKey("price") && IsKey("quantity")
    ensures IsKey("timestamp") && IsKey("cancel_target_id")
  {
  }

  lemma RankTable()
    ensures Rank("side") == 2 && Rank("price") == 3 && Rank("quantity") == 4
    ensures Rank("timestamp") == 5 && Rank("cancel_target_id") == 6
  {
  }

  lemma FirstFieldsDistinct(id: string, kind: string)
    ensures RanksIncrease([Field("id", Text(id)), Field("type", Text(kind))], 0, 2)
  {
  }

  lemma FieldsDistinct(o: Order, priceText: string)
    ensures RanksIncrease(Fields(o, priceText), 0, 7)
  {
    var side := Field("side", Text(o.side));
    var price := Field("price", Numeral(priceText));
    var quantity := Field("quantity", Numeral(IntText(o.quantity)));
    var timestamp := Field("timestamp", Numeral(IntText(o.timestamp)));
    var target := Field("cancel_target_id", Text(o.cancelTargetID));
    var f2 := [Field("id", Text(o.id)), Field("type", Text(o.kind))];
    var f3 := f2 + OptionalField(o.side != "", side);
    var f4 := f3 + OptionalField(o.price != 0.0, price);
    var f5 := f4 + OptionalField(o.quantity != 0, quantity);
    var f6 := f5 + [timestamp];
    RankTable();
    FirstFieldsDistinct(o.id, o.kind);
    AppendRank(f2, o.side != "", side, 0, 2);
    AppendRank(f3, o.price != 0.0, price, 0, 3);
    AppendRank(f4, o.quantity != 0, quantity, 0, 4);
    AppendRank(f5, true, timestamp, 0, 5);
    AppendRank(f6, o.cancelTargetID != "", target, 0, 6);
  }

  predicate OneOfTheFields(o: Order, priceText: string, f: Field) {
    || f == Field("id", Text(o.id))
    || f == Field("type", Text(o.kind))
    || (f == Field("side", Text(o.side)) && o.side != "")
    || (f == Field("price", Numeral(priceText)) && o.price != 0.0)
    || (f == Field("quantity", Numeral(IntText(o.quantity))) && o.quantity != 0)
    || f == Field("timestamp", Numeral(IntText(o.timestamp)))
    || (f == Field("cancel_target_id", Text(o.cancelTargetID)) && o.cancelTargetID != "")
  }

  lemma FieldsAre(o: Order, priceText: string, f: Field)
    ensures f in Fields(o, priceText) <==> OneOfTheFields(o, priceText, f)
  {
  }

  lemma FieldsValid(o: Order, priceText: string)
    requires PrintablePrice(priceText)
    ensures ValidObject(Fields(o, priceText))
  {
    var fs := Fields(o, priceText);
    FieldsDistinct(o, priceText);
    KeysAreKeys();
    IntTextPlain(o.quantity);
    IntTextPlain(o.timestamp);
    forall i | 0 <= i < |fs|
      ensures ValidField(fs[i])
    {
      FieldsAre(o, priceText, fs[i]);
    }
    forall i, j | 0 <= i < j < |fs|
      ensures fs[i].key != fs[j].key
    {
      assert Rank(fs[i].key) < Rank(fs[j].key);
    }
  }

  lemma StringFieldOf(o: Order, priceText: string, key: string, s: string)
    requires PrintablePrice(priceText)
    requires Field(key, Text(s)) in Fields(o, priceText)
    ensures GetJsonString(PrintOrder(o, priceText), key) == s <==> Plain(s)
  {
    var fs := Fields(o, priceText);
    FieldsValid(o, priceText);
    var k :| 0 <= k < |fs| && fs[k] == Field(key, Text(s));
    StringFieldRoundTripIff(fs, k);
  }

  lemma NumeralFieldOf(o: Order, priceText: string, key: string, text: string)
    requires PrintablePrice(priceText)
    requires Field(key, Numeral(text)) in Fields(o, priceText)
    ensures NumeralText(PrintOrder(o, priceText), key) == NumeralPrefix(text)
  {
    var fs := Fields(o, priceText);
    FieldsValid(o, priceText);
    var k :| 0 <= k < |fs| && fs[k] == Field(key, Numeral(text));
    NumeralFieldRoundTripIff(fs, k);
  }

  lemma DroppedField(o: Order, priceText: string, key: string)
    requires PrintablePrice(priceText) && IsKey(key)
    requires forall f | f in Fields(o, priceText) :: f.key != key
    ensures GetJsonString(PrintOrder(o, priceText), key) == ""
    ensures NumeralText(PrintOrder(o, priceText), key) == ""
  {
    FieldsValid(o, priceText);
    AbsentKeyExtractsNothing(Fields(o, priceText), key);
  }

  lemma OptionalStringOf(o: Order, priceText: string, key: string, s: string)
    requires PrintablePrice(priceText) && IsKey(key)
    requires s != "" ==> Field(key, Text(s)) in Fields(o, priceText)
    requires s == "" ==> forall f | f in Fields(o, priceText) :: f.key != key
    ensures GetJsonString(PrintOrder(o, priceText), key) == s <==> Plain(s)
  {
    if s == "" {
      DroppedField(o, priceText, key);
    } else {
      StringFieldOf(o, priceText, key, s);
    }
  }

  lemma NoFieldWithKey(o: Order, priceText: string, key: string)
    requires (key == "side" && o.side == "") || (key == "price" && o.price == 0.0)
             || (key == "quantity" && o.quantity == 0) || (key == "cancel_target_id" && o.cancelTargetID == "")
    ensures forall f | f in Fields(o, priceText) :: f.key != key
  {
    forall f | f in Fields(o, priceText)
      ensures f.key != key
    {
      FieldsAre(o, priceText, f);
    }
  }

  /** For every order, each string field is read back exactly when it is free of escaped characters, whatever
      the other fields hold; a field dropped by omitempty reads as "". In particular "id" is never taken for
      "cancel_target_id". */
  lemma OrderStringsRoundTripIff(o: Order, priceText: string)
    requires PrintablePrice(priceText)
    ensures GetJsonString(PrintOrder(o, priceText), "id") == o.id <==> Plain(o.id)
    ensures GetJsonString(PrintOrder(o, priceText), "type") == o.kind <==> Plain(o.kind)
    ensures GetJsonString(PrintOrder(o, priceText), "side") == o.side <==> Plain(o.side)
    ensures GetJsonString(PrintOrder(o, priceText), "cancel_target_id") == o.cancelTargetID
            <==> Plain(o.cancelTargetID)
  {
    KeysAreKeys();
    FieldsAre(o, priceText, Field("id", Text(o.id)));
    StringFieldOf(o, priceText, "id", o.id);
    FieldsAre(o, priceText, Field("type", Text(o.kind)));
    StringFieldOf(o, priceText, "type", o.kind);
    FieldsAre(o, priceText, Field("side", Text(o.side)));
    if o.side == "" {
      NoFieldWithKey(o, priceText, "side");
    }
    OptionalStringOf(o, priceText, "side", o.side);
    FieldsAre(o, priceText, Field("cancel_target_id", Text(o.cancelTargetID)));
    if o.cancelTargetID == "" {
      NoFieldWithKey(o, priceText, "cancel_target_id");
    }
    OptionalStringOf(o, priceText, "cancel_target_id", o.cancelTargetID);
  }

  /** For every order the text read for the quantity is the quantity's, and for the price it is the longest
      prefix of the printed price without an exponent; a dropped zero reads as "". */
  lemma OrderNumbersRoundTrip(o: Order, priceText: string)
    requires PrintablePrice(priceText)
    ensures NumeralText(PrintOrder(o, priceText), "quantity") == if o.quantity == 0 then "" else IntText(o.quantity)
    ensures NumeralText(PrintOrder(o, priceText), "price")
            == if o.price == 0.0 then "" else NumeralPrefix(priceText)
    ensures NumeralText(PrintOrder(o, priceText), "timestamp") == IntText(o.timestamp)
  {
    FieldsAre(o, priceText, Field("timestamp", Numeral(IntText(o.timestamp))));
    NumeralFieldOf(o, priceText, "timestamp", IntText(o.timestamp));
    IntTextPlain(o.timestamp);
    PrefixIsWholeIff(IntText(o.timestamp));
    KeysAreKeys();
    IntTextPlain(o.quantity);
    PrefixIsWholeIff(IntText(o.quantity));
    if o.quantity == 0 {
      NoFieldWithKey(o, priceText, "quantity");
      DroppedField(o, priceText, "quantity");
    } else {
      FieldsAre(o, priceText, Field("quantity", Numeral(IntText(o.quantity))));
      NumeralFieldOf(o, priceText, "quantity", IntText(o.quantity));
    }
    if o.price == 0.0 {
      NoFieldWithKey(o, priceText, "price");
      DroppedField(o, priceText, "price");
    } else {
      FieldsAre(o, priceText, Field("price", Numeral(priceText)));
      NumeralFieldOf(o, priceText, "price", priceText);
    }
  }

  lemma OrderIDPlain(index: nat)
    ensures Plain(OrderID(index))
  {
    forall i | 0 <= i < |OrderID(index)|
      ensures !IsSpecial(OrderID(index)[i])
    {
      if i >= 4 {
        assert OrderID(index)[i] == NatText(index)[i - 4];
      }
    }
  }

  lemma CentsTextNumeral(cents: nat)
    ensures PrintablePrice(CentsText(cents)) && IsNumeral(CentsText(cents))
  {
    DigitsAreNumeral(NatText(cents / 100));
    DigitsAreNumeral([Digit(cents / 10 % 10)]);
    DigitsAreNumeral([Digit(cents / 10 % 10), Digit(cents % 10)]);
  }

  lemma DigitsAreNumeral(s: string)
    requires AllDigits(s)
    ensures IsNumeral(s) && '"' !in s
  {
  }

  lemma GeneratedStringsPlain(index: nat, d: Draws, now: int)
    ensures var o := GenerateOrder(index, d, now);
            Plain(o.id) && Plain(o.kind) && Plain(o.side) && Plain(o.cancelTargetID)
  {
    OrderIDPlain(index);
    OrderIDPlain(if index > 1 then d.target + 1 else 1);
    GeneratedWords(index, d, now);
    WordsPlain();
  }

  lemma GeneratedWords(index: nat, d: Draws, now: int)
    ensures var o := GenerateOrder(index, d, now);
            && (o.kind == "CANCEL" || o.kind == "MARKET" || o.kind == "LIMIT")
            && (o.side == "" || o.side == "SELL" || o.side == "BUY")
            && (o.cancelTargetID == "" || o.cancelTargetID == OrderID(if index > 1 then d.target + 1 else 1))
  {
  }

  lemma WordsPlain()
    ensures Plain("CANCEL") && Plain("MARKET") && Plain("LIMIT") && Plain("SELL") && Plain("BUY") && Plain("")
  {
  }

  /** Every order the fleet generates is read back whole: all four strings ... */
  lemma GeneratedStringsReadBack(index: nat, d: Draws, now: int)
    requires index >= 1 && Drawable(index, d)
    ensures CentsOf(d.price) >= 0
    ensures var o := GenerateOrder(index, d, now);
            var json := PrintOrder(o, CentsText(CentsOf(d.price)));
            && GetJsonString(json, "id") == o.id
            && GetJsonString(json, "type") == o.kind
            && GetJsonString(json, "side") == o.side
            && GetJsonString(json, "cancel_target_id") == o.cancelTargetID
  {
    CentsInRange(d.price);
    CentsTextNumeral(CentsOf(d.price));
    GeneratedStringsPlain(index, d, now);
    OrderStringsRoundTripIff(GenerateOrder(index, d, now), CentsText(CentsOf(d.price)));
  }

  /** ... the quantity, and a price text that denotes exactly its price; a CANCEL reads as having neither. */
  lemma GeneratedNumbersReadBack(index: nat, d: Draws, now: int)
    requires index >= 1 && Drawable(index, d)
    ensures CentsOf(d.price) >= 0
    ensures var o := GenerateOrder(index, d, now);
            var json := PrintOrder(o, CentsText(CentsOf(d.price)));
            && (o.kind == "CANCEL" ==> NumeralText(json, "quantity") == "" && NumeralText(json, "price") == "")
            && (o.kind != "CANCEL" ==>
                  && AllDigits(NumeralText(json, "quantity"))
                  && NatValue(NumeralText(json, "quantity")) == o.quantity
                  && Denotes(NumeralText(json, "price"), o.price))
  {
    CentsInRange(d.price);
    CentsTextNumeral(CentsOf(d.price));
    var o := GenerateOrder(index, d, now);
    OrderNumbersRoundTrip(o, CentsText(CentsOf(d.price)));
    if o.kind != "CANCEL" {
      GeneratedNumbers(index, d, now);
      PriceReadBack(CentsOf(d.price));
      NatRoundTrip(o.quantity);
    }
  }

  lemma GeneratedNumbers(index: nat, d: Draws, now: int)
    requires Drawable(index, d)
    ensures var o := GenerateOrder(index, d, now);
            o.kind != "CANCEL" ==>
              && o.quantity > 0 && IntText(o.quantity) == NatText(o.quantity)
              && o.price == Hundredths(CentsOf(d.price))
  {
  }

  lemma PriceReadBack(cents: nat)
    requires cents > 0
    ensures Hundredths(cents) > 0.0
    ensures NumeralPrefix(CentsText(cents)) == CentsText(cents)
    ensures Denotes(CentsText(cents), Hundredths(cents))
  {
    CentsTextNumeral(cents);
    PrefixIsWholeIff(CentsText(cents));
    CentsTextDenotes(cents);
  }

  // ---- The worker ----

  /** What an HTTP call gives the worker: a transport error, or a status and a body. */
  datatype HttpResult = TransportError | Response(status: int, body: Option<TargetResponse>)

  function Endpoint(o: Order): string {
    if o.kind == "CANCEL" then "/cancel" else "/order"
  }

  /** The telemetry event for an order sent at `sentAt` and answered at `ackAt`, both in nanoseconds. */
  function EventFor(runID: string, submissionID: string, o: Order, sentAt: int, ackAt: int, r: HttpResult): OrderEvent
    requires sentAt <= ackAt
  {
    var status := if r.Response? then r.status else 0;
    OrderEvent(
      runID, o.id, submissionID, o.kind, o.timestamp, sentAt, ackAt, (ackAt - sentAt) / 1_000_000, status,
      status == 200 || status == 201,
      if r.Response? then r.body else None,
      200)
  }

  /** The event, field by field: it is successful exactly when an answer came with status 200 or 201. */
  lemma EventInFields(runID: string, submissionID: string, o: Order, sentAt: int, ackAt: int, r: HttpResult)
    requires sentAt <= ackAt
    ensures var e := EventFor(runID, submissionID, o, sentAt, ackAt, r);
            && e.runID == runID && e.submissionID == submissionID
            && e.orderID == o.id && e.kind == o.kind && e.timestamp == o.timestamp
            && e.sentAt == sentAt && e.ackAt == ackAt
            && e.latencyMs * 1_000_000 <= ackAt - sentAt < (e.latencyMs + 1) * 1_000_000
            && (e.isSuccessful <==> r.Response? && (r.status == 200 || r.status == 201))
            && (r.Response? ==> e.statusCode == r.status && e.body == r.body)
            && (r.TransportError? ==> e.statusCode == 0 && e.body.None?)
            && e.expectedStatus == 200
  {
  }

  lemma EndpointInFields(o: Order)
    ensures Endpoint(o) == "/cancel" <==> o.kind == "CANCEL"
    ensures Endpoint(o) == "/order" <==> o.kind != "CANCEL"
  {
    assert "/cancel"[1] != "/order"[1];
  }

  const RETRY_DELAY_MS := 100

  /** The worker's publish loop: up to three attempts, doubling the pause after each failure but the last.
      `accepted[k]` says whether the broker takes attempt `k`. It settles the order as the load test's publish
      steps do (Fleet.Settled). */
  method PublishWithRetry(accepted: seq<bool>) returns (failed: bool, attempts: nat, sleptMs: nat)
    requires |accepted| == Fleet.MAX_ATTEMPTS
    ensures Fleet.Settled(accepted) == if failed then Fleet.PublishFailed else Fleet.Published
    ensures 1 <= attempts <= Fleet.MAX_ATTEMPTS
    ensures forall k | 0 <= k < attempts - 1 :: !accepted[k]
    ensures !failed ==> accepted[attempts - 1]
    ensures failed ==> attempts == Fleet.MAX_ATTEMPTS && !accepted[attempts - 1]
    ensures |accepted| == 3 && (failed <==> !accepted[0] && !accepted[1] && !accepted[2])
    ensures sleptMs == if attempts == 1 then 0 else if attempts == 2 then 100 else 300
  {
    Powers();
    var retryDelay := RETRY_DELAY_MS;
    sleptMs := 0;
    var attempt := 0;
    failed := false;
    while attempt < Fleet.MAX_ATTEMPTS
      invariant 0 <= attempt <= Fleet.MAX_ATTEMPTS
      invariant forall k | 0 <= k < attempt :: !accepted[k]
      invariant attempt > 0 ==> failed
      invariant attempt < Fleet.MAX_ATTEMPTS ==> retryDelay == RETRY_DELAY_MS * Pow2(attempt)
      invariant attempt < Fleet.MAX_ATTEMPTS ==> sleptMs == RETRY_DELAY_MS * (Pow2(attempt) - 1)
      invariant attempt == Fleet.MAX_ATTEMPTS ==> sleptMs == RETRY_DELAY_MS * (Pow2(attempt - 1) - 1)
    {
      failed := !accepted[attempt];
      if !failed {
        return failed, attempt + 1, sleptMs;
      }
      if attempt < Fleet.MAX_ATTEMPTS - 1 {
        sleptMs := sleptMs + retryDelay;
        retryDelay := retryDelay * 2;
      }
      attempt := attempt + 1;
    }
    attempts := attempt;
  }

  lemma Powers()
    ensures Pow2(0) == 1 && Pow2(1) == 2 && Pow2(2) == 4
  {
    assert Pow2(1) == 2 * Pow2(0);
    assert Pow2(2) == 2 * Pow2(1);
  }

  function Pow2(n: nat): nat {
    if n == 0 then 1 else 2 * Pow2(n - 1)
  }
}
