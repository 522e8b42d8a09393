/** The validator's book as the service keeps it: two maps and a counter, updated in place. */
module OrderBookService {
  import opened Prelude
  import opened Events
  import opened BookModel
  import SliceSort

  class OrderBook {
    var bids: map<string, LimitEntry>
    var asks: map<string, LimitEntry>
    var sequence: int

    ghost function Value(): Book
      reads this
    {
      Book(bids, asks, sequence)
    }

    ghost predicate Valid()
      reads this
    {
      WellFormed(Value())
    }

    constructor ()
      ensures Valid() && Value() == EMPTY_BOOK
    {
      bids := map[];
      asks := map[];
      sequence := 0;
    }

    method ValidateOrder(event: OrderEvent) returns (ok: bool)
      requires Valid()
      modifies this
      ensures Valid()
      ensures ok == Verdict(old(Value()), event)
      ensures Value() == After(old(Value()), event)
    {
      EventKeepsWellFormed(Value(), event);
      if !event.isSuccessful {
        return false;
      }
      if event.statusCode != event.expectedStatus {
        return false;
      }
      if event.body.None? {
        return false;
      }
      var resp := event.body.value;
      if resp.orderID != event.orderID {
        return false;
      }
      if event.kind == "CANCEL" {
        if resp.status != "cancelled" {
          return false;
        }
        bids := bids - {event.orderID};
        asks := asks - {event.orderID};
        return true;
      }
      if resp.orderedQty < 0 || resp.filledQty < 0 {
        return false;
      }
      if resp.filledQty > resp.orderedQty {
        return false;
      }
      if resp.side != "BUY" && resp.side != "SELL" {
        return false;
      }
      if resp.kind == "LIMIT" && resp.filledQty > 0 {
        if resp.side == "BUY" && resp.executionPrice > resp.price {
          return false;
        }
        if resp.side == "SELL" && resp.executionPrice < resp.price {
          return false;
        }
      }
      if resp.filledQty == 0 && resp.status == "FILLED" {
        return false;
      }
      if resp.filledQty == resp.orderedQty && resp.orderedQty > 0 && resp.status == "REJECTED" {
        return false;
      }
      assert Screen(event) == OrderChecked(resp);
      if resp.kind == "LIMIT" && resp.filledQty > 0 {
        var inOrder, _ := ValidatePriceTimePriority(resp);
        if !inOrder {
          return false;
        }
      }
      Record(resp);
      return true;
    }

    /** The two sections that write after an order is accepted: rest a remainder, drop a completed order. */
    method Record(resp: TargetResponse)
      requires resp.side == "BUY" || resp.side == "SELL"
      modifies this
      ensures Value() == ApplyEffect(old(Value()), OrderEffect(resp))
      ensures var entry := LimitEntry(resp.orderID, resp.price, resp.orderedQty - resp.filledQty, old(sequence) + 1);
              if resp.kind == "LIMIT" && resp.filledQty < resp.orderedQty && resp.status != "REJECTED" then
                && sequence == old(sequence) + 1
                && bids == (if resp.side == "BUY" then old(bids)[resp.orderID := entry] else old(bids))
                && asks == (if resp.side == "SELL" then old(asks)[resp.orderID := entry] else old(asks))
              else if resp.filledQty == resp.orderedQty then
                sequence == old(sequence) && bids == old(bids) - {resp.orderID} && asks == old(asks) - {resp.orderID}
              else sequence == old(sequence) && bids == old(bids) && asks == old(asks)
    {
      if resp.kind == "LIMIT" && resp.filledQty < resp.orderedQty && resp.status != "REJECTED" {
        sequence := sequence + 1;
        var entry := LimitEntry(resp.orderID, resp.price, resp.orderedQty - resp.filledQty, sequence);
        if resp.side == "BUY" {
          bids := bids[resp.orderID := entry];
        } else {
          asks := asks[resp.orderID := entry];
        }
      }
      if resp.filledQty == resp.orderedQty {
        bids := bids - {resp.orderID};
        asks := asks - {resp.orderID};
      }
    }

    /** The map is walked in an arbitrary order and the candidates are sorted by an unstable sort; the
        verdict and the order reported as skipped depend on neither. */
    method ValidatePriceTimePriority(resp: TargetResponse) returns (ok: bool, skipped: Option<LimitEntry>)
      requires Valid()
      ensures ok <==> NothingBeats(Value(), SideOf(resp), resp.executionPrice)
      ensures ok <==> skipped.None?
      ensures !ok ==> IsBest(Value(), SideOf(resp), skipped.value)
      ensures !ok ==> Beats(SideOf(resp), skipped.value.price, resp.executionPrice)
    {
      var side := if resp.side == "BUY" then Buy else Sell;
      var opp := if resp.side == "BUY" then asks else bids;
      var better := CollectBetter(opp, side, resp.executionPrice);
      assert opp == Opposite(Value(), side);
      if |better| > 0 {
        assert better[0] in better;
        AheadIsStrictWeakOrder(side);
        var a := new LimitEntry[|better|](i requires 0 <= i < |better| => better[i]);
        assert a[..] == better;
        var before := (x, y) => Ahead(side, x, y);
        SliceSort.Sort(a, before);
        FirstOfSortedIsBest(Value(), side, resp.executionPrice, better, a[..]);
        assert a[0].orderID in Opposite(Value(), side);
        return false, Some(a[0]);
      }
      assert forall id | id in opp :: !Beats(side, opp[id].price, resp.executionPrice) by {
        forall id | id in opp
          ensures !Beats(side, opp[id].price, resp.executionPrice)
        {
          assert opp[id] !in better;
        }
      }
      return true, None;
    }
  }

  /** `for _, entry := range side { if better { append } }`, with the range order left open. */
  method CollectBetter(opp: map<string, LimitEntry>, side: Side, q: real) returns (better: seq<LimitEntry>)
    ensures forall x :: x in better <==> exists id :: id in opp && opp[id] == x && Beats(side, x.price, q)
  {
    better := [];
    var todo := opp.Keys;
    while todo != {}
      invariant todo <= opp.Keys
      invariant forall x :: x in better <==>
        exists id :: id in opp && id !in todo && opp[id] == x && Beats(side, x.price, q)
      decreases todo
    {
      var id :| id in todo;
      todo := todo - {id};
      ghost var before := better;
      if Beats(side, opp[id].price, q) {
        better := better + [opp[id]];
      }
      forall x
        ensures x in better <==> exists k :: k in opp && k !in todo && opp[k] == x && Beats(side, x.price, q)
      {
        if x in better && x !in before {
          assert opp[id] == x;
        }
      }
    }
  }

  /** Price-then-sequence is an order on any entries, so `sort.Slice` may be given it. */
  lemma AheadIsStrictWeakOrder(side: Side)
    ensures SliceSort.StrictWeakOrder((x, y) => Ahead(side, x, y))
  {
  }

  lemma FirstOfSortedIsBest(b: Book, side: Side, q: real, better: seq<LimitEntry>, sorted: seq<LimitEntry>)
    requires WellFormed(b)
    requires better != []
    requires forall x :: x in better <==>
      exists id :: id in Opposite(b, side) && Opposite(b, side)[id] == x && Beats(side, x.price, q)
    requires multiset(sorted) == multiset(better)
    requires forall i, j :: 0 <= i < j < |sorted| ==> !Ahead(side, sorted[j], sorted[i])
    ensures |sorted| == |better|
    ensures IsBest(b, side, sorted[0]) && Beats(side, sorted[0].price, q)
  {
    assert |sorted| == |multiset(sorted)| == |multiset(better)| == |better|;
    var opp := Opposite(b, side);
    var x := sorted[0];
    assert x in multiset(better);
    forall id | id in opp && opp[id] != x
      ensures Ahead(side, x, opp[id])
    {
      if Beats(side, opp[id].price, q) {
        assert opp[id] in better;
        assert opp[id] in multiset(sorted);
        var j :| 0 <= j < |sorted| && sorted[j] == opp[id];
        assert !Ahead(side, sorted[j], sorted[0]);
      }
    }
  }
}
