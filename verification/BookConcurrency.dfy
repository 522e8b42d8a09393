/** Any number of ValidateOrder calls interleaved at their lock-protected sections. */
module BookConcurrency {
  import opened Events
  import opened BookModel
  import opened BookHistory

  /** Where a call stands: before its first section, before resting, before dropping a full fill, or returned. */
  datatype Pc =
    | AtStart
    | AtRest(resp: TargetResponse)
    | AtFill(resp: TargetResponse)
    | Returned(verdict: bool)

  datatype Call = Call(event: OrderEvent, pc: Pc)

  /** A write and the call that made it. */
  datatype Write = Write(call: nat, effect: Effect)

  /** `log` records the writes in the order the mutex let them through. */
  datatype System = System(book: Book, calls: seq<Call>, log: seq<Write>)

  function SectionWrite(c: Call): Effect {
    match c.pc
    case AtStart => if Screen(c.event).CancelAccepted? then Clear(c.event.orderID) else Keep
    case AtRest(r) => RestEffect(r)
    case AtFill(r) => FillEffect(r)
    case Returned(_) => Keep
  }

  function SectionExit(b: Book, c: Call): Pc {
    match c.pc
    case AtStart =>
      (match Screen(c.event)
       case Refused => Returned(false)
       case CancelAccepted(_) => Returned(true)
       case OrderChecked(r) =>
         if TradesAtLimit(r) && !NothingBeats(b, SideOf(r), r.executionPrice) then Returned(false) else AtRest(r))
    case AtRest(r) => AtFill(r)
    case AtFill(r) => Returned(true)
    case Returned(v) => Returned(v)
  }

  function Step(s: System, i: nat): System
    requires i < |s.calls|
  {
    var c := s.calls[i];
    var f := SectionWrite(c);
    System(
      ApplyEffect(s.book, f),
      s.calls[i := c.(pc := SectionExit(s.book, c))],
      if f == Keep then s.log else s.log + [Write(i, f)])
  }

  function Start(events: seq<OrderEvent>): System {
    System(EMPTY_BOOK, seq(|events|, i requires 0 <= i < |events| => Call(events[i], AtStart)), [])
  }

  /** What each locked section writes, in the fields of the answer, and where the call stands after it. */
  lemma SectionInFields(b: Book, c: Call)
    ensures c.pc.AtStart? ==>
              && SectionWrite(c) == (if Screen(c.event).CancelAccepted? then Clear(c.event.orderID) else Keep)
              && (Screen(c.event).CancelAccepted? ==> SectionExit(b, c) == Returned(true))
    ensures c.pc.AtRest? ==>
              var r := c.pc.resp;
              && SectionExit(b, c) == AtFill(r)
              && SectionWrite(c)
                 == if r.kind == "LIMIT" && r.filledQty < r.orderedQty && r.status != "REJECTED"
                    then Rest(if r.side == "BUY" then Buy else Sell, r.orderID, r.price, r.orderedQty - r.filledQty)
                    else Keep
    ensures c.pc.AtFill? ==>
              var r := c.pc.resp;
              && SectionExit(b, c) == Returned(true)
              && SectionWrite(c) == if r.filledQty == r.orderedQty then Clear(r.orderID) else Keep
  {
  }

  predicate Schedules(events: seq<OrderEvent>, schedule: seq<nat>) {
    forall k | 0 <= k < |schedule| :: schedule[k] < |events|
  }

  function Exec(events: seq<OrderEvent>, schedule: seq<nat>): (s: System)
    requires Schedules(events, schedule)
    ensures |s.calls| == |events|
  {
    if schedule == [] then Start(events)
    else
      var n := |schedule| - 1;
      Step(Exec(events, schedule[..n]), schedule[n])
  }

  // ---- Safety of every interleaving ----

  lemma {:induction false} EveryInterleavingWellFormed(events: seq<OrderEvent>, schedule: seq<nat>)
    requires Schedules(events, schedule)
    ensures WellFormed(Exec(events, schedule).book)
  {
    if schedule != [] {
      var n := |schedule| - 1;
      EveryInterleavingWellFormed(events, schedule[..n]);
      var s := Exec(events, schedule[..n]);
      EffectKeepsWellFormed(s.book, SectionWrite(s.calls[schedule[n]]));
    }
  }

  function Effects(log: seq<Write>): (fs: seq<Effect>)
    ensures |fs| == |log|
  {
    seq(|log|, k requires 0 <= k < |log| => log[k].effect)
  }

  lemma {:induction false} BookIsReplayOfLog(events: seq<OrderEvent>, schedule: seq<nat>)
    requires Schedules(events, schedule)
    ensures Exec(events, schedule).book == Replay(Effects(Exec(events, schedule).log))
  {
    if schedule != [] {
      var n := |schedule| - 1;
      BookIsReplayOfLog(events, schedule[..n]);
      var s := Exec(events, schedule[..n]);
      var t := Exec(events, schedule);
      if t.log != s.log {
        assert Effects(t.log)[..|s.log|] == Effects(s.log);
      } else {
        assert t.book == s.book;
      }
    }
  }

  /** The writes one call has made so far. */
  function WritesBy(log: seq<Write>, i: nat): seq<Effect> {
    if log == [] then []
    else
      var n := |log| - 1;
      WritesBy(log[..n], i) + (if log[n].call == i then [log[n].effect] else [])
  }

  function Nontrivial(f: Effect): seq<Effect> {
    if f == Keep then [] else [f]
  }

  /** What a call that stands at `c.pc` must have written. */
  function OwedWrites(c: Call): seq<Effect> {
    match c.pc
    case AtStart => []
    case AtRest(_) => []
    case AtFill(r) => Nontrivial(RestEffect(r))
    case Returned(false) => []
    case Returned(true) =>
      if Screen(c.event).CancelAccepted? then [Clear(c.event.orderID)]
      else if c.event.body.Some? then Nontrivial(OrderEffect(c.event.body.value))
      else []
  }

  predicate OnCourse(c: Call) {
    match c.pc
    case AtStart => true
    case AtRest(r) => Screen(c.event) == OrderChecked(r)
    case AtFill(r) => Screen(c.event) == OrderChecked(r)
    case Returned(v) => v ==> !Screen(c.event).Refused?
  }

  lemma SectionOwes(b: Book, c: Call)
    requires OnCourse(c)
    ensures OnCourse(c.(pc := SectionExit(b, c)))
    ensures OwedWrites(c.(pc := SectionExit(b, c))) == OwedWrites(c) + Nontrivial(SectionWrite(c))
  {
    match c.pc
    case AtStart =>
    case AtRest(r) =>
    case AtFill(r) =>
    case Returned(_) =>
  }

  /** Whatever the interleaving, a refused call writes nothing and an accepted one writes exactly what it
      would have written alone. */
  lemma {:induction false} EachCallWritesItsOwnEffect(events: seq<OrderEvent>, schedule: seq<nat>, i: nat)
    requires Schedules(events, schedule) && i < |events|
    ensures var s := Exec(events, schedule);
            s.calls[i].event == events[i] && OnCourse(s.calls[i]) && WritesBy(s.log, i) == OwedWrites(s.calls[i])
  {
    if schedule != [] {
      var n := |schedule| - 1;
      EachCallWritesItsOwnEffect(events, schedule[..n], i);
      var s := Exec(events, schedule[..n]);
      var t := Exec(events, schedule);
      if t.log != s.log {
        assert t.log[..|s.log|] == s.log;
      }
      if schedule[n] == i {
        SectionOwes(s.book, s.calls[i]);
      }
    }
  }

  /** Resting ids under any interleaving: put there by a write that no later write cleared. */
  lemma InterleavedMapsAgreeWithLog(events: seq<OrderEvent>, schedule: seq<nat>, side: Side, id: string)
    requires Schedules(events, schedule)
    ensures var s := Exec(events, schedule);
            && (id in Own(s.book, side) <==>
                exists k :: RestsAt(Effects(s.log), k, side, id) && NoClearAfter(Effects(s.log), k, id))
            && s.book.sequence == RestCount(Effects(s.log))
  {
    BookIsReplayOfLog(events, schedule);
    RestingIffWritten(Effects(Exec(events, schedule).log), side, id);
    SequenceCountsRests(Effects(Exec(events, schedule).log));
  }

  // ---- Progress ----

  function TurnsOf(schedule: seq<nat>, i: nat): nat {
    if schedule == [] then 0
    else TurnsOf(schedule[..|schedule| - 1], i) + (if schedule[|schedule| - 1] == i then 1 else 0)
  }

  function SectionsLeft(pc: Pc): nat {
    match pc
    case AtStart => 3
    case AtRest(_) => 2
    case AtFill(_) => 1
    case Returned(_) => 0
  }

  /** A call returns after at most three turns of its own, whatever the others do in between. */
  lemma {:induction false} CallsReturn(events: seq<OrderEvent>, schedule: seq<nat>, i: nat)
    requires Schedules(events, schedule) && i < |events|
    ensures SectionsLeft(Exec(events, schedule).calls[i].pc) <= 3
    ensures SectionsLeft(Exec(events, schedule).calls[i].pc) + TurnsOf(schedule, i) <= 3
            || Exec(events, schedule).calls[i].pc.Returned?
  {
    if schedule != [] {
      CallsReturn(events, schedule[..|schedule| - 1], i);
    }
  }

  /** A call left alone for its three turns does exactly what the sequential model says. */
  lemma UninterruptedCallIsSequential(s: System, i: nat)
    requires i < |s.calls| && s.calls[i].pc == AtStart
    ensures var t := Step(Step(Step(s, i), i), i);
            t.book == After(s.book, s.calls[i].event) && t.calls[i].pc == Returned(Verdict(s.book, s.calls[i].event))
  {
    var c := s.calls[i];
    var t1 := Step(s, i);
    var t2 := Step(t1, i);
    match Screen(c.event)
    case Refused =>
      assert t1.calls[i].pc == Returned(false) && t2.calls[i].pc == Returned(false);
    case CancelAccepted(id) =>
      assert t1.calls[i].pc == Returned(true) && t2.calls[i].pc == Returned(true);
    case OrderChecked(r) =>
      if Verdict(s.book, c.event) {
        assert t1.calls[i].pc == AtRest(r) && t2.calls[i].pc == AtFill(r);
      } else {
        assert t1.calls[i].pc == Returned(false) && t2.calls[i].pc == Returned(false);
      }
  }

  // ---- When the book can cross under interleaving ----

  /** Event `i` passes the tests on the event alone and leaves a remainder to rest on `side`. */
  predicate WouldRest(events: seq<OrderEvent>, i: nat, side: Side) {
    && i < |events|
    && Screen(events[i]).OrderChecked?
    && var r := Screen(events[i]).resp;
       && r.kind == "LIMIT" && r.filledQty < r.orderedQty && r.status != "REJECTED"
       && r.side == (if side == Buy then "BUY" else "SELL")
  }

  predicate CrossingPair(events: seq<OrderEvent>, i: nat, j: nat) {
    && WouldRest(events, i, Sell) && WouldRest(events, j, Buy)
    && Screen(events[i]).resp.price < Screen(events[j]).resp.price
  }

  ghost predicate NoCrossingPair(events: seq<OrderEvent>) {
    forall i: nat, j: nat :: !CrossingPair(events, i, j)
  }

  /** Some event would rest on `side` at this price. */
  ghost predicate IsRestPrice(events: seq<OrderEvent>, side: Side, price: real) {
    exists i: nat :: WouldRest(events, i, side) && Screen(events[i]).resp.price == price
  }

  ghost predicate PricesFromEvents(events: seq<OrderEvent>, b: Book, side: Side) {
    forall id | id in Own(b, side) :: IsRestPrice(events, side, Own(b, side)[id].price)
  }

  lemma WriteKeepsPrices(events: seq<OrderEvent>, b: Book, f: Effect, side: Side)
    requires PricesFromEvents(events, b, side)
    requires f.Rest? && f.side == side ==> IsRestPrice(events, side, f.price)
    ensures PricesFromEvents(events, ApplyEffect(b, f), side)
  {
    var c := ApplyEffect(b, f);
    forall id | id in Own(c, side)
      ensures IsRestPrice(events, side, Own(c, side)[id].price)
    {
      if !(f.Rest? && f.side == side && f.id == id) {
        assert id in Own(b, side) && Own(c, side)[id] == Own(b, side)[id];
      }
    }
  }

  lemma SectionRests(events: seq<OrderEvent>, i: nat, c: Call, side: Side)
    requires i < |events| && c.event == events[i] && OnCourse(c)
    requires SectionWrite(c).Rest? && SectionWrite(c).side == side
    ensures IsRestPrice(events, side, SectionWrite(c).price)
  {
    assert WouldRest(events, i, side);
  }

  lemma {:induction false} RestingPricesFromEvents(events: seq<OrderEvent>, schedule: seq<nat>, side: Side)
    requires Schedules(events, schedule)
    ensures PricesFromEvents(events, Exec(events, schedule).book, side)
  {
    if schedule != [] {
      var n := |schedule| - 1;
      var i := schedule[n];
      var s := Exec(events, schedule[..n]);
      RestingPricesFromEvents(events, schedule[..n], side);
      EachCallWritesItsOwnEffect(events, schedule[..n], i);
      var f := SectionWrite(s.calls[i]);
      if f.Rest? && f.side == side {
        SectionRests(events, i, s.calls[i], side);
      }
      WriteKeepsPrices(events, s.book, f, side);
    }
  }

  lemma ExecSnoc(events: seq<OrderEvent>, schedule: seq<nat>, i: nat)
    requires Schedules(events, schedule) && i < |events|
    ensures Schedules(events, schedule + [i])
    ensures Exec(events, schedule + [i]) == Step(Exec(events, schedule), i)
  {
    assert (schedule + [i])[..|schedule|] == schedule;
  }

  /** One turn for each of two calls. */
  function BothStep(s: System, i: nat, j: nat): System
    requires i < |s.calls| && j < |s.calls|
  {
    Step(Step(s, i), j)
  }

  lemma ExecBoth(events: seq<OrderEvent>, schedule: seq<nat>, i: nat, j: nat)
    requires Schedules(events, schedule) && i < |events| && j < |events|
    ensures Schedules(events, schedule + [i] + [j])
    ensures Exec(events, schedule + [i] + [j]) == BothStep(Exec(events, schedule), i, j)
  {
    ExecSnoc(events, schedule, i);
    ExecSnoc(events, schedule + [i], j);
  }

  predicate BothAt(s: System, i: nat, j: nat, p: Pc, q: Pc) {
    i < |s.calls| && j < |s.calls| && s.calls[i].pc == p && s.calls[j].pc == q
  }

  lemma ChecksOnEmptyBook(c: Call)
    requires c.pc == AtStart && Screen(c.event).OrderChecked?
    ensures SectionWrite(c) == Keep
    ensures SectionExit(EMPTY_BOOK, c) == AtRest(Screen(c.event).resp)
  {
  }

  lemma BothCheck(s: System, i: nat, j: nat)
    requires i != j && BothAt(s, i, j, AtStart, AtStart) && s.book == EMPTY_BOOK
    requires Screen(s.calls[i].event).OrderChecked? && Screen(s.calls[j].event).OrderChecked?
    ensures BothAt(BothStep(s, i, j), i, j, AtRest(Screen(s.calls[i].event).resp), AtRest(Screen(s.calls[j].event).resp))
    ensures BothStep(s, i, j).book == EMPTY_BOOK
  {
    ChecksOnEmptyBook(s.calls[i]);
    ChecksOnEmptyBook(s.calls[j]);
  }

  lemma BothRest(s: System, i: nat, j: nat, sell: TargetResponse, buy: TargetResponse)
    requires i != j && BothAt(s, i, j, AtRest(sell), AtRest(buy)) && s.book == EMPTY_BOOK
    ensures BothAt(BothStep(s, i, j), i, j, AtFill(sell), AtFill(buy))
    ensures BothStep(s, i, j).book == ApplyEffect(ApplyEffect(EMPTY_BOOK, RestEffect(sell)), RestEffect(buy))
  {
  }

  lemma BothFinish(s: System, i: nat, j: nat, sell: TargetResponse, buy: TargetResponse)
    requires i != j && BothAt(s, i, j, AtFill(sell), AtFill(buy))
    requires sell.filledQty < sell.orderedQty && buy.filledQty < buy.orderedQty
    ensures BothAt(BothStep(s, i, j), i, j, Returned(true), Returned(true))
    ensures BothStep(s, i, j).book == s.book
  {
  }

  lemma RestingBothCrosses(sell: TargetResponse, buy: TargetResponse)
    requires LeavesRemainder(sell) && LeavesRemainder(buy)
    requires SideOf(sell) == Sell && SideOf(buy) == Buy && sell.price < buy.price
    ensures !Uncrossed(ApplyEffect(ApplyEffect(EMPTY_BOOK, RestEffect(sell)), RestEffect(buy)))
  {
    var one := ApplyEffect(EMPTY_BOOK, RestEffect(sell));
    var two := ApplyEffect(one, RestEffect(buy));
    assert two.bids[buy.orderID].price > two.asks[sell.orderID].price;
  }

  /** Among any number of calls, two that would rest at crossing prices are both accepted and cross the book
      when both check before either writes. */
  lemma RaceCrosses(events: seq<OrderEvent>, i: nat, j: nat) returns (schedule: seq<nat>)
    requires CrossingPair(events, i, j)
    ensures Schedules(events, schedule)
    ensures BothAt(Exec(events, schedule), i, j, Returned(true), Returned(true))
    ensures !Uncrossed(Exec(events, schedule).book)
  {
    var sell, buy := Screen(events[i]).resp, Screen(events[j]).resp;
    var none: seq<nat> := [];
    var checked := none + [i] + [j];
    var rested := checked + [i] + [j];
    schedule := rested + [i] + [j];
    ExecBoth(events, none, i, j);
    BothCheck(Start(events), i, j);
    ExecBoth(events, checked, i, j);
    BothRest(Exec(events, checked), i, j, sell, buy);
    ExecBoth(events, rested, i, j);
    BothFinish(Exec(events, rested), i, j, sell, buy);
    RestingBothCrosses(sell, buy);
  }

  lemma CrossedHasPair(events: seq<OrderEvent>, b: Book)
    requires PricesFromEvents(events, b, Buy) && PricesFromEvents(events, b, Sell) && NoCrossingPair(events)
    ensures Uncrossed(b)
  {
    forall x, y | x in b.bids && y in b.asks
      ensures b.bids[x].price <= b.asks[y].price
    {
      assert x in Own(b, Buy) && y in Own(b, Sell);
      var i: nat :| WouldRest(events, i, Sell) && Screen(events[i]).resp.price == Own(b, Sell)[y].price;
      var j: nat :| WouldRest(events, j, Buy) && Screen(events[j]).resp.price == Own(b, Buy)[x].price;
      assert !CrossingPair(events, i, j);
    }
  }

  /** No interleaving of these calls crosses the book if and only if no SELL and BUY among them, each fit to be
      accepted and leaving a remainder, have crossing limit prices. The condition is on the events alone. */
  lemma InterleavingsUncrossedIff(events: seq<OrderEvent>)
    ensures (forall schedule | Schedules(events, schedule) :: Uncrossed(Exec(events, schedule).book))
            <==> NoCrossingPair(events)
  {
    if NoCrossingPair(events) {
      forall schedule | Schedules(events, schedule)
        ensures Uncrossed(Exec(events, schedule).book)
      {
        RestingPricesFromEvents(events, schedule, Buy);
        RestingPricesFromEvents(events, schedule, Sell);
        CrossedHasPair(events, Exec(events, schedule).book);
      }
    } else {
      var i: nat, j: nat :| CrossingPair(events, i, j);
      var schedule := RaceCrosses(events, i, j);
      assert Schedules(events, schedule);
    }
  }

  /** Run one call at a time, exact-price runs never cross (ExactPriceRunsUncrossed). Interleaved they can: the
      priority check and the resting write are separate sections. */
  lemma RacingExactPriceCallsCanCross() returns (events: seq<OrderEvent>, schedule: seq<nat>)
    ensures forall k | 0 <= k < |events| :: RestsAtExactPrice(events[k])
    ensures |events| == 2 && Schedules(events, schedule)
    ensures forall i | 0 <= i < 2 :: Exec(events, schedule).calls[i].pc == Returned(true)
    ensures !Uncrossed(Exec(events, schedule).book)
  {
    var sell := LimitEvent("ORD-1", "SELL", 10, 5, 5.0, 5.0);
    var buy := LimitEvent("ORD-2", "BUY", 10, 5, 8.0, 8.0);
    events := [sell, buy];
    assert CrossingPair(events, 0, 1);
    schedule := RaceCrosses(events, 0, 1);
  }
}
