/** One REST load test as an interleaved step system: a producer, a token feeder driven by a ticker, and any
    number of bots sharing a bounded job channel, a lossy token channel and a failure counter. */
module Fleet {
  import opened Prelude

  datatype Config = Config(numBots: nat, numOrders: nat, tps: nat)

  const MAX_NUM_BOTS := 1000
  const MAX_NUM_ORDERS := 1000000
  const MAX_TPS := 50000

  /** What the run handler lets through. */
  predicate Admitted(c: Config) {
    1 <= c.numBots <= MAX_NUM_BOTS && 1 <= c.numOrders <= MAX_NUM_ORDERS && 1 <= c.tps <= MAX_TPS
  }

  const MAX_ATTEMPTS := 3

  /** What became of an order: published, given up after the last attempt, or dropped by a marshal or request error. */
  datatype Outcome = Published | PublishFailed | Skipped

  /** How the broker's answers to the attempts in turn settle an order. */
  function Settled(accepted: seq<bool>): Outcome {
    if exists k | 0 <= k < |accepted| :: accepted[k] then Published else PublishFailed
  }

  /** A bot: ranging over the jobs, waiting for a token, holding order and token, retrying a publish, returned. */
  datatype Bot =
    | Idle
    | Waiting(order: nat)
    | Holding(order: nat)
    | Publishing(order: nat, attempt: nat)
    | Exited

  /** `next` is the next order index to queue; `result` is set when the load test returns and says whether the
      returned error is nil. `ticks`, `takes`, `dropped` and `outcomes` record what happened. */
  datatype State = State(
    next: nat,
    jobs: seq<nat>,
    closed: bool,
    bots: seq<Bot>,
    tokens: nat,
    feeding: bool,
    cancelled: bool,
    publishFailures: nat,
    result: Option<bool>,
    ticks: nat,
    takes: nat,
    dropped: nat,
    outcomes: map<nat, Outcome>)

  datatype Action =
    | Tick
    | StopFeeding
    | Produce
    | Close
    | Receive(w: nat)
    | Exit(w: nat)
    | TakeToken(w: nat)
    | Skip(w: nat)
    | Send(w: nat)
    | Publish(w: nat, ok: bool)
    | Return

  function Init(c: Config): State {
    State(1, [], false, seq(c.numBots, _ => Idle), 0, true, false, 0, None, 0, 0, 0, map[])
  }

  predicate Enabled(c: Config, s: State, a: Action) {
    match a
    case Tick => s.feeding
    case StopFeeding => s.feeding && s.cancelled
    case Produce => s.next <= c.numOrders && |s.jobs| < c.numOrders
    case Close => s.next == c.numOrders + 1 && !s.closed
    case Receive(w) => w < |s.bots| && s.bots[w].Idle? && s.jobs != []
    case Exit(w) => w < |s.bots| && s.bots[w].Idle? && s.jobs == [] && s.closed
    case TakeToken(w) => w < |s.bots| && s.bots[w].Waiting? && s.tokens > 0
    case Skip(w) => w < |s.bots| && s.bots[w].Holding?
    case Send(w) => w < |s.bots| && s.bots[w].Holding?
    case Publish(w, _) => w < |s.bots| && s.bots[w].Publishing?
    case Return => s.closed && s.result.None? && forall w | 0 <= w < |s.bots| :: s.bots[w].Exited?
  }

  function Next(c: Config, s: State, a: Action): State
    requires Enabled(c, s, a)
  {
    match a
    case Tick =>
      if s.tokens < c.tps then s.(ticks := s.ticks + 1, tokens := s.tokens + 1)
      else s.(ticks := s.ticks + 1, dropped := s.dropped + 1)
    case StopFeeding => s.(feeding := false)
    case Produce => s.(jobs := s.jobs + [s.next], next := s.next + 1)
    case Close => s.(closed := true)
    case Receive(w) => s.(jobs := s.jobs[1..], bots := s.bots[w := Waiting(s.jobs[0])])
    case Exit(w) => s.(bots := s.bots[w := Exited])
    case TakeToken(w) =>
      s.(tokens := s.tokens - 1, takes := s.takes + 1, bots := s.bots[w := Holding(s.bots[w].order)])
    case Skip(w) => Finish(s, w, Skipped)
    case Send(w) => s.(bots := s.bots[w := Publishing(s.bots[w].order, 0)])
    case Publish(w, ok) =>
      var Publishing(order, attempt) := s.bots[w];
      if ok then Finish(s, w, Published)
      else if attempt + 1 < MAX_ATTEMPTS then s.(bots := s.bots[w := Publishing(order, attempt + 1)])
      else Finish(s, w, PublishFailed).(publishFailures := s.publishFailures + 1)
    case Return => s.(cancelled := true, result := Some(s.publishFailures == 0))
  }

  function Finish(s: State, w: nat, o: Outcome): State
    requires w < |s.bots| && (s.bots[w].Holding? || s.bots[w].Publishing?)
  {
    s.(outcomes := s.outcomes[s.bots[w].order := o], bots := s.bots[w := Idle])
  }

  /** A run is a sequence of actions each enabled where it is taken: any interleaving the scheduler can pick. */
  predicate Feasible(c: Config, actions: seq<Action>)
    decreases |actions|, 0
  {
    if actions == [] then true
    else
      var n := |actions| - 1;
      Feasible(c, actions[..n]) && Enabled(c, Exec(c, actions[..n]), actions[n])
  }

  function Exec(c: Config, actions: seq<Action>): State
    requires Feasible(c, actions)
    decreases |actions|, 1
  {
    if actions == [] then Init(c)
    else
      var n := |actions| - 1;
      Next(c, Exec(c, actions[..n]), actions[n])
  }

  predicate Done(s: State) {
    s.result.Some? && !s.feeding
  }

  // ---- Counting over the bots ----

  /** What is being counted: work left, tokens spent on unfinished orders, or hands holding one order. */
  datatype Meter = Work | Tokens | Hands(order: nat)

  function Weight(b: Bot, m: Meter): nat {
    match m
    case Work =>
      (match b
       case Idle => 1
       case Waiting(_) => 6
       case Holding(_) => 5
       case Publishing(_, attempt) => if attempt < MAX_ATTEMPTS then 4 - attempt else 2
       case Exited => 0)
    case Tokens => if b.Holding? || b.Publishing? then 1 else 0
    case Hands(k) => if !b.Idle? && !b.Exited? && b.order == k then 1 else 0
  }

  function Total(bots: seq<Bot>, m: Meter): nat {
    if bots == [] then 0
    else Total(bots[..|bots| - 1], m) + Weight(bots[|bots| - 1], m)
  }

  lemma {:induction false} TotalUpdate(bots: seq<Bot>, w: nat, b: Bot, m: Meter)
    requires w < |bots|
    ensures Total(bots[w := b], m) == Total(bots, m) - Weight(bots[w], m) + Weight(b, m)
    ensures Total(bots, m) >= Weight(bots[w], m)
  {
    var n := |bots| - 1;
    if w == n {
      assert bots[w := b][..n] == bots[..n];
    } else {
      assert bots[w := b][..n] == bots[..n][w := b];
      TotalUpdate(bots[..n], w, b, m);
    }
  }

  lemma {:induction false} TotalOfUniform(bots: seq<Bot>, m: Meter, each: nat)
    requires forall w | 0 <= w < |bots| :: Weight(bots[w], m) == each
    ensures Total(bots, m) == each * |bots|
  {
    if bots != [] {
      TotalOfUniform(bots[..|bots| - 1], m, each);
    }
  }
}

/** Where every order is, at every moment. */
module FleetAccounting {
  import opened Fleet

  /** In how many places order `k` is: still to be queued, in the channel, in a bot's hands, finished. */
  function Places(c: Config, s: State, k: nat): nat {
    (if s.next <= k <= c.numOrders then 1 else 0)
    + multiset(s.jobs)[k]
    + Total(s.bots, Hands(k))
    + (if k in s.outcomes then 1 else 0)
  }

  predicate IsOrder(c: Config, k: nat) {
    1 <= k <= c.numOrders
  }

  ghost predicate ExactlyOnePlace(c: Config, s: State) {
    forall k: nat :: Places(c, s, k) == if IsOrder(c, k) then 1 else 0
  }

  predicate Control(c: Config, s: State) {
    && |s.bots| == c.numBots
    && 1 <= s.next <= c.numOrders + 1
    && |s.jobs| < s.next
    && (s.closed ==> s.next == c.numOrders + 1)
    && (forall w | 0 <= w < |s.bots| :: s.bots[w].Exited? ==> s.closed && s.jobs == [])
    && (forall w | 0 <= w < |s.bots| :: s.bots[w].Publishing? ==> s.bots[w].attempt < MAX_ATTEMPTS)
    && (s.result.Some? <==> s.cancelled)
    && (s.result.Some? ==> s.closed && forall w | 0 <= w < |s.bots| :: s.bots[w].Exited?)
    && (!s.feeding ==> s.cancelled)
  }

  /** How many orders ended a given way. */
  function OrdersEnding(outcomes: map<nat, Outcome>, o: Outcome): set<nat> {
    set k | k in outcomes && outcomes[k] == o
  }

  function Count(outcomes: map<nat, Outcome>, o: Outcome): nat {
    |OrdersEnding(outcomes, o)|
  }

  predicate Balanced(c: Config, s: State) {
    s.ticks == s.takes + s.tokens + s.dropped && s.tokens <= c.tps
  }

  predicate TokenPerOrder(s: State) {
    s.takes == |s.outcomes| + Total(s.bots, Tokens)
  }

  predicate FailuresCounted(s: State) {
    && s.publishFailures == Count(s.outcomes, PublishFailed)
    && (s.result.Some? ==> s.result.value == (s.publishFailures == 0))
  }

  ghost predicate Inv(c: Config, s: State) {
    Control(c, s) && ExactlyOnePlace(c, s) && Balanced(c, s) && TokenPerOrder(s) && FailuresCounted(s)
  }

  // ---- Each step keeps each part ----

  lemma InitInv(c: Config)
    requires Admitted(c)
    ensures Inv(c, Init(c))
  {
    var s := Init(c);
    forall k: nat
      ensures Places(c, s, k) == if IsOrder(c, k) then 1 else 0
    {
      TotalOfUniform(s.bots, Hands(k), 0);
    }
    TotalOfUniform(s.bots, Tokens, 0);
  }

  lemma NextKeepsControl(c: Config, s: State, a: Action)
    requires Control(c, s) && Enabled(c, s, a)
    ensures Control(c, Next(c, s, a))
  {
  }

  lemma ReceiveKeepsPlace(c: Config, s: State, w: nat, k: nat)
    requires w < |s.bots| && s.bots[w].Idle? && s.jobs != []
    ensures Places(c, s.(jobs := s.jobs[1..], bots := s.bots[w := Waiting(s.jobs[0])]), k) == Places(c, s, k)
  {
    TotalUpdate(s.bots, w, Waiting(s.jobs[0]), Hands(k));
    assert s.jobs == [s.jobs[0]] + s.jobs[1..];
    assert multiset(s.jobs)[k] == multiset([s.jobs[0]])[k] + multiset(s.jobs[1..])[k];
  }

  /** A bot that keeps hold of what it holds moves no order. */
  lemma BotMoveKeepsPlace(c: Config, s: State, t: State, w: nat, b: Bot, k: nat)
    requires w < |s.bots| && t.bots == s.bots[w := b]
    requires t.next == s.next && t.jobs == s.jobs && t.outcomes == s.outcomes
    requires Weight(b, Hands(k)) == Weight(s.bots[w], Hands(k))
    ensures Places(c, t, k) == Places(c, s, k)
  {
    TotalUpdate(s.bots, w, b, Hands(k));
  }

  lemma FinishKeepsPlace(c: Config, s: State, w: nat, o: Outcome, k: nat)
    requires w < |s.bots| && (s.bots[w].Holding? || s.bots[w].Publishing?)
    requires Places(c, s, k) <= 1
    ensures Places(c, Finish(s, w, o), k) == Places(c, s, k)
  {
    TotalUpdate(s.bots, w, Idle, Hands(k));
  }

  lemma PublishKeepsPlace(c: Config, s: State, w: nat, ok: bool, k: nat)
    requires Enabled(c, s, Publish(w, ok)) && Places(c, s, k) <= 1
    ensures Places(c, Next(c, s, Publish(w, ok)), k) == Places(c, s, k)
  {
    var t := Next(c, s, Publish(w, ok));
    if ok {
      FinishKeepsPlace(c, s, w, Published, k);
    } else if s.bots[w].attempt + 1 < MAX_ATTEMPTS {
      BotMoveKeepsPlace(c, s, t, w, Publishing(s.bots[w].order, s.bots[w].attempt + 1), k);
    } else {
      FinishKeepsPlace(c, s, w, PublishFailed, k);
    }
  }

  lemma ProduceKeepsPlace(c: Config, s: State, k: nat)
    requires Enabled(c, s, Produce) && s.next >= 1
    ensures Places(c, Next(c, s, Produce), k) == Places(c, s, k)
  {
    CountAppend(s.jobs, s.next, k);
  }

  lemma CountAppend(jobs: seq<nat>, x: nat, k: nat)
    ensures multiset(jobs + [x])[k] == multiset(jobs)[k] + (if x == k then 1 else 0)
  {
  }

  lemma SameOrdersSamePlace(c: Config, s: State, t: State, k: nat)
    requires t.next == s.next && t.jobs == s.jobs && t.bots == s.bots && t.outcomes == s.outcomes
    ensures Places(c, t, k) == Places(c, s, k)
  {
  }

  lemma NextKeepsPlace(c: Config, s: State, a: Action, k: nat)
    requires Enabled(c, s, a) && Places(c, s, k) <= 1 && s.next >= 1
    ensures Places(c, Next(c, s, a), k) == Places(c, s, k)
  {
    var t := Next(c, s, a);
    match a
    case Receive(w) => ReceiveKeepsPlace(c, s, w, k);
    case Exit(w) => BotMoveKeepsPlace(c, s, t, w, Exited, k);
    case TakeToken(w) => BotMoveKeepsPlace(c, s, t, w, Holding(s.bots[w].order), k);
    case Skip(w) => FinishKeepsPlace(c, s, w, Skipped, k);
    case Send(w) => BotMoveKeepsPlace(c, s, t, w, Publishing(s.bots[w].order, 0), k);
    case Publish(w, ok) => PublishKeepsPlace(c, s, w, ok, k);
    case Produce => ProduceKeepsPlace(c, s, k);
    case _ => SameOrdersSamePlace(c, s, t, k);
  }

  lemma CountInsert(outcomes: map<nat, Outcome>, k: nat, v: Outcome, o: Outcome)
    requires k !in outcomes
    ensures Count(outcomes[k := v], o) == Count(outcomes, o) + (if v == o then 1 else 0)
  {
    var before := OrdersEnding(outcomes, o);
    var after := OrdersEnding(outcomes[k := v], o);
    assert k !in before;
    forall x: nat
      ensures x in after <==> x in before || (x == k && v == o)
    {
    }
    assert after == if v == o then before + {k} else before;
  }

  /** An order in a bot's hands is not finished. */
  lemma HeldIsUnfinished(c: Config, s: State, w: nat)
    requires ExactlyOnePlace(c, s)
    requires w < |s.bots| && !s.bots[w].Idle? && !s.bots[w].Exited?
    ensures s.bots[w].order !in s.outcomes
  {
    var k := s.bots[w].order;
    TotalUpdate(s.bots, w, Idle, Hands(k));
    assert Places(c, s, k) <= 1;
  }

  lemma FinishKeepsTokens(c: Config, s: State, w: nat, o: Outcome)
    requires ExactlyOnePlace(c, s) && TokenPerOrder(s)
    requires w < |s.bots| && (s.bots[w].Holding? || s.bots[w].Publishing?)
    ensures TokenPerOrder(Finish(s, w, o))
  {
    HeldIsUnfinished(c, s, w);
    TotalUpdate(s.bots, w, Idle, Tokens);
    assert |s.outcomes[s.bots[w].order := o]| == |s.outcomes| + 1;
  }

  lemma FinishKeepsFailures(c: Config, s: State, w: nat, o: Outcome)
    requires ExactlyOnePlace(c, s)
    requires w < |s.bots| && (s.bots[w].Holding? || s.bots[w].Publishing?)
    ensures Count(Finish(s, w, o).outcomes, PublishFailed)
            == Count(s.outcomes, PublishFailed) + (if o.PublishFailed? then 1 else 0)
  {
    HeldIsUnfinished(c, s, w);
    CountInsert(s.outcomes, s.bots[w].order, o, PublishFailed);
  }

  lemma BotMoveKeepsTokens(s: State, t: State, w: nat, b: Bot)
    requires w < |s.bots| && t.bots == s.bots[w := b] && t.outcomes == s.outcomes
    requires t.takes == s.takes + Weight(b, Tokens) - Weight(s.bots[w], Tokens)
    requires TokenPerOrder(s)
    ensures TokenPerOrder(t)
  {
    TotalUpdate(s.bots, w, b, Tokens);
  }

  lemma NextKeepsTokenPerOrder(c: Config, s: State, a: Action)
    requires ExactlyOnePlace(c, s) && TokenPerOrder(s) && Enabled(c, s, a)
    ensures TokenPerOrder(Next(c, s, a))
  {
    var t := Next(c, s, a);
    match a
    case Receive(w) => BotMoveKeepsTokens(s, t, w, Waiting(s.jobs[0]));
    case Exit(w) => BotMoveKeepsTokens(s, t, w, Exited);
    case TakeToken(w) => BotMoveKeepsTokens(s, t, w, Holding(s.bots[w].order));
    case Skip(w) => FinishKeepsTokens(c, s, w, Skipped);
    case Send(w) => BotMoveKeepsTokens(s, t, w, Publishing(s.bots[w].order, 0));
    case Publish(w, ok) => PublishKeepsTokens(c, s, w, ok);
    case _ => SameBotsSameTokens(s, t);
  }

  lemma PublishKeepsTokens(c: Config, s: State, w: nat, ok: bool)
    requires ExactlyOnePlace(c, s) && TokenPerOrder(s) && Enabled(c, s, Publish(w, ok))
    ensures TokenPerOrder(Next(c, s, Publish(w, ok)))
  {
    var t := Next(c, s, Publish(w, ok));
    if !ok && s.bots[w].attempt + 1 < MAX_ATTEMPTS {
      BotMoveKeepsTokens(s, t, w, Publishing(s.bots[w].order, s.bots[w].attempt + 1));
    } else {
      FinishKeepsTokens(c, s, w, if ok then Published else PublishFailed);
    }
  }

  lemma SameBotsSameTokens(s: State, t: State)
    requires TokenPerOrder(s) && t.takes == s.takes && t.outcomes == s.outcomes && t.bots == s.bots
    ensures TokenPerOrder(t)
  {
  }

  lemma NextKeepsFailuresCounted(c: Config, s: State, a: Action)
    requires Control(c, s) && ExactlyOnePlace(c, s) && FailuresCounted(s) && Enabled(c, s, a)
    ensures FailuresCounted(Next(c, s, a))
  {
    match a
    case Skip(w) => FinishKeepsFailures(c, s, w, Skipped);
    case Publish(w, ok) => FinishKeepsFailures(c, s, w, if ok then Published else PublishFailed);
    case _ =>
  }

  lemma NextInv(c: Config, s: State, a: Action)
    requires Inv(c, s) && Enabled(c, s, a)
    ensures Inv(c, Next(c, s, a))
  {
    NextKeepsControl(c, s, a);
    NextKeepsTokenPerOrder(c, s, a);
    NextKeepsFailuresCounted(c, s, a);
    NextKeepsBalance(c, s, a);
    NextKeepsPlaces(c, s, a);
  }

  lemma NextKeepsBalance(c: Config, s: State, a: Action)
    requires Balanced(c, s) && Enabled(c, s, a)
    ensures Balanced(c, Next(c, s, a))
  {
  }

  lemma NextKeepsPlaces(c: Config, s: State, a: Action)
    requires ExactlyOnePlace(c, s) && Enabled(c, s, a) && s.next >= 1
    ensures ExactlyOnePlace(c, Next(c, s, a))
  {
    forall k: nat
      ensures Places(c, Next(c, s, a), k) == if IsOrder(c, k) then 1 else 0
    {
      NextKeepsPlace(c, s, a, k);
    }
  }

  lemma {:induction false} ExecInv(c: Config, actions: seq<Action>)
    requires Admitted(c) && Feasible(c, actions)
    ensures Inv(c, Exec(c, actions))
  {
    if actions == [] {
      InitInv(c);
    } else {
      var n := |actions| - 1;
      ExecInv(c, actions[..n]);
      NextInv(c, Exec(c, actions[..n]), actions[n]);
    }
  }

  // ---- Exactly-once distribution and accounting ----

  /** Under every interleaving each order is in exactly one place, and nothing else is in any. */
  lemma EveryOrderInOnePlace(c: Config, actions: seq<Action>, k: nat)
    requires Admitted(c) && Feasible(c, actions)
    ensures Places(c, Exec(c, actions), k) == if IsOrder(c, k) then 1 else 0
  {
    ExecInv(c, actions);
  }

  function UpTo(n: nat): (r: set<nat>)
    ensures |r| == n
    ensures forall k: nat :: k in r <==> 1 <= k <= n
  {
    if n == 0 then {} else UpTo(n - 1) + {n}
  }

  lemma CountsAddUp(outcomes: map<nat, Outcome>)
    ensures Count(outcomes, Published) + Count(outcomes, PublishFailed) + Count(outcomes, Skipped) == |outcomes|
  {
    var p := OrdersEnding(outcomes, Published);
    var f := OrdersEnding(outcomes, PublishFailed);
    var d := OrdersEnding(outcomes, Skipped);
    assert p + f + d == outcomes.Keys;
    assert p !! f && (p + f) !! d;
    assert |outcomes| == |outcomes.Keys|;
  }

  /** When the load test has returned, every order has exactly one outcome, one token was spent on each, the
      three outcomes add up to NumOrders, and the error is nil exactly when nothing failed to publish. The
      failure count fits the int32 it is kept in. */
  lemma FinalAccounting(c: Config, actions: seq<Action>)
    requires Admitted(c) && Feasible(c, actions) && Exec(c, actions).result.Some?
    ensures var s := Exec(c, actions);
            && s.outcomes.Keys == UpTo(c.numOrders)
            && s.takes == c.numOrders
            && Count(s.outcomes, Published) + s.publishFailures + Count(s.outcomes, Skipped) == c.numOrders
            && s.publishFailures == Count(s.outcomes, PublishFailed) < 0x8000_0000
            && (s.result.value <==> s.publishFailures == 0)
  {
    ExecInv(c, actions);
    var s := Exec(c, actions);
    assert s.bots[0].Exited?;
    assert s.jobs == [];
    forall k: nat
      ensures k in s.outcomes <==> 1 <= k <= c.numOrders
    {
      TotalOfUniform(s.bots, Hands(k), 0);
      assert Places(c, s, k) == if IsOrder(c, k) then 1 else 0;
    }
    assert s.outcomes.Keys == UpTo(c.numOrders);
    assert |s.outcomes| == |s.outcomes.Keys|;
    CountsAddUp(s.outcomes);
    TotalOfUniform(s.bots, Tokens, 0);
  }

  /** The state after the broker has answered a bot's publish attempts in turn, until one ends the order. */
  function AfterPublishes(c: Config, s: State, w: nat, accepted: seq<bool>): State
    decreases |accepted|
  {
    if accepted == [] || !Enabled(c, s, Publish(w, accepted[0])) then s
    else AfterPublishes(c, Next(c, s, Publish(w, accepted[0])), w, accepted[1..])
  }

  /** As many answers as attempts are left settle an order: published if any attempt was accepted, and otherwise
      counted once as a publish failure. */
  lemma {:induction false} AnswersSettle(c: Config, s: State, w: nat, accepted: seq<bool>)
    requires w < |s.bots| && s.bots[w].Publishing? && s.bots[w].attempt + |accepted| == MAX_ATTEMPTS
    requires accepted != []
    ensures AfterPublishes(c, s, w, accepted) == SettledState(s, w, Settled(accepted))
    decreases |accepted|
  {
    var t := Next(c, s, Publish(w, accepted[0]));
    assert AfterPublishes(c, s, w, accepted) == AfterPublishes(c, t, w, accepted[1..]);
    if accepted[0] {
      assert Settled(accepted).Published?;
    } else {
      SettledByRest(accepted);
      if |accepted| > 1 {
        AnswersSettle(c, t, w, accepted[1..]);
        assert t.bots[w := Idle] == s.bots[w := Idle];
      }
    }
  }

  lemma SettledByRest(accepted: seq<bool>)
    requires accepted != [] && !accepted[0]
    ensures Settled(accepted) == Settled(accepted[1..])
  {
    if k :| 0 <= k < |accepted| && accepted[k] {
      assert accepted[1..][k - 1];
    }
  }

  /** The bot is free again, its order has this outcome, and a failure is counted. */
  function SettledState(s: State, w: nat, o: Outcome): State
    requires w < |s.bots| && s.bots[w].Publishing?
  {
    s.(bots := s.bots[w := Idle],
       outcomes := s.outcomes[s.bots[w].order := o],
       publishFailures := s.publishFailures + (if o.PublishFailed? then 1 else 0))
  }

  /** Three answers settle an order the worker starts to publish. */
  lemma ThreeAnswersSettle(c: Config, s: State, w: nat, accepted: seq<bool>)
    requires w < |s.bots| && s.bots[w].Publishing? && s.bots[w].attempt == 0 && |accepted| == MAX_ATTEMPTS
    ensures AfterPublishes(c, s, w, accepted) == SettledState(s, w, Settled(accepted))
  {
    AnswersSettle(c, s, w, accepted);
  }

  // ---- Rate ----

  /** Ticks, token takes, tokens in the bucket and dropped ticks always balance. */
  lemma TokenConservation(c: Config, actions: seq<Action>)
    requires Admitted(c) && Feasible(c, actions)
    ensures var s := Exec(c, actions);
            s.ticks == s.takes + s.tokens + s.dropped && s.tokens <= c.tps
  {
    ExecInv(c, actions);
  }

  lemma {:induction false} PrefixFeasible(c: Config, actions: seq<Action>, k: nat)
    requires Feasible(c, actions) && k <= |actions|
    ensures Feasible(c, actions[..k])
  {
    if k == |actions| {
      assert actions[..k] == actions;
    } else {
      var n := |actions| - 1;
      assert actions[..n][..k] == actions[..k];
      PrefixFeasible(c, actions[..n], k);
    }
  }

  lemma NextKeepsDropped(c: Config, s: State, a: Action)
    requires Enabled(c, s, a)
    ensures s.dropped <= Next(c, s, a).dropped
  {
  }

  lemma {:induction false} DroppedOnlyGrows(c: Config, actions: seq<Action>, k: nat)
    requires Feasible(c, actions) && k <= |actions| && Feasible(c, actions[..k])
    ensures Exec(c, actions[..k]).dropped <= Exec(c, actions).dropped
  {
    if k == |actions| {
      assert actions[..k] == actions;
    } else {
      var n := |actions| - 1;
      assert actions[..n][..k] == actions[..k];
      DroppedOnlyGrows(c, actions[..n], k);
      NextKeepsDropped(c, Exec(c, actions[..n]), actions[n]);
    }
  }

  /** In every window of every run, tokens taken are at most TPS plus the ticks of that window. */
  lemma WindowRateBound(c: Config, actions: seq<Action>, from: nat, to: nat)
    requires Admitted(c) && Feasible(c, actions) && from <= to <= |actions|
    ensures Feasible(c, actions[..from]) && Feasible(c, actions[..to])
    ensures var s, t := Exec(c, actions[..from]), Exec(c, actions[..to]);
            t.takes - s.takes <= c.tps + (t.ticks - s.ticks)
  {
    PrefixFeasible(c, actions, to);
    assert actions[..to][..from] == actions[..from];
    PrefixFeasible(c, actions[..to], from);
    DroppedOnlyGrows(c, actions[..to], from);
    TokenConservation(c, actions[..from]);
    TokenConservation(c, actions[..to]);
  }

  const SECOND := 1_000_000_000

  /** The ticker's period in nanoseconds: Go's truncating division of a second by TPS. */
  function Interval(tps: nat): nat
    requires tps > 0
  {
    SECOND / tps
  }

  /** Truncation never slows the ticker below TPS and adds at most two ticks a second, for every TPS admitted. */
  lemma IntervalRate(tps: nat)
    requires 1 <= tps <= 50000
    ensures Interval(tps) > 0
    ensures Interval(tps) * tps <= 1_000_000_000 < (Interval(tps) + 1) * tps
    ensures tps <= 1_000_000_000 / Interval(tps) <= tps + 2
  {
    var i := Interval(tps);
    IntervalBounds(tps);
    var r := SECOND / i;
    DivideBounds(SECOND, i);
    assert tps * i == i * tps && (tps + 3) * i == i * tps + 3 * i && (i + 1) * tps == i * tps + tps;
    MulCancel(tps, r + 1, i);
    MulCancel(r, tps + 3, i);
  }

  lemma DivideBounds(n: nat, d: nat)
    requires d > 0
    ensures n / d * d <= n < (n / d + 1) * d
  {
  }

  lemma IntervalBounds(tps: nat)
    requires 1 <= tps <= MAX_TPS
    ensures 20000 <= Interval(tps)
    ensures Interval(tps) * tps <= SECOND < (Interval(tps) + 1) * tps
  {
    var i := Interval(tps);
    DivideBounds(SECOND, tps);
    MulMonotone(i + 1, i + 1, tps, MAX_TPS);
  }

  lemma MulCancel(a: nat, b: nat, i: nat)
    requires a * i < b * i
    ensures a < b
  {
    if b <= a {
      MulMonotone(b, a, i, i);
    }
  }

  lemma MulMonotone(a: nat, b: nat, x: nat, y: nat)
    requires a <= b && x <= y
    ensures a * x <= b * y
  {
    assert a * x <= b * x;
    assert b * x <= b * y;
  }
}

/** A load test finishes: nothing blocks for good and every step that is not a tick uses up work. */
module FleetProgress {
  import opened Fleet
  import opened FleetAccounting

  /** Work left: seven steps for an order not yet queued, down to none once everything has stopped. */
  function Measure(c: Config, s: State): int {
    7 * (c.numOrders + 1 - s.next) + 6 * |s.jobs| + Total(s.bots, Work)
    + (if s.closed then 0 else 1) + (if s.result.Some? then 0 else 1) + (if s.feeding then 1 else 0)
  }

  lemma BotStepUsesWork(s: State, w: nat, b: Bot)
    requires w < |s.bots|
    ensures Total(s.bots[w := b], Work) == Total(s.bots, Work) - Weight(s.bots[w], Work) + Weight(b, Work)
  {
    TotalUpdate(s.bots, w, b, Work);
  }

  lemma PublishUsesWork(c: Config, s: State, w: nat, ok: bool)
    requires Enabled(c, s, Publish(w, ok)) && s.bots[w].attempt < MAX_ATTEMPTS
    ensures Measure(c, Next(c, s, Publish(w, ok))) < Measure(c, s)
  {
    var t := Next(c, s, Publish(w, ok));
    BotStepUsesWork(s, w, t.bots[w]);
    assert t.bots == s.bots[w := t.bots[w]];
  }

  lemma StepUsesWork(c: Config, s: State, a: Action)
    requires Control(c, s) && Enabled(c, s, a)
    ensures a.Tick? ==> Measure(c, Next(c, s, a)) == Measure(c, s)
    ensures !a.Tick? ==> Measure(c, Next(c, s, a)) < Measure(c, s)
  {
    match a
    case Receive(w) => BotStepUsesWork(s, w, Waiting(s.jobs[0]));
    case Exit(w) => BotStepUsesWork(s, w, Exited);
    case TakeToken(w) => BotStepUsesWork(s, w, Holding(s.bots[w].order));
    case Skip(w) => BotStepUsesWork(s, w, Idle);
    case Send(w) => BotStepUsesWork(s, w, Publishing(s.bots[w].order, 0));
    case Publish(w, ok) => PublishUsesWork(c, s, w, ok);
    case _ => SameBotsUseWork(c, s, a);
  }

  lemma SameBotsUseWork(c: Config, s: State, a: Action)
    requires Control(c, s) && Enabled(c, s, a) && Next(c, s, a).bots == s.bots
    requires !a.Receive?
    ensures a.Tick? ==> Measure(c, Next(c, s, a)) == Measure(c, s)
    ensures a.StopFeeding? || a.Produce? || a.Close? || a.Return? ==> Measure(c, Next(c, s, a)) < Measure(c, s)
  {
  }

  function NonTicks(actions: seq<Action>): nat {
    if actions == [] then 0
    else NonTicks(actions[..|actions| - 1]) + (if actions[|actions| - 1].Tick? then 0 else 1)
  }

  function StepBound(c: Config): nat {
    7 * c.numOrders + c.numBots + 3
  }

  /** No interleaving takes more than 7 * NumOrders + NumBots + 3 steps that are not ticks. */
  lemma {:induction false} BoundedWork(c: Config, actions: seq<Action>)
    requires Admitted(c) && Feasible(c, actions)
    ensures NonTicks(actions) + Measure(c, Exec(c, actions)) <= StepBound(c)
    ensures NonTicks(actions) <= StepBound(c)
  {
    ExecInv(c, actions);
    if actions == [] {
      TotalOfUniform(Init(c).bots, Work, 1);
    } else {
      var n := |actions| - 1;
      ExecInv(c, actions[..n]);
      BoundedWork(c, actions[..n]);
      StepUsesWork(c, Exec(c, actions[..n]), actions[n]);
    }
  }

  /** The producer never blocks: whenever it still has an order to queue the channel has room. */
  lemma ProducerNeverBlocks(c: Config, actions: seq<Action>)
    requires Admitted(c) && Feasible(c, actions) && Exec(c, actions).next <= c.numOrders
    ensures Enabled(c, Exec(c, actions), Produce)
  {
    ExecInv(c, actions);
  }

  /** The feeder is running, and not cancelled, as long as any bot waits for a token. */
  lemma FeederOutlivesWaiters(c: Config, actions: seq<Action>, w: nat)
    requires Admitted(c) && Feasible(c, actions)
    requires w < |Exec(c, actions).bots| && Exec(c, actions).bots[w].Waiting?
    ensures Exec(c, actions).feeding && !Exec(c, actions).cancelled
  {
    ExecInv(c, actions);
  }

  predicate CanWork(c: Config, s: State, a: Action) {
    !a.Tick? && Enabled(c, s, a)
  }

  /** Once all orders are queued, a bot that has not returned can act, at the latest after a tick. */
  lemma BotNeverStuck(c: Config, s: State, w: nat) returns (a: Action)
    requires Control(c, s) && s.tokens <= c.tps && c.tps > 0 && s.closed
    requires w < |s.bots| && !s.bots[w].Exited?
    ensures CanWork(c, s, a) || (Enabled(c, s, Tick) && CanWork(c, Next(c, s, Tick), a))
  {
    match s.bots[w]
    case Idle => a := if s.jobs != [] then Receive(w) else Exit(w);
    case Waiting(_) => a := TakeToken(w);
    case Holding(_) => a := Send(w);
    case Publishing(_, _) => a := Publish(w, true);
  }

  /** An unfinished run can always go on: a working step is enabled now, or after one more tick. */
  lemma NeverStuck(c: Config, actions: seq<Action>) returns (a: Action)
    requires Admitted(c) && Feasible(c, actions) && !Done(Exec(c, actions))
    ensures var s := Exec(c, actions);
            CanWork(c, s, a) || (Enabled(c, s, Tick) && CanWork(c, Next(c, s, Tick), a))
  {
    ExecInv(c, actions);
    var s := Exec(c, actions);
    if s.next <= c.numOrders {
      a := Produce;
    } else if !s.closed {
      a := Close;
    } else if w: nat :| w < |s.bots| && !s.bots[w].Exited? {
      a := BotNeverStuck(c, s, w);
    } else if s.result.None? {
      a := Return;
    } else {
      a := StopFeeding;
    }
  }

  // ---- Termination when ticks do not starve the rest ----

  function TrailingTicks(actions: seq<Action>): nat {
    if actions == [] || !actions[|actions| - 1].Tick? then 0
    else TrailingTicks(actions[..|actions| - 1]) + 1
  }

  /** Never more than `b` ticks in a row. */
  predicate TicksSpaced(actions: seq<Action>, b: nat) {
    forall k | 0 <= k <= |actions| :: TrailingTicks(actions[..k]) <= b
  }

  lemma {:induction false} SpacedRunLength(actions: seq<Action>, b: nat)
    requires TicksSpaced(actions, b)
    ensures |actions| <= (b + 1) * NonTicks(actions) + TrailingTicks(actions)
  {
    if actions != [] {
      var n := |actions| - 1;
      assert actions[..n + 1] == actions;
      forall k | 0 <= k <= n
        ensures TrailingTicks(actions[..n][..k]) <= b
      {
        assert actions[..n][..k] == actions[..k];
      }
      SpacedRunLength(actions[..n], b);
      assert actions[..n][..n] == actions[..n];
      if !actions[n].Tick? {
        assert (b + 1) * NonTicks(actions) == (b + 1) * NonTicks(actions[..n]) + (b + 1);
      }
    }
  }

  /** If at most `b` ticks ever come in a row, every run is shorter than a bound known in advance. */
  lemma EveryFairRunIsBounded(c: Config, actions: seq<Action>, b: nat)
    requires Admitted(c) && Feasible(c, actions) && TicksSpaced(actions, b)
    ensures |actions| <= (b + 1) * StepBound(c) + b
  {
    BoundedWork(c, actions);
    SpacedRunLength(actions, b);
    MulMonotone(b + 1, b + 1, NonTicks(actions), StepBound(c));
    assert actions[..|actions|] == actions;
    assert TrailingTicks(actions) <= b;
  }

  /** A run the scheduler may still extend by this action without letting ticks starve the rest. */
  ghost predicate MayFollow(c: Config, actions: seq<Action>, b: nat, a: Action) {
    Feasible(c, actions + [a]) && TicksSpaced(actions + [a], b)
  }

  lemma SpacedSnoc(actions: seq<Action>, b: nat, a: Action)
    requires TicksSpaced(actions, b)
    requires a.Tick? ==> TrailingTicks(actions) < b
    ensures TicksSpaced(actions + [a], b)
  {
    var more := actions + [a];
    forall k | 0 <= k <= |more|
      ensures TrailingTicks(more[..k]) <= b
    {
      if k <= |actions| {
        assert more[..k] == actions[..k];
      } else {
        assert more[..k] == more && more[..|more| - 1] == actions;
      }
    }
  }

  lemma FeasibleSnoc(c: Config, actions: seq<Action>, a: Action)
    requires Feasible(c, actions) && Enabled(c, Exec(c, actions), a)
    ensures Feasible(c, actions + [a])
  {
    assert (actions + [a])[..|actions|] == actions;
  }

  /** As long as it is not finished, a fair run can be continued fairly. Together with the bound above: every
      fair run that goes on as long as it can ends with the load test returned and the feeder stopped. */
  lemma UnfinishedFairRunContinues(c: Config, actions: seq<Action>, b: nat) returns (a: Action)
    requires Admitted(c) && Feasible(c, actions) && b >= 1 && TicksSpaced(actions, b)
    requires !Done(Exec(c, actions))
    ensures MayFollow(c, actions, b, a)
  {
    var s := Exec(c, actions);
    a := NeverStuck(c, actions);
    if !CanWork(c, s, a) {
      assert s.tokens == 0;
      TickLeavesToken(c, actions);
      a := Tick;
    }
    FeasibleSnoc(c, actions, a);
    SpacedSnoc(actions, b, a);
  }

  lemma TickLeavesToken(c: Config, actions: seq<Action>)
    requires Admitted(c) && Feasible(c, actions)
    ensures actions != [] && actions[|actions| - 1].Tick? ==> Exec(c, actions).tokens > 0
  {
    if actions != [] {
      ExecInv(c, actions[..|actions| - 1]);
    }
  }
}
