/** What the steps of a load test mean for one order: every publish gets its three attempts, orders are handed out in
    order, ticks are dropped only at capacity, and every combination of outcomes can happen. */
module FleetAttempts {
  import opened Prelude
  import opened Fleet
  import opened FleetAccounting

  /** What the run handler lets through. */
  lemma AdmittedInFields(c: Config)
    ensures Admitted(c) <==> 1 <= c.numBots <= 1000 && 1 <= c.numOrders <= 1_000_000 && 1 <= c.tps <= 50_000
  {
  }

  /** Sending an order and getting three answers from the broker publishes it if one of them accepts, and counts one
      failure if none does. */
  lemma SendThenThreeAnswers(c: Config, s: State, w: nat, accepted: seq<bool>)
    requires w < |s.bots| && s.bots[w].Holding? && |accepted| == 3
    ensures var k := s.bots[w].order;
            var some := accepted[0] || accepted[1] || accepted[2];
            var t := AfterPublishes(c, Next(c, s, Send(w)), w, accepted);
            && t.bots == s.bots[w := Idle]
            && t.outcomes == s.outcomes[k := if some then Published else PublishFailed]
            && t.publishFailures == s.publishFailures + (if some then 0 else 1)
            && t.next == s.next && t.jobs == s.jobs && t.tokens == s.tokens
  {
    var t := Next(c, s, Send(w));
    assert t.bots[w] == Publishing(s.bots[w].order, 0);
    ThreeAnswersSettle(c, t, w, accepted);
    assert t.bots[w := Idle] == s.bots[w := Idle];
    SomeOfThree(accepted);
  }

  lemma SomeOfThree(accepted: seq<bool>)
    requires |accepted| == 3
    ensures Settled(accepted) == if accepted[0] || accepted[1] || accepted[2] then Published else PublishFailed
  {
  }

  // ---- Over whole runs ----

  /** What can happen to an order between its token and its outcome. */
  datatype Happening = Sent | Refused | Accepted

  /** This action sends order `k`, or is the broker's answer to an attempt to publish it. */
  predicate Happens(s: State, a: Action, k: nat, h: Happening) {
    match h
    case Sent => a.Send? && a.w < |s.bots| && s.bots[a.w] == Holding(k)
    case Refused => a.Publish? && !a.ok && a.w < |s.bots| && s.bots[a.w].Publishing? && s.bots[a.w].order == k
    case Accepted => a.Publish? && a.ok && a.w < |s.bots| && s.bots[a.w].Publishing? && s.bots[a.w].order == k
  }

  function Times(c: Config, actions: seq<Action>, k: nat, h: Happening): nat
    requires Feasible(c, actions)
  {
    if actions == [] then 0
    else
      var n := |actions| - 1;
      Times(c, actions[..n], k, h) + (if Happens(Exec(c, actions[..n]), actions[n], k, h) then 1 else 0)
  }

  /** How often order `k` was sent, refused and accepted, by where it stands. */
  predicate Tally(s: State, k: nat, sent: nat, refused: nat, accepted: nat) {
    && (k in s.outcomes ==>
          match s.outcomes[k]
          case Published => sent == 1 && accepted == 1 && refused <= 2
          case PublishFailed => sent == 1 && accepted == 0 && refused == 3
          case Skipped => sent == 0 && accepted == 0 && refused == 0)
    && (forall w | 0 <= w < |s.bots| && s.bots[w].Publishing? && s.bots[w].order == k ::
          sent == 1 && accepted == 0 && refused == s.bots[w].attempt)
    && (k !in s.outcomes && NobodyPublishes(s, k) ==> sent == 0 && accepted == 0 && refused == 0)
  }

  predicate NobodyPublishes(s: State, k: nat) {
    forall w | 0 <= w < |s.bots| && s.bots[w].Publishing? :: s.bots[w].order != k
  }

  predicate Holds(b: Bot, k: nat) {
    !b.Idle? && !b.Exited? && b.order == k
  }

  /** No order is in the hands of two bots. */
  lemma OneHolder(c: Config, s: State, w: nat, v: nat, k: nat)
    requires ExactlyOnePlace(c, s) && w < |s.bots| && v < |s.bots| && w != v
    requires Holds(s.bots[w], k)
    ensures !Holds(s.bots[v], k)
  {
    TotalUpdate(s.bots, w, Idle, Hands(k));
    TotalUpdate(s.bots[w := Idle], v, Idle, Hands(k));
    assert Places(c, s, k) <= 1;
  }

  lemma OthersHold(c: Config, s: State, w: nat, k: nat)
    requires ExactlyOnePlace(c, s) && w < |s.bots| && Holds(s.bots[w], k)
    ensures forall v | 0 <= v < |s.bots| && v != w :: !Holds(s.bots[v], k)
    ensures k !in s.outcomes
  {
    HeldIsUnfinished(c, s, w);
    forall v: nat | v < |s.bots| && v != w
      ensures !Holds(s.bots[v], k)
    {
      OneHolder(c, s, w, v, k);
    }
  }

  function Counted(s: State, a: Action, k: nat, h: Happening): nat {
    if Happens(s, a, k, h) then 1 else 0
  }

  /** A step of another order's bot changes nothing for `k`. */
  lemma OtherKeepsTally(s: State, t: State, w: nat, b: Bot, k: nat, sent: nat, refused: nat, accepted: nat)
    requires Tally(s, k, sent, refused, accepted) && w < |s.bots|
    requires t.bots == s.bots[w := b] && !Holds(s.bots[w], k) && !(b.Publishing? && b.order == k)
    requires (k in t.outcomes <==> k in s.outcomes) && (k in s.outcomes ==> t.outcomes[k] == s.outcomes[k])
    ensures Tally(t, k, sent, refused, accepted)
  {
    assert NobodyPublishes(t, k) ==> NobodyPublishes(s, k) by {
      assert forall v | 0 <= v < |s.bots| && v != w :: t.bots[v] == s.bots[v];
    }
  }

  lemma SendTallies(c: Config, s: State, w: nat, k: nat, sent: nat, refused: nat, accepted: nat)
    requires ExactlyOnePlace(c, s) && Enabled(c, s, Send(w)) && s.bots[w].order == k
    requires Tally(s, k, sent, refused, accepted)
    ensures Tally(Next(c, s, Send(w)), k, sent + 1, refused, accepted)
  {
    OthersHold(c, s, w, k);
    assert NobodyPublishes(s, k);
    var t := Next(c, s, Send(w));
    assert t.bots[w].Publishing? && t.bots[w].order == k;
  }

  lemma PublishTallies(c: Config, s: State, w: nat, ok: bool, k: nat, sent: nat, refused: nat, accepted: nat)
    requires ExactlyOnePlace(c, s) && Control(c, s) && Enabled(c, s, Publish(w, ok)) && s.bots[w].order == k
    requires Tally(s, k, sent, refused, accepted)
    ensures Tally(Next(c, s, Publish(w, ok)), k, sent, refused + (if ok then 0 else 1), accepted + (if ok then 1 else 0))
  {
    OthersHold(c, s, w, k);
    var t := Next(c, s, Publish(w, ok));
    assert forall v | 0 <= v < |s.bots| && v != w :: t.bots[v] == s.bots[v];
    if t.bots[w].Publishing? {
      assert t.bots[w].order == k;
    }
  }

  lemma HolderTallies(c: Config, s: State, w: nat, b: Bot, k: nat, sent: nat, refused: nat, accepted: nat)
    requires ExactlyOnePlace(c, s) && w < |s.bots| && Holds(s.bots[w], k) && !s.bots[w].Publishing?
    requires Tally(s, k, sent, refused, accepted)
    ensures sent == 0 && refused == 0 && accepted == 0
  {
    OthersHold(c, s, w, k);
    assert NobodyPublishes(s, k);
  }

  /** The bot an action moves, if any. */
  function Mover(a: Action): Option<nat> {
    match a
    case Receive(w) => Some(w)
    case Exit(w) => Some(w)
    case TakeToken(w) => Some(w)
    case Skip(w) => Some(w)
    case Send(w) => Some(w)
    case Publish(w, _) => Some(w)
    case _ => None
  }

  lemma NothingMoves(c: Config, s: State, a: Action)
    requires Enabled(c, s, a) && Mover(a).None?
    ensures Next(c, s, a).bots == s.bots && Next(c, s, a).outcomes == s.outcomes
    ensures forall k: nat, h :: !Happens(s, a, k, h)
  {
  }

  lemma MoveOfOther(c: Config, s: State, a: Action, w: nat, k: nat)
    requires Enabled(c, s, a) && Mover(a) == Some(w) && w < |s.bots| && !Holds(s.bots[w], k)
    ensures var t := Next(c, s, a);
            && t.bots == s.bots[w := t.bots[w]]
            && !(t.bots[w].Publishing? && t.bots[w].order == k)
            && (k in t.outcomes <==> k in s.outcomes) && (k in s.outcomes ==> t.outcomes[k] == s.outcomes[k])
    ensures forall h :: !Happens(s, a, k, h)
  {
  }

  lemma MoveOfWaiter(c: Config, s: State, a: Action, w: nat, k: nat)
    requires Enabled(c, s, a) && Mover(a) == Some(w) && w < |s.bots| && Holds(s.bots[w], k)
    requires !a.Send? && !a.Publish?
    ensures var t := Next(c, s, a);
            && t.bots == s.bots[w := t.bots[w]] && !t.bots[w].Publishing?
            && (t.outcomes == s.outcomes || t.outcomes == s.outcomes[k := Skipped])
    ensures !s.bots[w].Publishing?
    ensures forall h :: !Happens(s, a, k, h)
  {
  }

  lemma WaiterTallies(c: Config, s: State, a: Action, w: nat, k: nat, sent: nat, refused: nat, accepted: nat)
    requires ExactlyOnePlace(c, s) && Enabled(c, s, a) && Mover(a) == Some(w) && w < |s.bots| && Holds(s.bots[w], k)
    requires !a.Send? && !a.Publish? && Tally(s, k, sent, refused, accepted)
    ensures Tally(Next(c, s, a), k, sent, refused, accepted)
  {
    MoveOfWaiter(c, s, a, w, k);
    OthersHold(c, s, w, k);
    HolderTallies(c, s, w, s.bots[w], k, sent, refused, accepted);
    var t := Next(c, s, a);
    assert forall v | 0 <= v < |s.bots| && v != w :: t.bots[v] == s.bots[v];
  }

  lemma StepTallies(c: Config, s: State, a: Action, k: nat, sent: nat, refused: nat, accepted: nat)
    requires ExactlyOnePlace(c, s) && Control(c, s) && Enabled(c, s, a)
    requires Tally(s, k, sent, refused, accepted)
    ensures Tally(Next(c, s, a), k, sent + Counted(s, a, k, Sent), refused + Counted(s, a, k, Refused),
                  accepted + Counted(s, a, k, Accepted))
  {
    if Mover(a).Some? {
      var w := Mover(a).value;
      if !Holds(s.bots[w], k) {
        MoveOfOther(c, s, a, w, k);
        OtherKeepsTally(s, Next(c, s, a), w, Next(c, s, a).bots[w], k, sent, refused, accepted);
      } else if a.Send? {
        SendTallies(c, s, w, k, sent, refused, accepted);
      } else if a.Publish? {
        PublishTallies(c, s, w, a.ok, k, sent, refused, accepted);
      } else {
        MoveOfWaiter(c, s, a, w, k);
        WaiterTallies(c, s, a, w, k, sent, refused, accepted);
      }
    } else {
      NothingMoves(c, s, a);
      SameTally(s, Next(c, s, a), k, sent, refused, accepted);
    }
  }

  lemma SameTally(s: State, t: State, k: nat, sent: nat, refused: nat, accepted: nat)
    requires Tally(s, k, sent, refused, accepted) && t.bots == s.bots && t.outcomes == s.outcomes
    ensures Tally(t, k, sent, refused, accepted)
  {
  }

  lemma {:induction false} RunTallies(c: Config, actions: seq<Action>, k: nat)
    requires Admitted(c) && Feasible(c, actions)
    ensures Tally(Exec(c, actions), k, Times(c, actions, k, Sent), Times(c, actions, k, Refused),
                  Times(c, actions, k, Accepted))
  {
    if actions != [] {
      var n := |actions| - 1;
      RunTallies(c, actions[..n], k);
      ExecInv(c, actions[..n]);
      StepTallies(c, Exec(c, actions[..n]), actions[n], k,
                  Times(c, actions[..n], k, Sent), Times(c, actions[..n], k, Refused),
                  Times(c, actions[..n], k, Accepted));
    }
  }

  /** In every run: an order is sent at most once; it ends as a publish failure exactly when the broker refused it
      three times, published exactly when the broker accepted it, then once and after at most two refusals, and
      skipped without having been sent. */
  lemma OutcomesTellAttempts(c: Config, actions: seq<Action>, k: nat)
    requires Admitted(c) && Feasible(c, actions)
    ensures var s := Exec(c, actions);
            var sent, refused, accepted :=
              Times(c, actions, k, Sent), Times(c, actions, k, Refused), Times(c, actions, k, Accepted);
            && sent <= 1 && refused <= 3 && accepted <= 1
            && (k in s.outcomes && s.outcomes[k] == PublishFailed <==> refused == 3)
            && (k in s.outcomes && s.outcomes[k] == Published <==> accepted == 1)
            && (refused == 3 ==> sent == 1 && accepted == 0)
            && (accepted == 1 ==> sent == 1 && refused <= 2)
            && (k in s.outcomes && s.outcomes[k] == Skipped ==> sent == 0)
  {
    RunTallies(c, actions, k);
    ExecInv(c, actions);
    var s := Exec(c, actions);
    if w: nat :| w < |s.bots| && s.bots[w].Publishing? && s.bots[w].order == k {
      OthersHold(c, s, w, k);
    } else {
      assert NobodyPublishes(s, k);
    }
  }

  // ---- The job channel and the token channel ----

  /** The channel holds the orders queued last, lowest number first. */
  predicate JobsInOrder(s: State) {
    |s.jobs| < s.next && forall i | 0 <= i < |s.jobs| :: s.jobs[i] == s.next - |s.jobs| + i
  }

  lemma StepKeepsJobsInOrder(c: Config, s: State, a: Action)
    requires JobsInOrder(s) && Enabled(c, s, a)
    ensures JobsInOrder(Next(c, s, a))
  {
    match a
    case Produce => InOrderProduced(s.jobs, s.next);
    case Receive(_) => InOrderReceived(s.jobs, s.next);
    case _ =>
  }

  lemma InOrderProduced(jobs: seq<nat>, next: nat)
    requires |jobs| < next && forall i | 0 <= i < |jobs| :: jobs[i] == next - |jobs| + i
    ensures var more := jobs + [next]; forall i | 0 <= i < |more| :: more[i] == next + 1 - |more| + i
  {
  }

  lemma InOrderReceived(jobs: seq<nat>, next: nat)
    requires jobs != [] && |jobs| < next && forall i | 0 <= i < |jobs| :: jobs[i] == next - |jobs| + i
    ensures var rest := jobs[1..]; forall i | 0 <= i < |rest| :: rest[i] == next - |rest| + i
  {
  }

  /** Orders are handed out in the order of their numbers: whatever the interleaving, the next order a bot receives
      is the lowest not yet handed out. */
  lemma {:induction false} OrdersHandedOutInOrder(c: Config, actions: seq<Action>)
    requires Feasible(c, actions)
    ensures JobsInOrder(Exec(c, actions))
  {
    if actions != [] {
      var n := |actions| - 1;
      OrdersHandedOutInOrder(c, actions[..n]);
      StepKeepsJobsInOrder(c, Exec(c, actions[..n]), actions[n]);
    }
  }

  /** A tick adds a token, and is dropped exactly when the channel already holds TPS of them. */
  lemma TickDropsIffFull(c: Config, s: State)
    requires s.feeding && s.tokens <= c.tps
    ensures var t := Next(c, s, Tick);
            && t.ticks == s.ticks + 1
            && (t.dropped == s.dropped + 1 <==> s.tokens == c.tps)
            && (t.tokens == s.tokens + 1 <==> s.tokens < c.tps)
            && t.tokens + t.dropped == s.tokens + s.dropped + 1
  {
  }

  // ---- Every combination of outcomes can happen ----

  lemma Do(c: Config, actions: seq<Action>, a: Action)
    requires Feasible(c, actions) && Enabled(c, Exec(c, actions), a)
    ensures Feasible(c, actions + [a]) && Exec(c, actions + [a]) == Next(c, Exec(c, actions), a)
  {
    assert (actions + [a])[..|actions|] == actions;
  }

  lemma QueueOne(c: Config, s: State)
    requires s.next <= c.numOrders && c.numOrders > 0 && s.jobs == []
    ensures Enabled(c, s, Produce) && Next(c, s, Produce) == s.(jobs := [s.next], next := s.next + 1)
  {
  }

  lemma ReceiveOne(c: Config, s: State, k: nat)
    requires s.jobs == [k] && |s.bots| > 0 && s.bots[0].Idle?
    ensures Enabled(c, s, Receive(0)) && Next(c, s, Receive(0)) == s.(jobs := [], bots := s.bots[0 := Waiting(k)])
  {
  }

  lemma TickOne(c: Config, s: State)
    requires s.feeding && s.tokens == 0 && c.tps > 0
    ensures Enabled(c, s, Tick) && Next(c, s, Tick) == s.(ticks := s.ticks + 1, tokens := 1)
  {
  }

  lemma TakeOne(c: Config, s: State, k: nat)
    requires |s.bots| > 0 && s.bots[0] == Waiting(k) && s.tokens == 1
    ensures Enabled(c, s, TakeToken(0))
    ensures Next(c, s, TakeToken(0)) == s.(tokens := 0, takes := s.takes + 1, bots := s.bots[0 := Holding(k)])
  {
  }

  /** Queue the next order and let the first bot take it. */
  lemma HandOutNext(c: Config, actions: seq<Action>) returns (longer: seq<Action>)
    requires Feasible(c, actions)
    requires var s := Exec(c, actions);
             && s.next <= c.numOrders && c.numOrders > 0 && s.jobs == [] && |s.bots| > 0 && s.bots[0].Idle?
    ensures Feasible(c, longer)
    ensures var s := Exec(c, actions);
            Exec(c, longer) == s.(next := s.next + 1, bots := s.bots[0 := Waiting(s.next)])
  {
    var s := Exec(c, actions);
    QueueOne(c, s);
    Do(c, actions, Produce);
    var queued := actions + [Produce];
    ReceiveOne(c, Exec(c, queued), s.next);
    Do(c, queued, Receive(0));
    longer := queued + [Receive(0)];
  }

  /** Tick, and let it take the token. */
  lemma TakeTick(c: Config, actions: seq<Action>, k: nat) returns (longer: seq<Action>)
    requires Feasible(c, actions)
    requires var s := Exec(c, actions);
             s.feeding && s.tokens == 0 && c.tps > 0 && |s.bots| > 0 && s.bots[0] == Waiting(k)
    ensures Feasible(c, longer)
    ensures var s := Exec(c, actions);
            Exec(c, longer) == s.(ticks := s.ticks + 1, takes := s.takes + 1, bots := s.bots[0 := Holding(k)])
  {
    var s := Exec(c, actions);
    TickOne(c, s);
    Do(c, actions, Tick);
    var ticked := actions + [Tick];
    TakeOne(c, Exec(c, ticked), k);
    Do(c, ticked, TakeToken(0));
    longer := ticked + [TakeToken(0)];
  }

  lemma TakeUpNext(c: Config, actions: seq<Action>) returns (longer: seq<Action>)
    requires Feasible(c, actions)
    requires var s := Exec(c, actions);
             && s.next <= c.numOrders && c.numOrders > 0 && s.jobs == [] && s.tokens == 0 && s.feeding && c.tps > 0
             && |s.bots| > 0 && s.bots[0].Idle?
    ensures Feasible(c, longer)
    ensures var s := Exec(c, actions);
            Exec(c, longer) == s.(next := s.next + 1, ticks := s.ticks + 1, takes := s.takes + 1,
                                  bots := s.bots[0 := Holding(s.next)])
  {
    var s := Exec(c, actions);
    var handed := HandOutNext(c, actions);
    longer := TakeTick(c, handed, s.next);
    assert s.bots[0 := Waiting(s.next)][0 := Holding(s.next)] == s.bots[0 := Holding(s.next)];
  }

  /** The first bot's order is over. */
  function Ended(s: State, k: nat, o: Outcome): State
    requires |s.bots| > 0
  {
    s.(bots := s.bots[0 := Idle], outcomes := s.outcomes[k := o],
       publishFailures := s.publishFailures + (if o.PublishFailed? then 1 else 0))
  }

  lemma SkipOne(c: Config, s: State, k: nat)
    requires |s.bots| > 0 && s.bots[0] == Holding(k)
    ensures Enabled(c, s, Skip(0)) && Next(c, s, Skip(0)) == Ended(s, k, Skipped)
  {
  }

  lemma SendOne(c: Config, s: State, k: nat)
    requires |s.bots| > 0 && s.bots[0] == Holding(k)
    ensures Enabled(c, s, Send(0)) && Next(c, s, Send(0)) == s.(bots := s.bots[0 := Publishing(k, 0)])
  {
  }

  lemma AcceptOne(c: Config, s: State, k: nat)
    requires |s.bots| > 0 && s.bots[0] == Publishing(k, 0)
    ensures Enabled(c, s, Publish(0, true)) && Next(c, s, Publish(0, true)) == Ended(s, k, Published)
  {
  }

  lemma RefuseOne(c: Config, s: State, k: nat, attempt: nat)
    requires |s.bots| > 0 && s.bots[0] == Publishing(k, attempt) && attempt <= 2
    ensures Enabled(c, s, Publish(0, false))
    ensures Next(c, s, Publish(0, false))
            == if attempt == 2 then Ended(s, k, PublishFailed) else s.(bots := s.bots[0 := Publishing(k, attempt + 1)])
  {
  }

  /** What the bot did in between does not show. */
  lemma EndedAnyway(s: State, b: Bot, k: nat, o: Outcome)
    requires |s.bots| > 0
    ensures Ended(s.(bots := s.bots[0 := b]), k, o) == Ended(s, k, o)
  {
    assert s.bots[0 := b][0 := Idle] == s.bots[0 := Idle];
  }

  /** A bot that holds an order can end it any way. */
  lemma EndAs(c: Config, actions: seq<Action>, k: nat, o: Outcome) returns (longer: seq<Action>)
    requires Feasible(c, actions)
    requires |Exec(c, actions).bots| > 0 && Exec(c, actions).bots[0] == Holding(k)
    ensures Feasible(c, longer) && Exec(c, longer) == Ended(Exec(c, actions), k, o)
  {
    var s := Exec(c, actions);
    if o.Skipped? {
      SkipOne(c, s, k);
      Do(c, actions, Skip(0));
      longer := actions + [Skip(0)];
    } else {
      SendOne(c, s, k);
      Do(c, actions, Send(0));
      longer := PublishAs(c, actions + [Send(0)], k, o);
      EndedAnyway(s, Publishing(k, 0), k, o);
    }
  }

  lemma PublishAs(c: Config, actions: seq<Action>, k: nat, o: Outcome) returns (longer: seq<Action>)
    requires Feasible(c, actions) && !o.Skipped?
    requires |Exec(c, actions).bots| > 0 && Exec(c, actions).bots[0] == Publishing(k, 0)
    ensures Feasible(c, longer) && Exec(c, longer) == Ended(Exec(c, actions), k, o)
  {
    if o.Published? {
      AcceptOne(c, Exec(c, actions), k);
      Do(c, actions, Publish(0, true));
      longer := actions + [Publish(0, true)];
    } else {
      longer := RefuseFrom(c, actions, k, 0);
    }
  }

  lemma {:induction false} RefuseFrom(c: Config, actions: seq<Action>, k: nat, attempt: nat)
    returns (longer: seq<Action>)
    requires Feasible(c, actions) && attempt <= 2
    requires |Exec(c, actions).bots| > 0 && Exec(c, actions).bots[0] == Publishing(k, attempt)
    ensures Feasible(c, longer) && Exec(c, longer) == Ended(Exec(c, actions), k, PublishFailed)
    decreases 2 - attempt
  {
    var s := Exec(c, actions);
    RefuseOne(c, s, k, attempt);
    Do(c, actions, Publish(0, false));
    longer := actions + [Publish(0, false)];
    if attempt < 2 {
      longer := RefuseFrom(c, longer, k, attempt + 1);
      EndedAnyway(s, Publishing(k, attempt + 1), k, PublishFailed);
    }
  }

  /** The first `n` orders are over, as `f` says, and everything is at rest. */
  predicate OverUpTo(c: Config, s: State, f: nat -> Outcome, n: nat) {
    && s.next == n + 1 && s.jobs == [] && s.tokens == 0 && s.feeding && !s.closed && s.result.None?
    && |s.bots| == c.numBots && (forall w | 0 <= w < |s.bots| :: s.bots[w].Idle?)
    && s.outcomes == map k | 1 <= k <= n :: f(k)
  }

  lemma {:induction false} RunUpTo(c: Config, f: nat -> Outcome, n: nat) returns (actions: seq<Action>)
    requires Admitted(c) && n <= c.numOrders
    ensures Feasible(c, actions) && OverUpTo(c, Exec(c, actions), f, n)
  {
    if n == 0 {
      actions := [];
      assert (map k: nat | 1 <= k <= 0 :: f(k)) == map[];
    } else {
      var before := RunUpTo(c, f, n - 1);
      var holding := TakeUpNext(c, before);
      actions := EndAs(c, holding, n, f(n));
      OneMoreOver(c, Exec(c, before), Exec(c, holding), f, n);
    }
  }

  lemma OneMoreOver(c: Config, s: State, t: State, f: nat -> Outcome, n: nat)
    requires n > 0 && c.numBots > 0 && OverUpTo(c, s, f, n - 1)
    requires t == s.(next := n + 1, ticks := s.ticks + 1, takes := s.takes + 1, bots := s.bots[0 := Holding(n)])
    ensures OverUpTo(c, Ended(t, n, f(n)), f, n)
  {
    assert Ended(t, n, f(n)).outcomes == map k | 1 <= k <= n :: f(k);
  }

  /** The first `w` bots have returned, the others are idle. */
  predicate ReturnedUpTo(s: State, w: nat) {
    w <= |s.bots| && forall v | 0 <= v < |s.bots| :: s.bots[v] == if v < w then Exited else Idle
  }

  lemma {:induction false} ExitUpTo(c: Config, actions: seq<Action>, w: nat) returns (longer: seq<Action>)
    requires Feasible(c, actions) && w <= |Exec(c, actions).bots|
    requires var s := Exec(c, actions); s.closed && s.jobs == [] && ReturnedUpTo(s, 0)
    ensures Feasible(c, longer) && ReturnedUpTo(Exec(c, longer), w)
    ensures var s, t := Exec(c, actions), Exec(c, longer); t == s.(bots := t.bots) && |t.bots| == |s.bots|
  {
    if w == 0 {
      longer := actions;
    } else {
      var before := ExitUpTo(c, actions, w - 1);
      Do(c, before, Exit(w - 1));
      longer := before + [Exit(w - 1)];
    }
  }

  /** For every way the orders could end there is a run that ends so, returns and stops the feeder. */
  lemma EveryOutcomeHappens(c: Config, f: nat -> Outcome) returns (actions: seq<Action>)
    requires Admitted(c)
    ensures Feasible(c, actions) && Done(Exec(c, actions))
    ensures forall k | 1 <= k <= c.numOrders :: k in Exec(c, actions).outcomes && Exec(c, actions).outcomes[k] == f(k)
  {
    var over := RunUpTo(c, f, c.numOrders);
    Do(c, over, Close);
    var closed := over + [Close];
    var exited := ExitUpTo(c, closed, c.numBots);
    Do(c, exited, Return);
    var returned := exited + [Return];
    Do(c, returned, StopFeeding);
    actions := returned + [StopFeeding];
  }
}
