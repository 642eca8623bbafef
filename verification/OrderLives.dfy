/**
 The orders as they are at the broker, between one answer and the next, and what the client's
 waiting for their final states is good for.
 */
module OrderLives {
  import opened Outcomes
  import opened Quantities
  import opened RoundTrips
  import opened RoundTripSafety
  import Orders = RoundTripOrders

  datatype OrderAt = OrderAt(status: string, filledQty: real)

  /** The state of an order, by its id, at each point of the log. */
  type Lives = (nat, nat) -> OrderAt

  /** An order that can no longer fill stays as it is, and an answer tells the state of its moment. */
  ghost predicate Tells(lives: Lives, log: Log) {
    && (forall id: nat, i: nat, j: nat :: i <= j && !CanStillFill(lives(id, i).status) ==> lives(id, j) == lives(id, i))
    && forall i: nat :: i < |log| && log[i].Polled? && log[i].state.OrderState? ==>
         lives(log[i].id, i) == OrderAt(log[i].state.status, log[i].state.filledQty)
  }

  /**
   No order is posted while one accepted earlier, seen or hidden, can still fill, as long as
   nothing but the run's last answer hides one.
   */
  lemma {:induction false} NothingPostedWhileOneCanFill(
    b: Broker, c: Config, count: nat, lives: Lives, log: Log, k: nat, j: nat)
    requires log == Rounds(b, c, [], count).0 && HidesOnlyAtTheEnd(log) && Tells(lives, log)
    requires k < j < |log| && Accepts(log[k]) && log[j].Posted?
    ensures !CanStillFill(lives(AcceptedId(log[k].reply).value, j).status)
  {
    RunIsSafeExactly(b, c, count);
    assert ReadBefore(log, k, j);
    var l :| k < l < j && ReadsTerminal(log[l], AcceptedId(log[k].reply).value);
    assert lives(log[l].id, l) == OrderAt(log[l].state.status, log[l].state.filledQty);
  }

  /** A sell that is not of a named balance is sized from all that the latest buy has filled and ever will. */
  lemma {:induction false} SellsAreOfTheWholeFill(
    b: Broker, c: Config, count: nat, lives: Lives, log: Log, j: nat) returns (p: nat)
    requires log == Rounds(b, c, [], count).0 && Tells(lives, log)
    requires Orders.IsSellAt(log, j) && !Orders.IsNamed(log, j)
    ensures p < j && log[p].Posted? && log[p].order == BuyOrder && log[p].reply.Accepted?
    ensures Orders.OnlySellsSince(log[..j], p)
    ensures
      var buy := lives(log[p].reply.id, j);
      && !CanStillFill(buy.status) && Sellable(c, SellQty(c, buy.filledQty))
      && log[j].order.qty == RoundTen(SellQty(c, buy.filledQty))
      && forall later: nat :: j <= later ==> lives(log[p].reply.id, later) == buy
  {
    Orders.EveryOrderIsJustified(b, c, count);
    assert Orders.Justified(b, c, log, j);
    var p0: nat, i: nat, filledQty: real :| Orders.Backed(b, log[..j], p0, i, filledQty)
      && Sellable(c, SellQty(c, filledQty)) && Orders.SizedAs(log, j, RoundTen(SellQty(c, filledQty)));
    p := p0;
    assert log[..j][p] == log[p] && log[..j][i] == log[i];
    assert lives(log[i].id, i) == OrderAt(log[i].state.status, filledQty);
  }

  /**
   A buy that was read as final is sold back exactly when the stream delivered its fills and
   what the increment leaves of it is positive and not below the least order.
   */
  lemma {:induction false} SellsExactlyWhenSellable(
    b: Broker, c: Config, log: Log, id: nat, settled: Log, filledQty: real)
    requires b(|log| + 1).post == Accepted(id)
    requires Settle(b, log + [Waited] + [Posted(BuyOrder, Accepted(id))], BuyOrder, id) == (settled, Settled(filledQty))
    ensures
      var after := Round(b, c, log).0;
      var qty := SellQty(c, filledQty);
      && settled <= after
      && (|after| > |settled| <==> b(|log| + 2).sawFills && qty > 0.0 && qty >= c.minOrderSize)
      && (|after| > |settled| ==> after[|settled|] == Posted(SellOrder(RoundTen(qty)), b(|settled|).post))
  {
    var bought := log + [Waited] + [Posted(BuyOrder, Accepted(id))];
    assert Post(b, log + [Waited], BuyOrder) == bought && |bought| == |log| + 2;
    var qty := SellQty(c, filledQty);
    if b(|bought|).sawFills && Sellable(c, qty) {
      SellBackBegins(b, settled, RoundTen(qty));
      assert Round(b, c, log) == SellBack(b, settled, RoundTen(qty));
    } else {
      assert Round(b, c, log) == (settled, Returned);
    }
  }

  lemma {:induction false} SellBackBegins(b: Broker, log: Log, qty: real)
    ensures log + [Posted(SellOrder(qty), b(|log|).post)] <= SellBack(b, log, qty).0
  {
    var (sold, sell) := SubmitSell(b, log, qty);
    assert Post(b, log, SellOrder(qty)) <= sold <= SellBack(b, log, qty).0;
  }

  /** An answer that leaves the order able to fill. */
  predicate IsLive(reply: PollReply) {
    reply.OrderState? && CanStillFill(reply.status)
  }

  /** What the first answer that is not a live state makes of a wait. */
  function EndedBy(reply: PollReply): Settlement {
    match reply
    case PollHttpError => PollFailed
    case PollNoReply => PollLost
    case OrderState(_, filledQty) => Settled(filledQty)
  }

  /**
   The wait for an order's final state: it asks on through exactly the states in which the
   order can still fill, takes the quantity of the first final one, and gives up when the
   deadline comes first.
   */
  lemma {:induction false} WaitsThroughLiveStates(b: Broker, log: Log, order: Order, id: nat, polls: nat)
    returns (end: nat)
    ensures |log| <= end <= |log| + polls && forall i: nat :: |log| <= i < end ==> IsLive(b(i).poll)
    ensures end < |log| + polls ==> !IsLive(b(end).poll)
    ensures
      var (after, settlement) := AwaitTerminal(b, log, order, id, polls);
      && settlement == (if end == |log| + polls then TimedOut else EndedBy(b(end).poll))
      && log <= after && |after| == (if end == |log| + polls then end else end + 1)
      && forall i: nat :: |log| <= i < |after| ==> after[i] == Polled(order, id, b(i).poll)
    decreases polls
  {
    end := |log|;
    if polls > 0 && IsLive(b(|log|).poll) {
      var asked := log + [Polled(order, id, b(|log|).poll)];
      end := WaitsThroughLiveStates(b, asked, order, id, polls - 1);
      var after := AwaitTerminal(b, log, order, id, polls).0;
      forall i: nat | |log| <= i < |after| ensures after[i] == Polled(order, id, b(i).poll) {
        assert after[|log|] == asked[|log|];
      }
    }
  }
}
