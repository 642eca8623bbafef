/** Which orders the round trips post, how large and how many, whatever the broker answers. */
module RoundTripOrders {
  import opened Outcomes
  import opened Quantities
  import opened RoundTrips
  import Safety = RoundTripSafety
  import Trades = RoundTripTrades

  // ----- what every order rests on -----

  /** The quantity of the latest buy read as terminal. */
  function LastFill(log: Log): Option<real> {
    if |log| == 0 then None
    else
      var e := log[|log| - 1];
      if e.Polled? && e.order == BuyOrder && Safety.ReadsTerminal(e, e.id) then Some(e.state.filledQty)
      else LastFill(log[..|log| - 1])
  }

  /**
   The log's last buy, posted at `p`, was accepted, the stream delivered fills for it, and at
   `i` it was read as terminal, filled as given; since it only sells have been posted.
   */
  ghost predicate Backed(b: Broker, log: Log, p: nat, i: nat, filledQty: real) {
    && p < i < |log| && log[p].Posted? && log[p].order == BuyOrder && log[p].reply.Accepted? && b(p + 1).sawFills
    && log[i].Polled? && log[i].order == BuyOrder && Safety.ReadsTerminal(log[i], log[p].reply.id)
    && log[i].state.filledQty == filledQty && LastFill(log) == Some(filledQty)
    && OnlySellsSince(log, p)
  }

  ghost predicate OnlySellsSince(log: Log, p: nat) {
    forall k :: p < k < |log| && log[k].Posted? ==> log[k].order.SellOrder?
  }

  predicate IsSellAt(log: Log, j: nat) {
    j < |log| && log[j].Posted? && log[j].order.SellOrder?
  }

  predicate IsBuyAt(log: Log, j: nat) {
    j < |log| && log[j].Posted? && log[j].order == BuyOrder
  }

  /** A sell posted at `j` is of the balance a 403 named in the answer just before. */
  predicate IsNamed(log: Log, j: nat)
    requires IsSellAt(log, j)
  {
    && j > 0 && IsSellAt(log, j - 1) && log[j - 1].reply.HttpError?
    && log[j - 1].reply.status == 403 && log[j - 1].reply.available == Some(log[j].order.qty)
    && log[j].order.qty > 0.0
  }

  /** A sell posted at `j` is of the sized quantity, or of the balance a 403 just named instead of it. */
  predicate SizedAs(log: Log, j: nat, asked: real)
    requires IsSellAt(log, j)
  {
    log[j].order.qty == asked || (IsNamed(log, j) && log[j - 1].order.qty == asked)
  }

  ghost predicate Sized(b: Broker, c: Config, log: Log, j: nat)
    requires IsSellAt(log, j)
  {
    exists p: nat, i: nat, filledQty: real ::
      && Backed(b, log[..j], p, i, filledQty) && Sellable(c, SellQty(c, filledQty))
      && SizedAs(log, j, RoundTen(SellQty(c, filledQty)))
  }

  /** A buy is the first order after a wait that began while the stream was open. */
  predicate OpenAtCheck(b: Broker, log: Log, j: nat)
    requires j < |log|
  {
    j > 0 && log[j - 1].Waited? && !Closed(b, j - 1)
  }

  ghost predicate Justified(b: Broker, c: Config, log: Log, j: nat)
    requires j < |log|
  {
    && (IsSellAt(log, j) ==> Sized(b, c, log, j))
    && (IsBuyAt(log, j) ==> OpenAtCheck(b, log, j))
  }

  ghost predicate AllJustified(b: Broker, c: Config, log: Log) {
    forall j :: 0 <= j < |log| ==> Justified(b, c, log, j)
  }

  lemma {:induction false} JustifiedGrows(b: Broker, c: Config, log: Log, e: Entry)
    requires AllJustified(b, c, log) && Justified(b, c, log + [e], |log|)
    ensures AllJustified(b, c, log + [e])
  {
    var longer := log + [e];
    forall j: nat | j < |log| ensures Justified(b, c, longer, j) {
      assert Justified(b, c, log, j);
      assert log[j] == longer[j] && longer[..j] == log[..j];
      if IsSellAt(log, j) {
        var p: nat, i: nat, filledQty: real :| Backed(b, log[..j], p, i, filledQty)
          && Sellable(c, SellQty(c, filledQty)) && SizedAs(log, j, RoundTen(SellQty(c, filledQty)));
        assert Backed(b, longer[..j], p, i, filledQty) && SizedAs(longer, j, RoundTen(SellQty(c, filledQty)));
      }
    }
  }

  lemma {:induction false} BackedGrows(b: Broker, log: Log, e: Entry, p: nat, i: nat, filledQty: real)
    requires Backed(b, log, p, i, filledQty) && (e.Waited? || e.order.SellOrder?)
    ensures Backed(b, log + [e], p, i, filledQty)
  {
    assert (log + [e])[..|log|] == log;
  }

  lemma {:induction false} SellIsJustified(
    b: Broker, c: Config, log: Log, e: Entry, p: nat, i: nat, filledQty: real)
    requires AllJustified(b, c, log) && Backed(b, log, p, i, filledQty) && Sellable(c, SellQty(c, filledQty))
    requires e.Posted? && e.order.SellOrder? && SizedAs(log + [e], |log|, RoundTen(SellQty(c, filledQty)))
    ensures AllJustified(b, c, log + [e]) && Backed(b, log + [e], p, i, filledQty)
  {
    assert (log + [e])[..|log|] == log;
    assert Sized(b, c, log + [e], |log|);
    JustifiedGrows(b, c, log, e);
    BackedGrows(b, log, e, p, i, filledQty);
  }

  lemma {:induction false} AwaitJustified(b: Broker, c: Config, log: Log, order: Order, id: nat, polls: nat)
    requires AllJustified(b, c, log)
    ensures AllJustified(b, c, AwaitTerminal(b, log, order, id, polls).0)
    decreases polls
  {
    if polls > 0 {
      var e := Polled(order, id, b(|log|).poll);
      JustifiedGrows(b, c, log, e);
      if e.state.OrderState? && !IsTerminal(e.state.status) {
        AwaitJustified(b, c, log + [e], order, id, polls - 1);
      }
    }
  }

  lemma {:induction false} FinishJustified(b: Broker, c: Config, log: Log, order: Order, id: nat)
    requires AllJustified(b, c, log)
    ensures AllJustified(b, c, FinishSell(b, log, order, id).0)
  {
    AwaitJustified(b, c, log, order, id, b(|log|).polls);
    var (after, settlement) := Settle(b, log, order, id);
    JustifiedGrows(b, c, after, Waited);
  }

  /** The buy just accepted at `p` backs what follows once it is read as terminal. */
  lemma {:induction false} AwaitBacks(b: Broker, log: Log, id: nat, polls: nat, p: nat)
    requires p < |log| && log[p] == Posted(BuyOrder, Accepted(id)) && b(p + 1).sawFills && OnlySellsSince(log, p)
    ensures
      var (after, settlement) := AwaitTerminal(b, log, BuyOrder, id, polls);
      settlement.Settled? ==> Backed(b, after, p, |after| - 1, settlement.filledQty)
    decreases polls
  {
    if polls > 0 {
      var e := Polled(BuyOrder, id, b(|log|).poll);
      if e.state.OrderState? && !IsTerminal(e.state.status) {
        AwaitBacks(b, log + [e], id, polls - 1, p);
      }
    }
  }

  lemma {:induction false} SubmitSellJustified(b: Broker, c: Config, log: Log, p: nat, i: nat, filledQty: real)
    requires AllJustified(b, c, log) && Backed(b, log, p, i, filledQty) && Sellable(c, SellQty(c, filledQty))
    ensures
      var after := SubmitSell(b, log, RoundTen(SellQty(c, filledQty))).0;
      AllJustified(b, c, after) && Backed(b, after, p, i, filledQty)
  {
    var asked := RoundTen(SellQty(c, filledQty));
    var after := SubmitSell(b, log, asked).0;
    var first := Posted(SellOrder(asked), b(|log|).post);
    var posted := log + [first];
    SellIsJustified(b, c, log, first, p, i, filledQty);
    if after != posted {
      var second := after[|posted|];
      assert after == posted + [second];
      assert SizedAs(after, |posted|, asked);
      SellIsJustified(b, c, posted, second, p, i, filledQty);
    }
  }

  lemma {:induction false} SellBackJustified(b: Broker, c: Config, log: Log, p: nat, i: nat, filledQty: real)
    requires AllJustified(b, c, log) && Backed(b, log, p, i, filledQty) && Sellable(c, SellQty(c, filledQty))
    ensures AllJustified(b, c, SellBack(b, log, RoundTen(SellQty(c, filledQty))).0)
  {
    var asked := RoundTen(SellQty(c, filledQty));
    var (sold, sell) := SubmitSell(b, log, asked);
    SubmitSellJustified(b, c, log, p, i, filledQty);
    if sell.SellAccepted? {
      FinishJustified(b, c, sold, sell.order, sell.id);
    } else if sell.SellRejected? {
      SubmitSellJustified(b, c, sold, p, i, filledQty);
      var (unwound, unwind) := SubmitSell(b, sold, asked);
      if unwind.SellAccepted? {
        FinishJustified(b, c, unwound, unwind.order, unwind.id);
      }
    }
  }

  lemma {:induction false} RoundJustified(b: Broker, c: Config, log: Log)
    requires AllJustified(b, c, log) && !Closed(b, |log|)
    ensures AllJustified(b, c, Round(b, c, log).0)
  {
    var waited := log + [Waited];
    var first := Posted(BuyOrder, b(|waited|).post);
    var posted := waited + [first];
    JustifiedGrows(b, c, log, Waited);
    assert OpenAtCheck(b, posted, |waited|);
    JustifiedGrows(b, c, waited, first);
    if b(|waited|).post.Accepted? {
      BoughtJustified(b, c, log, waited, posted);
    }
  }

  lemma {:induction false} BoughtJustified(b: Broker, c: Config, log: Log, waited: Log, posted: Log)
    requires waited == log + [Waited] && b(|waited|).post.Accepted? && posted == Post(b, waited, BuyOrder)
    requires AllJustified(b, c, posted)
    ensures AllJustified(b, c, Round(b, c, log).0)
  {
    var id, polls := b(|waited|).post.id, b(|posted|).polls;
    AwaitJustified(b, c, posted, BuyOrder, id, polls);
    var (settled, settlement) := Settle(b, posted, BuyOrder, id);
    if settlement.Settled? && b(|posted|).sawFills && Sellable(c, SellQty(c, settlement.filledQty)) {
      AwaitBacks(b, posted, id, polls, |waited|);
      SellBackJustified(b, c, settled, |waited|, |settled| - 1, settlement.filledQty);
    }
  }

  lemma {:induction false} RoundsJustified(b: Broker, c: Config, log: Log, count: nat)
    requires AllJustified(b, c, log)
    ensures AllJustified(b, c, Rounds(b, c, log, count).0)
    decreases count
  {
    if count > 0 && !Closed(b, |log|) {
      RoundJustified(b, c, log);
      RoundsJustified(b, c, Round(b, c, log).0, count - 1);
    }
  }

  /**
   In every run every buy is posted after a wait that began while the stream was open; and
   every sell posted, first try, retry or unwind, follows the latest buy's terminal state and
   fills, and is of the sellable floored (or raw) quantity that buy filled, or of the balance a
   403 just named in its place.
   */
  lemma {:induction false} EveryOrderIsJustified(b: Broker, c: Config, count: nat)
    ensures AllJustified(b, c, Rounds(b, c, [], count).0)
  {
    RoundsJustified(b, c, [], count);
  }

  // ----- buys and the stream -----

  ghost predicate BuysWhileOpen(b: Broker, log: Log) {
    forall j: nat :: IsBuyAt(log, j) ==> !Closed(b, j)
  }

  /** No wait that ends in a buy sees the stream die. */
  ghost predicate LivesThroughWaits(b: Broker, log: Log) {
    forall j: nat :: IsBuyAt(log, j) ==> !b(j).streamDies
  }

  lemma {:induction false} CheckedBuy(b: Broker, c: Config, log: Log, j: nat)
    requires AllJustified(b, c, log) && IsBuyAt(log, j)
    ensures OpenAtCheck(b, log, j) && Closed(b, j) == b(j).streamDies
  {
    assert Justified(b, c, log, j);
  }

  lemma {:induction false} ClosedOnlyForTheLast(b: Broker, c: Config, log: Log, j: nat, k: nat)
    requires AllJustified(b, c, log) && IsBuyAt(log, j) && Closed(b, j) && IsBuyAt(log, k)
    ensures k <= j
  {
    CheckedBuy(b, c, log, k);
    if j < k {
      ClosedStays(b, j, k - 1);
    }
  }

  /**
   Every buy of a run is posted on an open stream exactly when the stream does not die in the
   wait before a buy; and at most one buy, the run's last, is posted on a closed one.
   */
  lemma {:induction false} BuysWhileOpenExactly(b: Broker, c: Config, count: nat)
    ensures
      var log := Rounds(b, c, [], count).0;
      && (BuysWhileOpen(b, log) <==> LivesThroughWaits(b, log))
      && (forall j: nat, k: nat :: IsBuyAt(log, j) && Closed(b, j) && IsBuyAt(log, k) ==> k <= j)
  {
    var log := Rounds(b, c, [], count).0;
    EveryOrderIsJustified(b, c, count);
    forall j: nat | IsBuyAt(log, j) ensures Closed(b, j) == b(j).streamDies {
      CheckedBuy(b, c, log, j);
    }
    forall j: nat, k: nat | IsBuyAt(log, j) && Closed(b, j) && IsBuyAt(log, k) ensures k <= j {
      ClosedOnlyForTheLast(b, c, log, j, k);
    }
  }

  /** A broker whose stream dies during the wait before the first buy. */
  const LATE_BROKER: Broker := (at: nat) =>
    Tick(HttpError(400, None, None), PollNoReply, 0, false, at == 1)

  /** The stream was open when the round looked, and is closed when its buy is posted. */
  lemma {:induction false} BuyAfterClosing(log: Log)
    requires log == Rounds(LATE_BROKER, Safety.PLAIN, [], 1).0
    ensures log == [Waited, Posted(BuyOrder, HttpError(400, None, None))]
    ensures !Closed(LATE_BROKER, 0) && Closed(LATE_BROKER, 1) && IsBuyAt(log, 1)
  {
    assert Round(LATE_BROKER, Safety.PLAIN, []).0 == [] + [Waited] + [Posted(BuyOrder, HttpError(400, None, None))];
    assert !LATE_BROKER(0).streamDies && LATE_BROKER(1).streamDies;
  }

  // ----- sells and the fills they sell -----

  /** A sell posted at `j` exceeds the latest fill by at most the tolerance. */
  predicate WithinFill(c: Config, log: Log, j: nat)
    requires IsSellAt(log, j)
  {
    LastFill(log[..j]).Some? && log[j].order.qty <= LastFill(log[..j]).value + Trades.Tolerance(c)
  }

  /** A balance named in the answer at `j` exceeds the latest fill by at most the tolerance. */
  predicate NamesWithinFill(c: Config, log: Log, j: nat) {
    j < |log| && log[j].Posted? && log[j].reply.HttpError? && log[j].reply.available.Some? ==>
      LastFill(log[..j]).Some? && log[j].reply.available.value <= LastFill(log[..j]).value + Trades.Tolerance(c)
  }

  /** A sell that is not of a named balance is within its fill, whatever the broker answers. */
  lemma {:induction false} AskedIsWithinFill(b: Broker, c: Config, log: Log, j: nat)
    requires IsSellAt(log, j) && Sized(b, c, log, j) && 0.0 <= c.increment
    ensures !IsNamed(log, j) ==> WithinFill(c, log, j)
  {
    var p: nat, i: nat, filledQty: real :| Backed(b, log[..j], p, i, filledQty)
      && Sellable(c, SellQty(c, filledQty)) && SizedAs(log, j, RoundTen(SellQty(c, filledQty)));
    Trades.SellableIsFilled(c, filledQty);
    Trades.SellQtyWithinTolerance(c, filledQty);
  }

  lemma {:induction false} NamedIsWhatWasNamed(c: Config, log: Log, j: nat)
    requires IsSellAt(log, j) && IsNamed(log, j)
    ensures WithinFill(c, log, j) <==> NamesWithinFill(c, log, j - 1)
  {
    assert log[..j][..j - 1] == log[..j - 1];
    assert log[..j][j - 1] == log[j - 1];
  }

  /**
   Every sell of a run is within its fill exactly when every balance that the client then sells
   was named within that fill; no assumption on the broker.
   */
  lemma {:induction false} SellsWithinFillsExactly(b: Broker, c: Config, count: nat)
    requires 0.0 <= c.increment
    ensures
      var log := Rounds(b, c, [], count).0;
      (forall j: nat :: IsSellAt(log, j) ==> WithinFill(c, log, j)) <==>
      (forall j: nat :: j > 0 && IsSellAt(log, j) && IsNamed(log, j) ==> NamesWithinFill(c, log, j - 1))
  {
    var log := Rounds(b, c, [], count).0;
    EveryOrderIsJustified(b, c, count);
    forall j: nat | IsSellAt(log, j)
      ensures WithinFill(c, log, j) <==> (IsNamed(log, j) ==> NamesWithinFill(c, log, j - 1))
    {
      assert Justified(b, c, log, j);
      AskedIsWithinFill(b, c, log, j);
      if IsNamed(log, j) {
        NamedIsWhatWasNamed(c, log, j);
      }
    }
  }

  // ----- how many orders -----

  function BuysPosted(log: Log): nat {
    if |log| == 0 then 0
    else
      var e := log[|log| - 1];
      BuysPosted(log[..|log| - 1]) + if e.Posted? && e.order == BuyOrder then 1 else 0
  }

  function SellsPosted(log: Log): nat {
    if |log| == 0 then 0
    else
      var e := log[|log| - 1];
      SellsPosted(log[..|log| - 1]) + if e.Posted? && e.order.SellOrder? then 1 else 0
  }

  /** A stretch of the log posted so many buys and sells. */
  ghost predicate Posts(log: Log, after: Log, buys: nat, sells: nat) {
    BuysPosted(after) == BuysPosted(log) + buys && SellsPosted(after) == SellsPosted(log) + sells
  }

  lemma {:induction false} PostsSnoc(log: Log, e: Entry)
    ensures Posts(log, log + [e], if e.Posted? && e.order == BuyOrder then 1 else 0,
                  if e.Posted? && e.order.SellOrder? then 1 else 0)
  {
    assert (log + [e])[..|log|] == log;
  }

  lemma {:induction false} AwaitPosts(b: Broker, log: Log, order: Order, id: nat, polls: nat)
    ensures Posts(log, AwaitTerminal(b, log, order, id, polls).0, 0, 0)
    decreases polls
  {
    if polls > 0 {
      var e := Polled(order, id, b(|log|).poll);
      PostsSnoc(log, e);
      if e.state.OrderState? && !IsTerminal(e.state.status) {
        AwaitPosts(b, log + [e], order, id, polls - 1);
      }
    }
  }

  lemma {:induction false} FinishPosts(b: Broker, log: Log, order: Order, id: nat)
    ensures Posts(log, FinishSell(b, log, order, id).0, 0, 0)
  {
    AwaitPosts(b, log, order, id, b(|log|).polls);
    var (after, settlement) := Settle(b, log, order, id);
    PostsSnoc(after, Waited);
  }

  lemma {:induction false} SubmitSellPosts(b: Broker, log: Log, qty: real) returns (sells: nat)
    ensures Posts(log, SubmitSell(b, log, qty).0, 0, sells) && 1 <= sells <= 2
  {
    var after := SubmitSell(b, log, qty).0;
    var first := Posted(SellOrder(qty), b(|log|).post);
    var posted := log + [first];
    PostsSnoc(log, first);
    sells := 1;
    if after != posted {
      assert after == posted + [after[|posted|]];
      PostsSnoc(posted, after[|posted|]);
      sells := 2;
    }
  }

  lemma {:induction false} SellBackPosts(b: Broker, log: Log, qty: real) returns (sells: nat)
    ensures Posts(log, SellBack(b, log, qty).0, 0, sells) && 1 <= sells <= 4
  {
    var (sold, sell) := SubmitSell(b, log, qty);
    sells := SubmitSellPosts(b, log, qty);
    if sell.SellAccepted? {
      FinishPosts(b, sold, sell.order, sell.id);
    } else if sell.SellRejected? {
      var (unwound, unwind) := SubmitSell(b, sold, qty);
      var more := SubmitSellPosts(b, sold, qty);
      sells := sells + more;
      if unwind.SellAccepted? {
        FinishPosts(b, unwound, unwind.order, unwind.id);
      }
    }
  }

  lemma {:induction false} RoundPosts(b: Broker, c: Config, log: Log) returns (sells: nat)
    ensures Posts(log, Round(b, c, log).0, 1, sells) && sells <= 4
  {
    var waited := log + [Waited];
    var first := Posted(BuyOrder, b(|waited|).post);
    PostsSnoc(log, Waited);
    PostsSnoc(waited, first);
    sells := 0;
    if b(|waited|).post.Accepted? {
      var posted := waited + [first];
      var id := b(|waited|).post.id;
      AwaitPosts(b, posted, BuyOrder, id, b(|posted|).polls);
      var (settled, settlement) := Settle(b, posted, BuyOrder, id);
      if settlement.Settled? && b(|posted|).sawFills && Sellable(c, SellQty(c, settlement.filledQty)) {
        sells := SellBackPosts(b, settled, RoundTen(SellQty(c, settlement.filledQty)));
      }
    }
  }

  lemma {:induction false} PostsThen(
    log: Log, mid: Log, after: Log, buys: nat, sells: nat, buys2: nat, sells2: nat)
    requires Posts(log, mid, buys, sells) && Posts(mid, after, buys2, sells2)
    ensures Posts(log, after, buys + buys2, sells + sells2)
  {
  }

  /** Rounds one after another post a buy each, and at most four sells. */
  lemma {:induction false} RoundsPost(b: Broker, c: Config, logs: seq<Log>) returns (sells: nat)
    requires logs != [] && RoundByRound(b, c, logs)
    ensures Posts(logs[0], logs[|logs| - 1], |logs| - 1, sells) && sells <= 4 * (|logs| - 1)
  {
    sells := 0;
    if |logs| > 1 {
      var n := |logs| - 1;
      var before := RoundsPost(b, c, logs[..n]);
      var last := RoundPosts(b, c, logs[n - 1]);
      PostsThen(logs[0], logs[n - 1], logs[n], n - 1, before, 1, last);
      sells := before + last;
    }
  }

  /** A run posts at most one buy a round, a completed one exactly one, and at most four sells for each. */
  lemma {:induction false} OrdersAreBounded(b: Broker, c: Config, count: nat)
    ensures
      var (log, end) := Rounds(b, c, [], count);
      && BuysPosted(log) <= count && SellsPosted(log) <= 4 * BuysPosted(log)
      && (end == Completed ==> BuysPosted(log) == count)
  {
    var logs := RoundsMade(b, c, [], count);
    var sells := RoundsPost(b, c, logs);
  }
}
