/** How much the round trips buy and sell, when refusals are real. */
module RoundTripTrades {
  import opened Outcomes
  import opened Quantities
  import opened RepeatedSums
  import opened RoundTrips
  import opened RoundTripSafety

  /** What a log entry adds to the quantity bought: a terminal answer for a buy that filled something. */
  function BoughtBy(e: Entry): real {
    if e.Polled? && e.order == BuyOrder && ReadsTerminal(e, e.id) && e.state.filledQty > 0.0
    then e.state.filledQty else 0.0
  }

  /** The quantity filled, summed over the terminal answers for buys. */
  function Bought(log: Log): real {
    if |log| == 0 then 0.0 else Bought(log[..|log| - 1]) + BoughtBy(log[|log| - 1])
  }

  /** What a log entry adds to the quantity sold: a sell order the broker accepted, seen or hidden. */
  function SoldBy(e: Entry): real {
    if Accepts(e) && e.order.SellOrder? then e.order.qty else 0.0
  }

  function Sold(log: Log): real {
    if |log| == 0 then 0.0 else Sold(log[..|log| - 1]) + SoldBy(log[|log| - 1])
  }

  /** One for a sell the broker accepted, seen or hidden. */
  function SellOf(e: Entry): nat {
    if Accepts(e) && e.order.SellOrder? then 1 else 0
  }

  function SellsAccepted(log: Log): nat {
    if |log| == 0 then 0 else SellsAccepted(log[..|log| - 1]) + SellOf(log[|log| - 1])
  }

  /** A sell that the broker accepted and then answered with an HTTP error. */
  predicate HidesSell(e: Entry) {
    Accepts(e) && e.order.SellOrder? && e.reply.HttpError?
  }

  function SellsHidden(log: Log): nat {
    if |log| == 0 then 0 else SellsHidden(log[..|log| - 1]) + if HidesSell(log[|log| - 1]) then 1 else 0
  }

  ghost predicate HidesNoSell(log: Log) {
    forall k :: 0 <= k < |log| ==> !HidesSell(log[k])
  }

  lemma {:induction false} NoneHidden(log: Log)
    requires HidesNoSell(log)
    ensures SellsHidden(log) == 0
  {
    if |log| > 0 {
      NoneHidden(log[..|log| - 1]);
    }
  }

  /** How far one sell can exceed the fill it sells: a hair of an increment, and two roundings to ten decimals. */
  function Tolerance(c: Config): real {
    0.000000001 * c.increment + 0.0000000001
  }

  /** No error on a sell hides an accepted one, and a 403 names no more than the sell it refuses. */
  ghost predicate Plausible(log: Log) {
    forall k :: 0 <= k < |log| ==> PlausibleEntry(log[k])
  }

  ghost predicate PlausibleEntry(e: Entry) {
    && !HidesSell(e)
    && (e.Posted? && e.order.SellOrder? && e.reply.HttpError? && e.reply.status == 403 && e.reply.available.Some? ==>
          e.reply.available.value <= e.order.qty)
  }

  lemma {:induction false} Snoc(log: Log, e: Entry)
    ensures Bought(log + [e]) == Bought(log) + BoughtBy(e)
    ensures Sold(log + [e]) == Sold(log) + SoldBy(e)
    ensures SellsAccepted(log + [e]) == SellsAccepted(log) + SellOf(e)
    ensures SellsHidden(log + [e]) == SellsHidden(log) + if HidesSell(e) then 1 else 0
  {
    assert (log + [e])[..|log|] == log;
  }

  lemma {:induction false} PlausiblePrefix(log: Log, longer: Log)
    requires log <= longer
    ensures Plausible(longer) ==> Plausible(log)
  {
    assert forall k :: 0 <= k < |log| ==> log[k] == longer[k];
  }

  /**
   What a stretch of the log did: how much it bought and sold, and in how many sells, those
   hidden behind an HTTP error not counted.
   */
  ghost predicate Traded(log: Log, after: Log, bought: real, sold: real, sells: nat) {
    && Bought(after) == Bought(log) + bought
    && Sold(after) == Sold(log) + sold
    && SellsAccepted(after) + SellsHidden(log) == SellsAccepted(log) + SellsHidden(after) + sells
  }

  lemma {:induction false} TradedThen(
    log: Log, mid: Log, after: Log, bought: real, sold: real, sells: nat, bought2: real, sold2: real, sells2: nat)
    requires Traded(log, mid, bought, sold, sells) && Traded(mid, after, bought2, sold2, sells2)
    ensures Traded(log, after, bought + bought2, sold + sold2, sells + sells2)
  {
  }

  function BoughtFrom(order: Order, settlement: Settlement): real {
    if settlement.Settled? && order == BuyOrder && settlement.filledQty > 0.0 then settlement.filledQty else 0.0
  }

  lemma {:induction false} AwaitTrades(b: Broker, log: Log, order: Order, id: nat, polls: nat)
    ensures
      var (after, settlement) := AwaitTerminal(b, log, order, id, polls);
      Traded(log, after, BoughtFrom(order, settlement), 0.0, 0) && SellsHidden(after) == SellsHidden(log)
    decreases polls
  {
    if polls > 0 {
      var e := Polled(order, id, b(|log|).poll);
      Snoc(log, e);
      if e.state.OrderState? && !IsTerminal(e.state.status) {
        AwaitTrades(b, log + [e], order, id, polls - 1);
      }
    }
  }

  /** The last entry of a submission's log, and the retry's refused first. */
  lemma {:induction false} SubmitSellLog(b: Broker, log: Log, qty: real) returns (first: Entry, last: Entry)
    ensures first.Posted? && first.order == SellOrder(qty) && last.Posted? && last.order.SellOrder?
    ensures
      var (after, sell) := SubmitSell(b, log, qty);
      && after == (if |after| == |log| + 1 then log + [last] else log + [first] + [last])
      && (sell.SellRejected? <==> last.reply.HttpError?) && (sell.SellAccepted? ==> sell.order.SellOrder?)
      && if |after| == |log| + 1 then first == last
         else first.reply.HttpError? && first.reply.status == 403 && first.reply.available == Some(last.order.qty) && last.order.qty > 0.0
  {
    var after := SubmitSell(b, log, qty).0;
    first, last := after[|log|], after[|after| - 1];
  }

  lemma {:induction false} OneSubmission(log: Log, e: Entry)
    requires e.Posted? && e.order.SellOrder?
    ensures Traded(log, log + [e], 0.0, SoldBy(e), if e.reply.HttpError? then 0 else SellOf(e))
  {
    Snoc(log, e);
  }

  lemma {:induction false} PlausiblePost(log: Log, k: nat)
    requires Plausible(log) && k < |log| && log[k].Posted? && log[k].order.SellOrder?
    ensures log[k].reply.HttpError? ==> SoldBy(log[k]) == 0.0 && SellOf(log[k]) == 0
    ensures log[k].reply.HttpError? && log[k].reply.status == 403 && log[k].reply.available.Some? ==>
      log[k].reply.available.value <= log[k].order.qty
  {
    assert PlausibleEntry(log[k]);
  }

  /**
   At most one of the two submissions is accepted unless an error hides one; when none does,
   and a 403 names no more than was asked, for no more than was asked.
   */
  lemma {:induction false} SubmitSellTrades(b: Broker, log: Log, qty: real) returns (sold: real, sells: nat)
    requires qty >= 0.0
    ensures
      var (after, sell) := SubmitSell(b, log, qty);
      && Traded(log, after, 0.0, sold, sells) && sells <= 1
      && (sell.SellRejected? ==> sells == 0)
      && (sell.SellAccepted? ==> sell.order.SellOrder?)
      && (Plausible(after) ==> 0.0 <= sold <= qty && (sell.SellRejected? ==> sold == 0.0))
  {
    var after := SubmitSell(b, log, qty).0;
    var first, last := SubmitSellLog(b, log, qty);
    sold, sells := SoldBy(last), if last.reply.HttpError? then 0 else SellOf(last);
    if |after| == |log| + 1 {
      OneSubmission(log, last);
    } else {
      OneSubmission(log, first);
      OneSubmission(log + [first], last);
      TradedThen(log, log + [first], after, 0.0, SoldBy(first), 0, 0.0, sold, sells);
      sold := SoldBy(first) + sold;
    }
    if Plausible(after) {
      PlausiblePost(after, |log|);
      PlausiblePost(after, |after| - 1);
    }
  }

  lemma {:induction false} FinishSellTrades(b: Broker, log: Log, order: Order, id: nat)
    requires order.SellOrder?
    ensures
      var after := FinishSell(b, log, order, id).0;
      Traded(log, after, 0.0, 0.0, 0) && SellsHidden(after) == SellsHidden(log)
  {
    AwaitTrades(b, log, order, id, b(|log|).polls);
    var (after, settlement) := Settle(b, log, order, id);
    Snoc(after, Waited);
  }

  /** Between a sell and its unwind at most one is accepted unless an error hides one. */
  lemma {:induction false} SellBackTrades(b: Broker, log: Log, qty: real) returns (sold: real, sells: nat)
    requires qty >= 0.0
    ensures Traded(log, SellBack(b, log, qty).0, 0.0, sold, sells) && sells <= 1
    ensures Plausible(SellBack(b, log, qty).0) ==> 0.0 <= sold <= qty
  {
    var after := SellBack(b, log, qty).0;
    var (first, sell) := SubmitSell(b, log, qty);
    PlausiblePrefix(first, after);
    sold, sells := SubmitSellTrades(b, log, qty);
    if sell.SellAccepted? {
      FinishSellTrades(b, first, sell.order, sell.id);
      TradedThen(log, first, after, 0.0, sold, sells, 0.0, 0.0, 0);
    } else if sell.SellRejected? {
      sold, sells := UnwindTrades(b, log, qty, first, sold);
    }
  }

  lemma {:induction false} UnwindTrades(b: Broker, log: Log, qty: real, first: Log, sold1: real)
    returns (sold: real, sells: nat)
    requires qty >= 0.0 && first == SubmitSell(b, log, qty).0 && SubmitSell(b, log, qty).1.SellRejected?
    requires Traded(log, first, 0.0, sold1, 0) && (Plausible(SellBack(b, log, qty).0) ==> sold1 == 0.0)
    ensures Traded(log, SellBack(b, log, qty).0, 0.0, sold, sells) && sells <= 1
    ensures Plausible(SellBack(b, log, qty).0) ==> 0.0 <= sold <= qty
  {
    var after := SellBack(b, log, qty).0;
    var (second, unwind) := SubmitSell(b, first, qty);
    PlausiblePrefix(second, after);
    sold, sells := SubmitSellTrades(b, first, qty);
    TradedThen(log, first, second, 0.0, sold1, 0, 0.0, sold, sells);
    sold := sold1 + sold;
    if unwind.SellAccepted? {
      FinishSellTrades(b, second, unwind.order, unwind.id);
      TradedThen(log, second, after, 0.0, sold, sells, 0.0, 0.0, 0);
    }
  }

  /** The sell a round sizes from a fill exceeds it by at most the tolerance. */
  lemma {:induction false} SellQtyWithinTolerance(c: Config, filledQty: real)
    requires 0.0 <= c.increment && 0.0 <= filledQty
    ensures RoundTen(SellQty(c, filledQty)) <= filledQty + Tolerance(c)
    ensures c.increment != 0.0 ==>
      filledQty - c.increment - 0.0000000001 < RoundTen(SellQty(c, filledQty))
  {
    if c.increment != 0.0 {
      FloorToIncrementBounds(filledQty, c.increment);
      RoundTenWithin(SellQty(c, filledQty), filledQty - c.increment - 0.00000000005,
                     filledQty + 0.000000001 * c.increment + 0.00000000005);
    }
  }

  /** What is sold of a fill: all of it, or the whole increments that fit in it and a billionth of one. */
  lemma {:induction false} SellQtyIsFloored(c: Config, filledQty: real) returns (k: int, whole: real)
    requires 0.0 <= c.increment && 0.0 <= filledQty
    ensures c.increment == 0.0 ==> SellQty(c, filledQty) == filledQty
    ensures c.increment > 0.0 ==>
      && whole == Whole(k, c.increment) == (k as real) * c.increment && SellQty(c, filledQty) == RoundTen(whole)
      && whole <= filledQty + 0.000000001 * c.increment < whole + c.increment
  {
    k, whole := 0, 0.0;
    if c.increment > 0.0 {
      k, whole := FloorsToIncrements(filledQty, c.increment);
    }
  }

  /** Only a fill can be sellable. */
  lemma {:induction false} SellableIsFilled(c: Config, filledQty: real)
    requires 0.0 <= c.increment && Sellable(c, SellQty(c, filledQty))
    ensures filledQty > 0.0
  {
    if c.increment > 0.0 && filledQty <= 0.0 {
      NothingToFloor(filledQty, c.increment);
    }
  }

  lemma {:induction false} RoundTenKeepsSign(x: real)
    requires x > 0.0
    ensures RoundTen(x) >= 0.0
  {
  }

  /**
   One round: at most one accepted sell besides those an HTTP error hides, and with plausible
   answers for at most what it bought plus the tolerance.
   */
  lemma {:induction false} RoundTrades(b: Broker, c: Config, log: Log) returns (bought: real, sold: real, sells: nat)
    ensures Traded(log, Round(b, c, log).0, bought, sold, sells) && sells <= 1
    ensures Plausible(Round(b, c, log).0) && 0.0 <= c.increment ==> 0.0 <= sold <= bought + Tolerance(c)
  {
    var after := Round(b, c, log).0;
    var waited := log + [Waited];
    var first := Posted(BuyOrder, b(|waited|).post);
    var posted := waited + [first];
    Snoc(log, Waited);
    Snoc(waited, first);
    bought, sold, sells := 0.0, 0.0, 0;
    if b(|waited|).post.Accepted? {
      var id := b(|waited|).post.id;
      var (settled, settlement) := Settle(b, posted, BuyOrder, id);
      AwaitTrades(b, posted, BuyOrder, id, b(|posted|).polls);
      bought := BoughtFrom(BuyOrder, settlement);
      TradedThen(log, posted, settled, 0.0, 0.0, 0, bought, 0.0, 0);
      if settlement.Settled? && b(|posted|).sawFills && Sellable(c, SellQty(c, settlement.filledQty)) {
        sold, sells := FillIsSold(b, c, settled, settlement.filledQty);
        TradedThen(log, settled, after, bought, 0.0, 0, 0.0, sold, sells);
      }
    }
  }

  /** A round that hides no sell accepts at most one, whatever balances a 403 names. */
  lemma {:induction false} OneSellARound(b: Broker, c: Config, log: Log)
    requires HidesNoSell(Round(b, c, log).0)
    ensures SellsAccepted(Round(b, c, log).0) <= SellsAccepted(log) + 1
  {
    var after := Round(b, c, log).0;
    var bought, sold, sells := RoundTrades(b, c, log);
    NoneHidden(after);
    assert forall k :: 0 <= k < |log| ==> log[k] == after[k];
    NoneHidden(log);
  }

  lemma {:induction false} FillIsSold(b: Broker, c: Config, log: Log, filledQty: real) returns (sold: real, sells: nat)
    requires Sellable(c, SellQty(c, filledQty))
    ensures Traded(log, SellBack(b, log, RoundTen(SellQty(c, filledQty))).0, 0.0, sold, sells) && sells <= 1
    ensures Plausible(SellBack(b, log, RoundTen(SellQty(c, filledQty))).0) && 0.0 <= c.increment ==>
      filledQty > 0.0 && 0.0 <= sold <= filledQty + Tolerance(c)
  {
    RoundTenKeepsSign(SellQty(c, filledQty));
    sold, sells := SellBackTrades(b, log, RoundTen(SellQty(c, filledQty)));
    if 0.0 <= c.increment {
      SellableIsFilled(c, filledQty);
      SellQtyWithinTolerance(c, filledQty);
    }
  }

  /** Rounds one after another accept a sell each, and sell what they bought and a tolerance each. */
  lemma {:induction false} RoundsTrade(b: Broker, c: Config, logs: seq<Log>)
    returns (bought: real, sold: real, sells: nat)
    requires logs != [] && RoundByRound(b, c, logs)
    ensures Traded(logs[0], logs[|logs| - 1], bought, sold, sells) && sells < |logs|
    ensures Plausible(logs[|logs| - 1]) && 0.0 <= c.increment ==> sold <= bought + Times(|logs| - 1, Tolerance(c))
  {
    bought, sold, sells := 0.0, 0.0, 0;
    if |logs| > 1 {
      var n := |logs| - 1;
      PlausiblePrefix(logs[n - 1], logs[n]);
      var bought1, sold1, sells1 := RoundsTrade(b, c, logs[..n]);
      var bought2, sold2, sells2 := RoundTrades(b, c, logs[n - 1]);
      TradedThen(logs[0], logs[n - 1], logs[n], bought1, sold1, sells1, bought2, sold2, sells2);
      bought, sold, sells := bought1 + bought2, sold1 + sold2, sells1 + sells2;
    }
  }

  lemma {:induction false} MoreRoundsTolerateMore(c: Config, rounds: nat, count: nat)
    requires rounds <= count
    ensures 0.0 <= c.increment ==> Times(rounds, Tolerance(c)) <= Times(count, Tolerance(c))
    decreases count
  {
    if rounds < count {
      MoreRoundsTolerateMore(c, rounds, count - 1);
    }
  }

  lemma {:induction false} TradedFromNothing(log: Log, bought: real, sold: real, sells: nat)
    requires Traded([], log, bought, sold, sells)
    ensures Bought(log) == bought && Sold(log) == sold && SellsAccepted(log) == SellsHidden(log) + sells
  {
  }

  lemma {:induction false} AsProduct(sold: real, bought: real, count: nat, tolerance: real)
    requires sold <= bought + Times(count, tolerance)
    ensures sold <= bought + (count as real) * tolerance
  {
    TimesIsProduct(count, tolerance);
  }

  /** What the trades of a whole run come to. */
  lemma {:induction false} RunComesTo(c: Config, count: nat, log: Log, bought: real, sold: real, sells: nat)
    requires Traded([], log, bought, sold, sells) && sells <= count
    requires Plausible(log) && 0.0 <= c.increment ==> sold <= bought + Times(count, Tolerance(c))
    ensures SellsAccepted(log) <= SellsHidden(log) + count
    ensures HidesNoSell(log) ==> SellsAccepted(log) <= count
    ensures Plausible(log) && 0.0 <= c.increment ==> Sold(log) <= Bought(log) + (count as real) * Tolerance(c)
  {
    TradedFromNothing(log, bought, sold, sells);
    if HidesNoSell(log) {
      NoneHidden(log);
    }
    if Plausible(log) && 0.0 <= c.increment {
      AsProduct(sold, bought, count, Tolerance(c));
    }
  }

  /**
   Over a whole run of `count` rounds at most one sell a round is accepted, besides those that
   an HTTP error hides; and if there are none of these and a 403 names no more than the sell it
   refuses, the client never sells more than it bought plus one tolerance a round.
   */
  lemma {:induction false} RunTrades(b: Broker, c: Config, count: nat)
    ensures
      var log := Rounds(b, c, [], count).0;
      && SellsAccepted(log) <= SellsHidden(log) + count
      && (HidesNoSell(log) ==> SellsAccepted(log) <= count)
      && (Plausible(log) && 0.0 <= c.increment ==> Sold(log) <= Bought(log) + (count as real) * Tolerance(c))
  {
    var logs := RoundsMade(b, c, [], count);
    var bought, sold, sells := RoundsTrade(b, c, logs);
    MoreRoundsTolerateMore(c, |logs| - 1, count);
    RunComesTo(c, count, Rounds(b, c, [], count).0, bought, sold, sells);
  }

  // ----- without the two assumptions -----

  lemma {:induction false} SnocEach(a: Entry, b: Entry, d: Entry, e: Entry, f: Entry)
    ensures
      var log := [a, b, d, e, f];
      && Bought(log) == BoughtBy(a) + BoughtBy(b) + BoughtBy(d) + BoughtBy(e) + BoughtBy(f)
      && Sold(log) == SoldBy(a) + SoldBy(b) + SoldBy(d) + SoldBy(e) + SoldBy(f)
      && SellsAccepted(log) == SellOf(a) + SellOf(b) + SellOf(d) + SellOf(e) + SellOf(f)
  {
    Snoc([], a);
    Snoc([a], b);
    Snoc([a, b], d);
    Snoc([a, b, d], e);
    Snoc([a, b, d, e], f);
    assert [] + [a] == [a] && [a] + [b] == [a, b] && [a, b] + [d] == [a, b, d];
    assert [a, b, d] + [e] == [a, b, d, e] && [a, b, d, e] + [f] == [a, b, d, e, f];
  }

  /** With a sell hidden behind an error, one fill is sold twice. */
  lemma {:induction false} HiddenSellOversells(log: Log)
    requires log == Rounds(HIDING_BROKER, PLAIN, [], 1).0
    ensures Bought(log) == 1.0 && Sold(log) == 2.0 && SellsAccepted(log) == 2
  {
    var hidden := Posted(SellOrder(1.0), HttpError(500, None, Some(3)));
    var sold := [Waited, Posted(BuyOrder, Accepted(2)), Polled(BuyOrder, 2, OrderState("filled", 1.0)), hidden];
    HidingRound(sold);
    var both := sold + [Posted(SellOrder(1.0), Accepted(5))];
    SnocEach(sold[0], sold[1], sold[2], sold[3], Posted(SellOrder(1.0), Accepted(5)));
    assert both == [sold[0], sold[1], sold[2], sold[3], Posted(SellOrder(1.0), Accepted(5))];
    FinishSellTrades(HIDING_BROKER, both, SellOrder(1.0), 5);
  }

  /** A broker that fills every buy with 1 and refuses the first sell, naming a balance of 5. */
  const NAMING_BROKER: Broker := (at: nat) =>
    Tick(if at == 3 then HttpError(403, Some(5.0), None) else Accepted(at + 1),
         OrderState("filled", 1.0), 1, true, false)

  /** Every refusal is real, and the client sells the balance named, though it bought a fifth of it. */
  lemma {:induction false} NamedBalanceOversells(log: Log)
    requires log == Rounds(NAMING_BROKER, PLAIN, [], 1).0
    ensures RefusalsAreReal(log) && Bought(log) == 1.0 && Sold(log) == 5.0
  {
    var bought := [Waited, Posted(BuyOrder, Accepted(2))];
    var settled := bought + [Polled(BuyOrder, 2, OrderState("filled", 1.0))];
    var named := settled + [Posted(SellOrder(1.0), HttpError(403, Some(5.0), None)), Posted(SellOrder(5.0), Accepted(5))];
    NamingRound(bought, settled, named);
    SnocEach(named[0], named[1], named[2], named[3], named[4]);
    assert named == [named[0], named[1], named[2], named[3], named[4]];
    FinishSellTrades(NAMING_BROKER, named, SellOrder(5.0), 5);
  }

  lemma {:induction false} NamingRound(bought: Log, settled: Log, named: Log)
    requires bought == [Waited, Posted(BuyOrder, Accepted(2))]
    requires settled == bought + [Polled(BuyOrder, 2, OrderState("filled", 1.0))]
    requires named == settled + [Posted(SellOrder(1.0), HttpError(403, Some(5.0), None)), Posted(SellOrder(5.0), Accepted(5))]
    ensures Round(NAMING_BROKER, PLAIN, []) == FinishSell(NAMING_BROKER, named, SellOrder(5.0), 5)
    ensures RefusalsAreReal(Round(NAMING_BROKER, PLAIN, []).0)
  {
    assert Settle(NAMING_BROKER, bought, BuyOrder, 2) == (settled, Settled(1.0));
    assert RoundTen(1.0) == 1.0;
    var refused := settled + [Posted(SellOrder(1.0), HttpError(403, Some(5.0), None))];
    assert Post(NAMING_BROKER, settled, SellOrder(1.0)) == refused;
    assert named == refused + [Posted(SellOrder(5.0), Accepted(5))];
    assert SubmitSell(NAMING_BROKER, settled, 1.0) == (named, SellAccepted(SellOrder(5.0), 5));
    assert SellBack(NAMING_BROKER, settled, 1.0) == FinishSell(NAMING_BROKER, named, SellOrder(5.0), 5);
    assert [] + [Waited] + [Posted(BuyOrder, Accepted(2))] == bought;
    var polled := Polled(SellOrder(5.0), 5, OrderState("filled", 1.0));
    assert FinishSell(NAMING_BROKER, named, SellOrder(5.0), 5).0 == named + [polled] + [Waited];
  }
}
