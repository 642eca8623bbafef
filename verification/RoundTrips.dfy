/**
 The generated buy/sell round trips against a broker that may answer anything: which orders
 are posted, and what is known of each before the next.
 */
module RoundTrips {
  import opened Outcomes
  import opened Quantities

  datatype Order = BuyOrder | SellOrder(qty: real)

  /**
   A submission's answer.  An HTTP error, or no answer at all, says nothing certain about the
   order: `hidden` is the order the broker accepted anyway, which the client cannot see.
   */
  datatype PostReply =
    | Accepted(id: nat)
    | HttpError(status: int, available: Option<real>, hidden: Option<nat>)
    | NoReply(hidden: Option<nat>)

  datatype PollReply = OrderState(status: string, filledQty: real) | PollHttpError | PollNoReply

  /**
   Everything the client asked of the broker, with the answers, and the waits between for the
   account's reads to settle.
   */
  datatype Entry =
    | Posted(order: Order, reply: PostReply)
    | Polled(order: Order, id: nat, state: PollReply)
    | Waited

  type Log = seq<Entry>

  /**
   What the adversary does at one point of the log: what it answers to a submission or a
   status request, how many status requests fit before the deadline, whether the stream
   delivered fill events for the order, and whether the stream dies.
   */
  datatype Tick = Tick(post: PostReply, poll: PollReply, polls: nat, sawFills: bool, streamDies: bool)

  type Broker = nat -> Tick

  /** Whether the stream has died by point `at` of the log; it never reopens. */
  predicate Closed(b: Broker, at: nat) {
    b(at).streamDies || (at > 0 && Closed(b, at - 1))
  }

  lemma {:induction false} ClosedStays(b: Broker, at: nat, later: nat)
    requires at <= later && Closed(b, at)
    ensures Closed(b, later)
    decreases later
  {
    if at < later {
      ClosedStays(b, at, later - 1);
    }
  }

  datatype Config = Config(increment: real, minOrderSize: real)

  predicate IsTerminal(status: string) {
    status == "filled" || status == "canceled" || status == "expired" || status == "rejected"
  }

  // ----- the client, as a function of the broker's answers -----

  function Post(b: Broker, log: Log, order: Order): Log {
    log + [Posted(order, b(|log|).post)]
  }

  datatype Settlement = Settled(filledQty: real) | TimedOut | PollFailed | PollLost

  /** Ask for an order's state until it is terminal, at most `polls` times. */
  function AwaitTerminal(b: Broker, log: Log, order: Order, id: nat, polls: nat): (r: (Log, Settlement))
    ensures log <= r.0
    decreases polls
  {
    if polls == 0 then (log, TimedOut)
    else
      var reply := b(|log|).poll;
      var asked := log + [Polled(order, id, reply)];
      match reply
      case PollHttpError => (asked, PollFailed)
      case PollNoReply => (asked, PollLost)
      case OrderState(status, filledQty) =>
        if IsTerminal(status) then (asked, Settled(filledQty)) else AwaitTerminal(b, asked, order, id, polls - 1)
  }

  function Settle(b: Broker, log: Log, order: Order, id: nat): (r: (Log, Settlement))
    ensures log <= r.0
  {
    AwaitTerminal(b, log, order, id, b(|log|).polls)
  }

  datatype SellOutcome = SellAccepted(order: Order, id: nat) | SellRejected | SellLost

  /** Submit a sell; on a 403 that names a positive balance, once more at that balance. */
  function SubmitSell(b: Broker, log: Log, qty: real): (r: (Log, SellOutcome))
    ensures log <= r.0 && |log| < |r.0|
  {
    var posted := Post(b, log, SellOrder(qty));
    match b(|log|).post
    case Accepted(id) => (posted, SellAccepted(SellOrder(qty), id))
    case NoReply(_) => (posted, SellLost)
    case HttpError(status, available, _) =>
      if status == 403 && available.Some? && available.value > 0.0 then
        var retry := SellOrder(available.value);
        var retried := Post(b, posted, retry);
        match b(|posted|).post
        case Accepted(id) => (retried, SellAccepted(retry, id))
        case NoReply(_) => (retried, SellLost)
        case HttpError(_, _, _) => (retried, SellRejected)
      else (posted, SellRejected)
  }

  /** How a round ends: it returns, it is skipped, it refuses the run, or a lost connection ends the run. */
  datatype RoundEnd = Returned | Skipped | Refused | Crashed

  /** An accepted sell ends the round only when its terminal state has been read and the reads have settled. */
  function FinishSell(b: Broker, log: Log, order: Order, id: nat): (r: (Log, RoundEnd))
    ensures log <= r.0
  {
    var (after, settlement) := Settle(b, log, order, id);
    match settlement
    case Settled(_) => (after + [Waited], Returned)
    case TimedOut => (after, Refused)
    case PollFailed => (after, Refused)
    case PollLost => (after, Crashed)
  }

  /** Sell, and if the broker refuses the sell, unwind once at the same quantity. */
  function SellBack(b: Broker, log: Log, qty: real): (r: (Log, RoundEnd))
    ensures log <= r.0 && |log| < |r.0|
  {
    var (sold, sell) := SubmitSell(b, log, qty);
    match sell
    case SellLost => (sold, Crashed)
    case SellAccepted(order, id) => FinishSell(b, sold, order, id)
    case SellRejected =>
      var (unwound, unwind) := SubmitSell(b, sold, qty);
      match unwind
      case SellLost => (unwound, Crashed)
      case SellRejected => (unwound, Refused)
      case SellAccepted(order, id) => FinishSell(b, unwound, order, id)
  }

  function SellQty(c: Config, filledQty: real): real {
    if c.increment != 0.0 then FloorToIncrement(filledQty, c.increment) else filledQty
  }

  predicate Sellable(c: Config, qty: real) {
    qty > 0.0 && qty >= c.minOrderSize
  }

  function Round(b: Broker, c: Config, log: Log): (r: (Log, RoundEnd))
    ensures log <= r.0 && |log| < |r.0|
  {
    var waited := log + [Waited];
    var bought := Post(b, waited, BuyOrder);
    match b(|waited|).post
    case NoReply(_) => (bought, Crashed)
    case HttpError(status, _, _) => (bought, if status >= 500 then Refused else Skipped)
    case Accepted(id) =>
      var (settled, settlement) := Settle(b, bought, BuyOrder, id);
      match settlement
      case TimedOut => (settled, Refused)
      case PollFailed => (settled, Refused)
      case PollLost => (settled, Crashed)
      case Settled(filledQty) =>
        var qty := SellQty(c, filledQty);
        if !b(|bought|).sawFills || !Sellable(c, qty) then (settled, Returned)
        else SellBack(b, settled, RoundTen(qty))
  }

  datatype RunEnd = Completed | RunRefused | RunCrashed

  function Rounds(b: Broker, c: Config, log: Log, count: nat): (r: (Log, RunEnd))
    ensures log <= r.0
    decreases count
  {
    if count == 0 then (log, Completed)
    else if Closed(b, |log|) then (log, RunRefused)
    else
      var (after, end) := Round(b, c, log);
      match end
      case Returned => Rounds(b, c, after, count - 1)
      case Skipped => Rounds(b, c, after, count - 1)
      case Refused => (after, RunRefused)
      case Crashed => (after, RunCrashed)
  }

  /** The log before, between and after the rounds of a run. */
  ghost predicate RoundByRound(b: Broker, c: Config, logs: seq<Log>) {
    forall i :: 0 < i < |logs| ==> logs[i] == Round(b, c, logs[i - 1]).0
  }

  /** After the round that begins with this log the run goes on. */
  predicate GoesOn(b: Broker, c: Config, log: Log) {
    var end := Round(b, c, log).1;
    end == Returned || end == Skipped
  }

  /** Every round but perhaps the last lets the run go on. */
  ghost predicate AllButLastGoOn(b: Broker, c: Config, logs: seq<Log>) {
    forall i :: 0 <= i < |logs| - 2 ==> GoesOn(b, c, logs[i])
  }

  /** One round before the others. */
  lemma {:induction false} RoundBefore(b: Broker, c: Config, log: Log, later: seq<Log>, logs: seq<Log>)
    requires later != [] && later[0] == Round(b, c, log).0 && RoundByRound(b, c, later) && AllButLastGoOn(b, c, later)
    requires |later| > 1 ==> GoesOn(b, c, log)
    requires logs == [log] + later
    ensures RoundByRound(b, c, logs) && AllButLastGoOn(b, c, logs)
  {
    forall i | 0 < i < |logs| ensures logs[i] == Round(b, c, logs[i - 1]).0 {
      assert logs[i] == later[i - 1] && (i > 1 ==> logs[i - 1] == later[i - 2]);
    }
    forall i | 0 <= i < |logs| - 2 ensures GoesOn(b, c, logs[i]) {
      assert i > 0 ==> logs[i] == later[i - 1];
    }
  }

  lemma {:induction false} RoundsMade(b: Broker, c: Config, log: Log, count: nat) returns (logs: seq<Log>)
    ensures 0 < |logs| <= count + 1 && logs[0] == log && RoundByRound(b, c, logs) && AllButLastGoOn(b, c, logs)
    ensures logs[|logs| - 1] == Rounds(b, c, log, count).0
    ensures Rounds(b, c, log, count).1 == Completed ==>
      |logs| == count + 1 && (count > 0 ==> GoesOn(b, c, logs[count - 1]))
    decreases count
  {
    logs := [log];
    if count > 0 && !Closed(b, |log|) {
      var (next, end) := Round(b, c, log);
      var later := [next];
      if end == Returned || end == Skipped {
        later := RoundsMade(b, c, next, count - 1);
      }
      logs := [log] + later;
      RoundBefore(b, c, log, later, logs);
    }
  }

  // ----- the client, as it runs -----

  class Rest {
    const broker: Broker
    var log: Log

    constructor (broker: Broker)
      ensures this.broker == broker && log == []
    {
      this.broker := broker;
      log := [];
    }

    method SubmitOrder(order: Order) returns (reply: PostReply)
      modifies this
      ensures reply == broker(|old(log)|).post && log == Post(broker, old(log), order)
    {
      reply := broker(|log|).post;
      log := log + [Posted(order, reply)];
    }

    method GetOrder(order: Order, id: nat) returns (reply: PollReply)
      modifies this
      ensures reply == broker(|old(log)|).poll && log == old(log) + [Polled(order, id, reply)]
    {
      reply := broker(|log|).poll;
      log := log + [Polled(order, id, reply)];
    }

    /** Wait for the reads to settle; the run goes on whether they did or not. */
    method Wait()
      modifies this
      ensures log == old(log) + [Waited]
    {
      log := log + [Waited];
    }

    method SubmitSellOrder(qty: real) returns (outcome: SellOutcome)
      modifies this
      ensures (log, outcome) == SubmitSell(broker, old(log), qty)
    {
      var reply := SubmitOrder(SellOrder(qty));
      if reply.HttpError? && reply.status == 403 && reply.available.Some? && reply.available.value > 0.0 {
        var order := SellOrder(reply.available.value);
        reply := SubmitOrder(order);
        return if reply.Accepted? then SellAccepted(order, reply.id) else if reply.NoReply? then SellLost else SellRejected;
      }
      return if reply.Accepted? then SellAccepted(SellOrder(qty), reply.id)
             else if reply.NoReply? then SellLost else SellRejected;
    }
  }

  /** Poll an accepted order until its state is terminal or the deadline passes. */
  method AwaitOrderTerminal(rest: Rest, order: Order, id: nat) returns (settlement: Settlement)
    modifies rest
    ensures (rest.log, settlement) == Settle(rest.broker, old(rest.log), order, id)
  {
    var polls := rest.broker(|rest.log|).polls;
    while polls > 0
      invariant AwaitTerminal(rest.broker, rest.log, order, id, polls) == Settle(rest.broker, old(rest.log), order, id)
    {
      var reply := rest.GetOrder(order, id);
      match reply {
        case PollHttpError => return PollFailed;
        case PollNoReply => return PollLost;
        case OrderState(status, filledQty) =>
          if IsTerminal(status) {
            return Settled(filledQty);
          }
      }
      polls := polls - 1;
    }
    return TimedOut;
  }

  method FinishAcceptedSell(rest: Rest, order: Order, id: nat) returns (end: RoundEnd)
    modifies rest
    ensures (rest.log, end) == FinishSell(rest.broker, old(rest.log), order, id)
  {
    var settlement := AwaitOrderTerminal(rest, order, id);
    if !settlement.Settled? {
      return if settlement.PollLost? then Crashed else Refused;
    }
    rest.Wait();
    return Returned;
  }

  /** One buy/sell round trip. */
  method RunOneRoundtrip(rest: Rest, c: Config) returns (end: RoundEnd)
    modifies rest
    ensures (rest.log, end) == Round(rest.broker, c, old(rest.log))
  {
    rest.Wait();
    var buy := rest.SubmitOrder(BuyOrder);
    if buy.NoReply? {
      return Crashed;
    }
    if buy.HttpError? {
      return if buy.status >= 500 then Refused else Skipped;
    }
    var sawFills := rest.broker(|rest.log|).sawFills;
    var terminal := AwaitOrderTerminal(rest, BuyOrder, buy.id);
    if !terminal.Settled? {
      return if terminal.PollLost? then Crashed else Refused;
    }
    if !sawFills {
      return Returned;
    }
    var qty := SellQty(c, terminal.filledQty);
    if !Sellable(c, qty) {
      return Returned;
    }
    var sell := rest.SubmitSellOrder(RoundTen(qty));
    if sell.SellRejected? {
      sell := rest.SubmitSellOrder(RoundTen(qty));
      if sell.SellRejected? {
        return Refused;
      }
    }
    if sell.SellLost? {
      return Crashed;
    }
    end := FinishAcceptedSell(rest, sell.order, sell.id);
  }

  /** The whole run: rounds until the count is done, the stream dies, or a round refuses the run. */
  method RunRoundtrips(rest: Rest, c: Config, count: nat) returns (end: RunEnd)
    modifies rest
    ensures (rest.log, end) == Rounds(rest.broker, c, old(rest.log), count)
  {
    var left := count;
    while left > 0
      invariant Rounds(rest.broker, c, rest.log, left) == Rounds(rest.broker, c, old(rest.log), count)
    {
      if Closed(rest.broker, |rest.log|) {
        return RunRefused;
      }
      var round := RunOneRoundtrip(rest, c);
      if round == Refused {
        return RunRefused;
      }
      if round == Crashed {
        return RunCrashed;
      }
      left := left - 1;
    }
    return Completed;
  }
}
