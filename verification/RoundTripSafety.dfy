/** What every run of the round trips keeps, whatever the broker answers. */
module RoundTripSafety {
  import opened Outcomes
  import opened Quantities
  import opened RoundTrips

  /** The order a submission left at the broker, seen or not. */
  function AcceptedId(reply: PostReply): Option<nat> {
    match reply
    case Accepted(id) => Some(id)
    case HttpError(_, _, hidden) => hidden
    case NoReply(hidden) => hidden
  }

  predicate Accepts(e: Entry) {
    e.Posted? && AcceptedId(e.reply).Some?
  }

  /** The broker's side of an order: it can still fill, whatever the client makes of its state, in all but these. */
  predicate CanStillFill(status: string) {
    status !in {"filled", "canceled", "expired", "rejected"}
  }

  predicate ReadsTerminal(e: Entry, id: nat) {
    e.Polled? && e.id == id && e.state.OrderState? && !CanStillFill(e.state.status)
  }

  /** The order accepted at `k` is read as terminal before position `end`. */
  ghost predicate ReadBefore(log: Log, k: nat, end: nat)
    requires k < |log| && Accepts(log[k]) && end <= |log|
  {
    exists l :: k < l < end && ReadsTerminal(log[l], AcceptedId(log[k].reply).value)
  }

  /** No order is posted while an order accepted earlier has not been read as terminal. */
  ghost predicate Safe(log: Log) {
    forall k, j :: 0 <= k < j < |log| && Accepts(log[k]) && log[j].Posted? ==> ReadBefore(log, k, j)
  }

  /** Every accepted order, except perhaps the one posted at `open`, has been read as terminal. */
  ghost predicate AllReadBut(log: Log, open: nat) {
    forall k :: 0 <= k < |log| && Accepts(log[k]) && k != open ==> ReadBefore(log, k, |log|)
  }

  ghost predicate AllRead(log: Log) {
    AllReadBut(log, |log|)
  }

  /** No error answer hides an accepted order. */
  ghost predicate HidesNothing(log: Log) {
    forall k :: 0 <= k < |log| && log[k].Posted? && !log[k].reply.Accepted? ==> AcceptedId(log[k].reply).None?
  }

  // ----- one entry more -----

  lemma {:induction false} ReadBeforeGrows(log: Log, more: Log, k: nat, end: nat)
    requires k < |log| && Accepts(log[k]) && end <= |log| && ReadBefore(log, k, end)
    ensures ReadBefore(log + more, k, end) && ReadBefore(log + more, k, |log + more|)
  {
    var l :| k < l < end && ReadsTerminal(log[l], AcceptedId(log[k].reply).value);
    assert (log + more)[l] == log[l] && (log + more)[k] == log[k];
  }

  /** Posting is safe when everything accepted so far has been read. */
  lemma {:induction false} PostIsSafe(log: Log, e: Entry)
    requires Safe(log) && AllRead(log) && e.Posted?
    ensures Safe(log + [e]) && AllReadBut(log + [e], |log|)
    ensures AcceptedId(e.reply).None? ==> AllRead(log + [e])
  {
    var longer := log + [e];
    forall k | 0 <= k < |log| && Accepts(longer[k])
      ensures ReadBefore(longer, k, |log|) && ReadBefore(longer, k, |longer|)
    {
      assert longer[k] == log[k];
      ReadBeforeGrows(log, [e], k, |log|);
    }
    forall k, j | 0 <= k < j < |longer| && Accepts(longer[k]) && longer[j].Posted? ensures ReadBefore(longer, k, j) {
      if j < |log| {
        assert longer[j] == log[j] && longer[k] == log[k];
        ReadBeforeGrows(log, [e], k, j);
      }
    }
  }

  /** A status request posts nothing and forgets nothing; a terminal answer closes the open order. */
  lemma {:induction false} PollIsSafe(log: Log, e: Entry, open: nat)
    requires Safe(log) && AllReadBut(log, open) && e.Polled?
    requires open < |log| && Accepts(log[open])
    ensures Safe(log + [e]) && AllReadBut(log + [e], open)
    ensures ReadsTerminal(e, AcceptedId(log[open].reply).value) ==> AllRead(log + [e])
  {
    var longer := log + [e];
    forall k | 0 <= k < |longer| && Accepts(longer[k]) && k != open ensures ReadBefore(longer, k, |longer|) {
      assert longer[k] == log[k];
      ReadBeforeGrows(log, [e], k, |log|);
    }
    forall k, j | 0 <= k < j < |longer| && Accepts(longer[k]) && longer[j].Posted? ensures ReadBefore(longer, k, j) {
      assert longer[j] == log[j] && longer[k] == log[k];
      ReadBeforeGrows(log, [e], k, j);
    }
    if ReadsTerminal(e, AcceptedId(log[open].reply).value) {
      assert longer[|log|] == e;
      assert ReadBefore(longer, open, |longer|);
    }
  }

  /** Waiting posts nothing and forgets nothing. */
  lemma {:induction false} WaitIsSafe(log: Log)
    requires Safe(log) && AllRead(log)
    ensures Safe(log + [Waited]) && AllRead(log + [Waited])
    ensures HidesNothing(log) <==> HidesNothing(log + [Waited])
  {
    var longer := log + [Waited];
    forall k | 0 <= k < |longer| && Accepts(longer[k]) ensures ReadBefore(longer, k, |longer|) {
      assert longer[k] == log[k];
      ReadBeforeGrows(log, [Waited], k, |log|);
    }
    forall k, j | 0 <= k < j < |longer| && Accepts(longer[k]) && longer[j].Posted? ensures ReadBefore(longer, k, j) {
      assert longer[j] == log[j] && longer[k] == log[k];
      ReadBeforeGrows(log, [Waited], k, j);
    }
    assert forall k :: 0 <= k < |log| ==> longer[k] == log[k];
  }

  // ----- the client's moves -----

  lemma {:induction false} AwaitReads(b: Broker, log: Log, order: Order, id: nat, polls: nat, open: nat)
    requires Safe(log) && AllReadBut(log, open)
    requires open < |log| && Accepts(log[open]) && AcceptedId(log[open].reply) == Some(id)
    ensures
      var (after, settlement) := AwaitTerminal(b, log, order, id, polls);
      Safe(after) && AllReadBut(after, open) && (settlement.Settled? ==> AllRead(after))
    decreases polls
  {
    if polls > 0 {
      var e := Polled(order, id, b(|log|).poll);
      PollIsSafe(log, e, open);
      if e.state.OrderState? && !IsTerminal(e.state.status) {
        AwaitReads(b, log + [e], order, id, polls - 1, open);
      }
    }
  }

  lemma {:induction false} AwaitHidesNothing(b: Broker, log: Log, order: Order, id: nat, polls: nat)
    requires HidesNothing(log)
    ensures HidesNothing(AwaitTerminal(b, log, order, id, polls).0)
    decreases polls
  {
    if polls > 0 {
      var e := Polled(order, id, b(|log|).poll);
      if e.state.OrderState? && !IsTerminal(e.state.status) {
        AwaitHidesNothing(b, log + [e], order, id, polls - 1);
      }
    }
  }

  lemma {:induction false} AwaitIsSafe(b: Broker, log: Log, order: Order, id: nat, polls: nat, open: nat)
    requires Safe(log) && AllReadBut(log, open)
    requires open < |log| && Accepts(log[open]) && AcceptedId(log[open].reply) == Some(id)
    ensures
      var (after, settlement) := AwaitTerminal(b, log, order, id, polls);
      && log <= after && Safe(after) && AllReadBut(after, open)
      && (settlement.Settled? ==> AllRead(after))
      && (HidesNothing(log) ==> HidesNothing(after))
  {
    AwaitReads(b, log, order, id, polls, open);
    if HidesNothing(log) {
      AwaitHidesNothing(b, log, order, id, polls);
    }
  }

  /** Up to its last entry the log hides nothing. */
  ghost predicate HidesNothingBeforeLast(log: Log) {
    |log| > 0 && HidesNothing(log[..|log| - 1])
  }

  lemma {:induction false} PrefixHidesNothing(log: Log, longer: Log)
    requires log <= longer && |log| > 0
    ensures HidesNothing(longer) ==> HidesNothing(log)
    ensures HidesNothing(log) ==> HidesNothingBeforeLast(log)
    ensures |log| < |longer| && HidesNothingBeforeLast(longer) ==> HidesNothing(log)
    ensures HidesNothingBeforeLast(longer) ==> HidesNothingBeforeLast(log)
  {
    assert forall k :: 0 <= k < |log| ==> log[k] == longer[k];
    assert forall k :: 0 <= k < |longer| - 1 ==> longer[..|longer| - 1][k] == longer[k];
    assert forall k :: 0 <= k < |log| - 1 ==> log[..|log| - 1][k] == log[k];
  }

  /** A submission after everything accepted has been read. */
  lemma {:induction false} SubmissionIsSafe(b: Broker, log: Log, order: Order)
    requires Safe(log) && AllRead(log)
    ensures
      var after := Post(b, log, order);
      && log <= after && |after| == |log| + 1 && Safe(after) && AllReadBut(after, |log|)
      && (HidesNothing(after) && !b(|log|).post.Accepted? ==> AllRead(after))
      && after[|log|] == Posted(order, b(|log|).post)
  {
    PostIsSafe(log, Posted(order, b(|log|).post));
  }

  /** The order accepted last is open; everything before it has been read. */
  ghost predicate OpenAtEnd(log: Log, id: nat) {
    && |log| > 0 && Accepts(log[|log| - 1]) && AcceptedId(log[|log| - 1].reply) == Some(id)
    && Safe(log) && AllReadBut(log, |log| - 1)
  }

  lemma {:induction false} SubmitSellIsSafe(b: Broker, log: Log, qty: real)
    requires Safe(log) && AllRead(log)
    ensures
      var (after, sell) := SubmitSell(b, log, qty);
      HidesNothingBeforeLast(after) ==>
        && Safe(after)
        && (sell.SellAccepted? ==> OpenAtEnd(after, sell.id))
        && (sell.SellRejected? && HidesNothing(after) ==> AllRead(after))
  {
    var first := Post(b, log, SellOrder(qty));
    var (after, sell) := SubmitSell(b, log, qty);
    SubmissionIsSafe(b, log, SellOrder(qty));
    if after != first && HidesNothingBeforeLast(after) {
      PrefixHidesNothing(first, after);
      SubmissionIsSafe(b, first, after[|first|].order);
    }
  }

  lemma {:induction false} FinishSellIsSafe(b: Broker, log: Log, order: Order, id: nat)
    requires OpenAtEnd(log, id)
    ensures
      var (after, end) := FinishSell(b, log, order, id);
      Safe(after) && (end == Returned ==> AllRead(after)) && end != Skipped
  {
    AwaitIsSafe(b, log, order, id, b(|log|).polls, |log| - 1);
    var (after, settlement) := Settle(b, log, order, id);
    if settlement.Settled? {
      WaitIsSafe(after);
    }
  }

  /** What a round owes the next: nothing unsafe, and if the run goes on, nothing unread. */
  ghost predicate EndsSafely(after: Log, end: RoundEnd) {
    && (HidesNothingBeforeLast(after) ==> Safe(after))
    && (HidesNothing(after) && (end == Returned || end == Skipped) ==> AllRead(after))
  }

  lemma {:induction false} AcceptedSellEndsSafely(b: Broker, log: Log, qty: real)
    requires Safe(log) && AllRead(log) && SubmitSell(b, log, qty).1.SellAccepted?
    ensures
      var (sold, sell) := SubmitSell(b, log, qty);
      var (after, end) := FinishSell(b, sold, sell.order, sell.id);
      EndsSafely(after, end)
  {
    var (sold, sell) := SubmitSell(b, log, qty);
    var (after, end) := FinishSell(b, sold, sell.order, sell.id);
    SubmitSellIsSafe(b, log, qty);
    PrefixHidesNothing(sold, after);
    PrefixHidesNothing(after, after);
    if HidesNothingBeforeLast(after) {
      FinishSellIsSafe(b, sold, sell.order, sell.id);
    }
  }

  lemma {:induction false} SellBackIsSafe(b: Broker, log: Log, qty: real)
    requires Safe(log) && AllRead(log)
    ensures
      var (after, end) := SellBack(b, log, qty);
      EndsSafely(after, end)
  {
    var (after, end) := SellBack(b, log, qty);
    var (sold, sell) := SubmitSell(b, log, qty);
    SubmitSellIsSafe(b, log, qty);
    PrefixHidesNothing(after, after);
    if sell.SellAccepted? {
      AcceptedSellEndsSafely(b, log, qty);
    } else if sell.SellRejected? && HidesNothingBeforeLast(after) {
      PrefixHidesNothing(sold, after);
      SubmitSellIsSafe(b, sold, qty);
      if SubmitSell(b, sold, qty).1.SellAccepted? {
        AcceptedSellEndsSafely(b, sold, qty);
      }
    }
  }

  lemma {:induction false} RoundIsSafe(b: Broker, c: Config, log: Log)
    requires Safe(log) && AllRead(log)
    ensures
      var (after, end) := Round(b, c, log);
      EndsSafely(after, end)
  {
    var waited := log + [Waited];
    var bought := Post(b, waited, BuyOrder);
    WaitIsSafe(log);
    SubmissionIsSafe(b, waited, BuyOrder);
    if b(|waited|).post.Accepted? {
      var id := b(|waited|).post.id;
      AwaitIsSafe(b, bought, BuyOrder, id, b(|bought|).polls, |waited|);
      var (settled, settlement) := Settle(b, bought, BuyOrder, id);
      if settlement.Settled? {
        SellBackIsSafe(b, settled, RoundTen(SellQty(c, settlement.filledQty)));
      }
    }
  }

  /** The only answer that may hide an accepted order is the last of the run. */
  ghost predicate HidesOnlyAtTheEnd(log: Log) {
    log == [] || HidesNothingBeforeLast(log)
  }

  /** What a run owes its caller. */
  ghost predicate RunsSafely(after: Log, end: RunEnd) {
    && (HidesOnlyAtTheEnd(after) ==> Safe(after))
    && (HidesNothing(after) && end == Completed ==> AllRead(after))
  }

  /** What rounds one after another owe: nothing unsafe, and if the run goes on, nothing unread. */
  lemma {:induction false} RoundsAreSafe(b: Broker, c: Config, logs: seq<Log>)
    requires |logs| > 1 && RoundByRound(b, c, logs) && AllButLastGoOn(b, c, logs)
    requires Safe(logs[0]) && AllRead(logs[0])
    ensures HidesNothingBeforeLast(logs[|logs| - 1]) ==> Safe(logs[|logs| - 1])
    ensures HidesNothing(logs[|logs| - 1]) && GoesOn(b, c, logs[|logs| - 2]) ==> AllRead(logs[|logs| - 1])
  {
    var n := |logs| - 1;
    var before, after := logs[n - 1], logs[n];
    assert after == Round(b, c, before).0;
    PrefixHidesNothing(after, after);
    if HidesNothingBeforeLast(after) {
      if n > 1 {
        assert before == Round(b, c, logs[n - 2]).0 && GoesOn(b, c, logs[n - 2]);
        PrefixHidesNothing(before, after);
        RoundsAreSafe(b, c, logs[..n]);
      }
      RoundIsSafe(b, c, before);
    }
  }

  lemma {:induction false} RunIsSafe(b: Broker, c: Config, count: nat)
    ensures
      var (after, end) := Rounds(b, c, [], count);
      RunsSafely(after, end)
  {
    var logs := RoundsMade(b, c, [], count);
    if |logs| > 1 {
      RoundsAreSafe(b, c, logs);
    }
  }

  // ----- the other direction: a hidden acceptance is always followed by an unsafe order -----

  predicate IsErrorAnswer(e: Entry) {
    e.Posted? && e.reply.HttpError?
  }

  /** The next thing asked after position `k` is an order. */
  predicate PostsNext(log: Log, k: nat) {
    || (k + 1 < |log| && log[k + 1].Posted?)
    || (k + 2 < |log| && log[k + 1].Waited? && log[k + 2].Posted?)
  }

  /** After an error answer the client asks for nothing but the next order, and a lost connection ends the log. */
  ghost predicate ErrorsThenPosts(log: Log) {
    forall k :: 0 <= k < |log| - 1 && log[k].Posted? && !log[k].reply.Accepted? ==>
      log[k].reply.HttpError? && PostsNext(log, k)
  }

  lemma {:induction false} PostsNextGrows(log: Log, e: Entry, k: nat)
    requires PostsNext(log, k)
    ensures PostsNext(log + [e], k)
  {
  }

  /** An order straight after the log, or a poll or wait after a log that may be polled after. */
  lemma {:induction false} ErrorsThenPostsGrows(log: Log, e: Entry)
    requires ErrorsThenPosts(log) && if e.Posted? then CanPost(log) else CanPoll(log)
    ensures ErrorsThenPosts(log + [e])
  {
    var longer := log + [e];
    forall k | 0 <= k < |longer| - 1 && longer[k].Posted? && !longer[k].reply.Accepted?
      ensures longer[k].reply.HttpError? && PostsNext(longer, k)
    {
      assert longer[k] == log[k];
      if k < |log| - 1 {
        PostsNextGrows(log, e, k);
      }
    }
  }

  /** The first order of a round, posted after its wait. */
  lemma {:induction false} ErrorsThenPostsThroughWait(log: Log, e: Entry)
    requires ErrorsThenPosts(log) && CanPost(log) && e.Posted?
    ensures ErrorsThenPosts(log + [Waited] + [e])
  {
    var longer := log + [Waited] + [e];
    forall k | 0 <= k < |longer| - 1 && longer[k].Posted? && !longer[k].reply.Accepted?
      ensures longer[k].reply.HttpError? && PostsNext(longer, k)
    {
      assert longer[k] == log[k];
      if k < |log| - 1 {
        PostsNextGrows(log, Waited, k);
        PostsNextGrows(log + [Waited], e, k);
      }
    }
  }

  ghost predicate CanPoll(log: Log) {
    |log| > 0 && (log[|log| - 1].Posted? ==> log[|log| - 1].reply.Accepted?)
  }

  ghost predicate CanPost(log: Log) {
    |log| > 0 ==> log[|log| - 1].Posted? ==> !log[|log| - 1].reply.NoReply?
  }

  lemma {:induction false} AwaitPolls(b: Broker, log: Log, order: Order, id: nat, polls: nat)
    requires ErrorsThenPosts(log) && CanPoll(log)
    ensures
      var (after, settlement) := AwaitTerminal(b, log, order, id, polls);
      ErrorsThenPosts(after) && CanPoll(after)
    decreases polls
  {
    if polls > 0 {
      var e := Polled(order, id, b(|log|).poll);
      ErrorsThenPostsGrows(log, e);
      if e.state.OrderState? && !IsTerminal(e.state.status) {
        AwaitPolls(b, log + [e], order, id, polls - 1);
      }
    }
  }

  lemma {:induction false} SubmitSellPosts(b: Broker, log: Log, qty: real)
    requires ErrorsThenPosts(log) && CanPost(log)
    ensures
      var (after, sell) := SubmitSell(b, log, qty);
      && ErrorsThenPosts(after)
      && (sell.SellAccepted? ==> CanPoll(after))
      && (sell.SellRejected? ==> CanPost(after))
  {
    var (after, sell) := SubmitSell(b, log, qty);
    var posted := Post(b, log, SellOrder(qty));
    ErrorsThenPostsGrows(log, posted[|log|]);
    if after != posted {
      assert after == posted + [after[|posted|]];
      ErrorsThenPostsGrows(posted, after[|posted|]);
    }
  }

  lemma {:induction false} FinishSellPosts(b: Broker, log: Log, order: Order, id: nat)
    requires ErrorsThenPosts(log) && CanPoll(log)
    ensures
      var (after, end) := FinishSell(b, log, order, id);
      ErrorsThenPosts(after) && CanPost(after)
  {
    AwaitPolls(b, log, order, id, b(|log|).polls);
    var (after, settlement) := Settle(b, log, order, id);
    if settlement.Settled? {
      ErrorsThenPostsGrows(after, Waited);
    }
  }

  lemma {:induction false} RoundPosts(b: Broker, c: Config, log: Log)
    requires ErrorsThenPosts(log) && CanPost(log)
    ensures
      var (after, end) := Round(b, c, log);
      && ErrorsThenPosts(after)
      && (end == Returned || end == Skipped ==> CanPost(after))
  {
    var waited := log + [Waited];
    var bought := Post(b, waited, BuyOrder);
    ErrorsThenPostsThroughWait(log, bought[|waited|]);
    if b(|waited|).post.Accepted? {
      var (settled, settlement) := Settle(b, bought, BuyOrder, b(|waited|).post.id);
      AwaitPolls(b, bought, BuyOrder, b(|waited|).post.id, b(|bought|).polls);
      if settlement.Settled? {
        SellBackPosts(b, settled, RoundTen(SellQty(c, settlement.filledQty)));
      }
    }
  }

  lemma {:induction false} SellBackPosts(b: Broker, log: Log, qty: real)
    requires ErrorsThenPosts(log) && CanPost(log)
    ensures
      var (after, end) := SellBack(b, log, qty);
      ErrorsThenPosts(after) && (end == Returned || end == Skipped ==> CanPost(after))
  {
    SubmitSellPosts(b, log, qty);
    var (sold, sell) := SubmitSell(b, log, qty);
    if sell.SellAccepted? {
      FinishSellPosts(b, sold, sell.order, sell.id);
    } else if sell.SellRejected? {
      SubmitSellPosts(b, sold, qty);
      var (unwound, unwind) := SubmitSell(b, sold, qty);
      if unwind.SellAccepted? {
        FinishSellPosts(b, unwound, unwind.order, unwind.id);
      }
    }
  }

  lemma {:induction false} RoundsPost(b: Broker, c: Config, log: Log, count: nat)
    requires ErrorsThenPosts(log) && CanPost(log)
    ensures
      var (after, end) := Rounds(b, c, log, count);
      ErrorsThenPosts(after) && (end == Completed ==> CanPost(after))
    decreases count
  {
    if count > 0 && !Closed(b, |log|) {
      RoundPosts(b, c, log);
      var (next, end) := Round(b, c, log);
      if end == Returned || end == Skipped {
        RoundsPost(b, c, next, count - 1);
      }
    }
  }

  lemma {:induction false} HiddenThenPostIsUnsafe(log: Log)
    requires ErrorsThenPosts(log) && Safe(log)
    ensures HidesOnlyAtTheEnd(log)
  {
    if log != [] {
      var front := log[..|log| - 1];
      forall k | 0 <= k < |front| && front[k].Posted? && !front[k].reply.Accepted?
        ensures AcceptedId(front[k].reply).None?
      {
        assert front[k] == log[k] && PostsNext(log, k);
        var next := if log[k + 1].Posted? then k + 1 else k + 2;
        assert Accepts(log[k]) ==> ReadBefore(log, k, next);
      }
    }
  }

  /**
   Exactly when a run is safe: over every broker and every run, each order is posted only
   after every order accepted earlier was read as terminal, if and only if no answer before
   the run's last one hides an accepted order behind an error.
   */
  lemma {:induction false} RunIsSafeExactly(b: Broker, c: Config, count: nat)
    ensures
      var (log, end) := Rounds(b, c, [], count);
      Safe(log) <==> HidesOnlyAtTheEnd(log)
  {
    RunIsSafe(b, c, count);
    RoundsPost(b, c, [], count);
    if Safe(Rounds(b, c, [], count).0) {
      HiddenThenPostIsUnsafe(Rounds(b, c, [], count).0);
    }
  }

  /** Any error on a sell, and an error below 500 on a buy. */
  predicate IsRefusal(e: Entry)
    requires IsErrorAnswer(e)
  {
    e.order.SellOrder? || e.reply.status < 500
  }

  /**
   The broker keeps the failure policy's assumption: an error on a sell submission, or a
   refusal (below 500) of a buy, means nothing was accepted.
   */
  ghost predicate RefusalsAreReal(log: Log) {
    forall k :: 0 <= k < |log| && IsErrorAnswer(log[k]) && IsRefusal(log[k]) ==> log[k].reply.hidden.None?
  }

  /** A buy's 5xx answer ends the log: the run refuses to go on. */
  ghost predicate BuyFaultsEndTheLog(log: Log) {
    forall k :: 0 <= k < |log| - 1 && log[k].Posted? && log[k].order == BuyOrder && log[k].reply.HttpError? ==>
      log[k].reply.status < 500
  }

  lemma {:induction false} AwaitKeepsBuyFaults(b: Broker, log: Log, order: Order, id: nat, polls: nat)
    requires BuyFaultsEndTheLog(log) && CanPoll(log)
    ensures BuyFaultsEndTheLog(AwaitTerminal(b, log, order, id, polls).0)
    ensures CanPoll(AwaitTerminal(b, log, order, id, polls).0)
    decreases polls
  {
    if polls > 0 {
      var e := Polled(order, id, b(|log|).poll);
      if e.state.OrderState? && !IsTerminal(e.state.status) {
        AwaitKeepsBuyFaults(b, log + [e], order, id, polls - 1);
      }
    }
  }

  /** No buy was answered with a 5xx at the very end. */
  ghost predicate NoBuyFaultLast(log: Log) {
    |log| > 0 && log[|log| - 1].Posted? && log[|log| - 1].order == BuyOrder && log[|log| - 1].reply.HttpError? ==>
      log[|log| - 1].reply.status < 500
  }

  lemma {:induction false} SubmitSellKeepsBuyFaults(b: Broker, log: Log, qty: real)
    requires BuyFaultsEndTheLog(log) && NoBuyFaultLast(log)
    ensures
      var (after, sell) := SubmitSell(b, log, qty);
      BuyFaultsEndTheLog(after) && NoBuyFaultLast(after) && (sell.SellAccepted? ==> CanPoll(after))
  {
  }

  lemma {:induction false} FinishSellKeepsBuyFaults(b: Broker, log: Log, order: Order, id: nat)
    requires BuyFaultsEndTheLog(log) && CanPoll(log)
    ensures
      var after := FinishSell(b, log, order, id).0;
      BuyFaultsEndTheLog(after) && NoBuyFaultLast(after)
  {
    AwaitKeepsBuyFaults(b, log, order, id, b(|log|).polls);
  }

  lemma {:induction false} SellBackKeepsBuyFaults(b: Broker, log: Log, qty: real)
    requires BuyFaultsEndTheLog(log) && NoBuyFaultLast(log)
    ensures
      var after := SellBack(b, log, qty).0;
      BuyFaultsEndTheLog(after) && NoBuyFaultLast(after)
  {
    var (sold, sell) := SubmitSell(b, log, qty);
    SubmitSellKeepsBuyFaults(b, log, qty);
    if sell.SellAccepted? {
      FinishSellKeepsBuyFaults(b, sold, sell.order, sell.id);
    } else if sell.SellRejected? {
      var (unwound, unwind) := SubmitSell(b, sold, qty);
      SubmitSellKeepsBuyFaults(b, sold, qty);
      if unwind.SellAccepted? {
        FinishSellKeepsBuyFaults(b, unwound, unwind.order, unwind.id);
      }
    }
  }

  lemma {:induction false} RoundKeepsBuyFaults(b: Broker, c: Config, log: Log)
    requires BuyFaultsEndTheLog(log) && NoBuyFaultLast(log)
    ensures
      var (after, end) := Round(b, c, log);
      BuyFaultsEndTheLog(after) && (end == Returned || end == Skipped ==> NoBuyFaultLast(after))
  {
    var waited := log + [Waited];
    var bought := Post(b, waited, BuyOrder);
    if b(|waited|).post.Accepted? {
      var (settled, settlement) := Settle(b, bought, BuyOrder, b(|waited|).post.id);
      AwaitKeepsBuyFaults(b, bought, BuyOrder, b(|waited|).post.id, b(|bought|).polls);
      if settlement.Settled? {
        SellBackKeepsBuyFaults(b, settled, RoundTen(SellQty(c, settlement.filledQty)));
      }
    }
  }

  lemma {:induction false} RoundsKeepBuyFaults(b: Broker, c: Config, log: Log, count: nat)
    requires BuyFaultsEndTheLog(log) && NoBuyFaultLast(log)
    ensures
      var (after, end) := Rounds(b, c, log, count);
      BuyFaultsEndTheLog(after) && (end == Completed ==> NoBuyFaultLast(after))
    decreases count
  {
    if count > 0 && !Closed(b, |log|) {
      RoundKeepsBuyFaults(b, c, log);
      var (next, end) := Round(b, c, log);
      if end == Returned || end == Skipped {
        RoundsKeepBuyFaults(b, c, next, count - 1);
      }
    }
  }

  lemma {:induction false} RealRefusalsHideNothing(log: Log)
    requires RefusalsAreReal(log) && ErrorsThenPosts(log) && BuyFaultsEndTheLog(log)
    ensures HidesOnlyAtTheEnd(log)
    ensures CanPost(log) && NoBuyFaultLast(log) ==> HidesNothing(log)
  {
    forall k | 0 <= k < |log| - 1 && log[k].Posted? && !log[k].reply.Accepted? ensures AcceptedId(log[k].reply).None? {
      assert IsErrorAnswer(log[k]) && IsRefusal(log[k]);
    }
    assert forall k :: 0 <= k < |log| - 1 ==> log[..|log| - 1][k] == log[k];
    if CanPost(log) && NoBuyFaultLast(log) && |log| > 0 {
      var last := log[|log| - 1];
      assert last.Posted? && !last.reply.Accepted? ==> IsErrorAnswer(last) && IsRefusal(last);
    }
  }

  /**
   Under the failure policy's assumption every run is safe, and a completed run leaves no
   accepted order unread.
   */
  lemma {:induction false} RefusalsMakeRunsSafe(b: Broker, c: Config, count: nat)
    requires RefusalsAreReal(Rounds(b, c, [], count).0)
    ensures
      var (log, end) := Rounds(b, c, [], count);
      Safe(log) && (end == Completed ==> AllRead(log))
  {
    RoundsKeepBuyFaults(b, c, [], count);
    RoundsPost(b, c, [], count);
    RunIsSafe(b, c, count);
    RealRefusalsHideNothing(Rounds(b, c, [], count).0);
  }

  // ----- without the assumption -----

  /** A broker that accepts the first sell but answers it with a 500, and fills every buy with 1. */
  const HIDING_BROKER: Broker := (at: nat) =>
    Tick(if at == 3 then HttpError(500, None, Some(3)) else Accepted(at + 1),
         OrderState("filled", 1.0), 1, true, false)

  const PLAIN := Config(0.0, 0.0)

  /** A round of `HIDING_BROKER`, up to its second sell. */
  lemma {:induction false} HidingRound(sold: Log)
    requires sold == [Waited, Posted(BuyOrder, Accepted(2)), Polled(BuyOrder, 2, OrderState("filled", 1.0)),
                      Posted(SellOrder(1.0), HttpError(500, None, Some(3)))]
    ensures Round(HIDING_BROKER, PLAIN, []) ==
      FinishSell(HIDING_BROKER, sold + [Posted(SellOrder(1.0), Accepted(5))], SellOrder(1.0), 5)
  {
    var bought := [Waited, Posted(BuyOrder, Accepted(2))];
    var settled := bought + [Polled(BuyOrder, 2, OrderState("filled", 1.0))];
    assert Settle(HIDING_BROKER, bought, BuyOrder, 2) == (settled, Settled(1.0));
    assert RoundTen(1.0) == 1.0;
    assert sold == settled + [Posted(SellOrder(1.0), HttpError(500, None, Some(3)))];
    assert SubmitSell(HIDING_BROKER, settled, 1.0) == (sold, SellRejected);
    var unwound := sold + [Posted(SellOrder(1.0), Accepted(5))];
    assert SubmitSell(HIDING_BROKER, sold, 1.0) == (unwound, SellAccepted(SellOrder(1.0), 5));
    assert SellBack(HIDING_BROKER, settled, 1.0) == FinishSell(HIDING_BROKER, unwound, SellOrder(1.0), 5);
    assert [] + [Waited] + [Posted(BuyOrder, Accepted(2))] == bought;
  }

  /** The client answers the hidden sell with a second one: both are live at once. */
  lemma {:induction false} HiddenSellIsSoldTwice(log: Log)
    requires log == Rounds(HIDING_BROKER, PLAIN, [], 1).0
    ensures !Safe(log) && !RefusalsAreReal(log)
    ensures |log| >= 5 && log[3] == Posted(SellOrder(1.0), HttpError(500, None, Some(3)))
    ensures log[4] == Posted(SellOrder(1.0), Accepted(5))
  {
    var sold := [Waited, Posted(BuyOrder, Accepted(2)), Polled(BuyOrder, 2, OrderState("filled", 1.0)),
                 Posted(SellOrder(1.0), HttpError(500, None, Some(3)))];
    HidingRound(sold);
    assert sold + [Posted(SellOrder(1.0), Accepted(5))] <= log;
    assert Accepts(log[3]) && log[4].Posted? && !ReadBefore(log, 3, 4);
    assert IsErrorAnswer(log[3]) && IsRefusal(log[3]);
  }
}
