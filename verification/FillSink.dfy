/** The queue between the stream thread and the waiters, as the code keeps it. */
module FillSinkQueue {
  import opened Outcomes
  import opened Sequences
  import opened FillEvents

  class FillSink {
    var events: seq<Raw>
    var closed: bool
    var closeReason: string

    constructor ()
      ensures events == [] && !closed
    {
      events, closed, closeReason := [], false, "";
    }

    method Push(raw: Raw)
      modifies this`events
      ensures events == old(events) + [raw]
    {
      events := events + [raw];
    }

    method Drain() returns (out: seq<Raw>)
      modifies this`events
      ensures out == old(events) && events == []
    {
      out, events := events, [];
    }

    method Requeue(back: seq<Raw>)
      modifies this`events
      ensures events == back + old(events)
    {
      if back == [] {
        return;
      }
      events := back + events;
    }

    /** The stream's end: no more events will come. */
    method Shut(reason: string)
      modifies this`closed, this`closeReason
      ensures closed && closeReason == reason
    {
      closeReason, closed := reason, true;
    }

    method FailFast() returns (r: Result<(), string>)
      ensures r.Ok? <==> !closed
      ensures r.Err? ==> r.error != "" && (closeReason != "" ==> r.error == closeReason)
    {
      r := if closed then Err(if closeReason == "" then "stream closed" else closeReason) else Ok(());
    }

    /** The stream thread's turn: it pushes these events, one after another. */
    method StreamTurn(pushed: seq<Raw>)
      modifies this`events
      ensures events == old(events) + pushed
    {
      for i := 0 to |pushed|
        invariant events == old(events) + pushed[..i]
      {
        Push(pushed[i]);
      }
    }
  }

  /** The events for `orderId`, parsed. */
  function Matching(raws: seq<Raw>, orderId: string): seq<FillEvent> {
    if |raws| == 0 then []
    else
      var n := |raws| - 1;
      Matching(raws[..n], orderId) + if IsFillOf(raws[n], orderId) then [ParseFillEvent(raws[n]).value] else []
  }

  /** All the others. */
  function Others(raws: seq<Raw>, orderId: string): seq<Raw> {
    if |raws| == 0 then []
    else
      var n := |raws| - 1;
      Others(raws[..n], orderId) + if IsFillOf(raws[n], orderId) then [] else [raws[n]]
  }

  lemma {:induction false} Snoc(raws: seq<Raw>, raw: Raw, orderId: string)
    ensures Matching(raws + [raw], orderId) ==
      Matching(raws, orderId) + if IsFillOf(raw, orderId) then [ParseFillEvent(raw).value] else []
    ensures Others(raws + [raw], orderId) == Others(raws, orderId) + if IsFillOf(raw, orderId) then [] else [raw]
  {
    assert (raws + [raw])[..|raws|] == raws;
  }

  lemma {:induction false} SplitsOverConcat(a: seq<Raw>, b: seq<Raw>, orderId: string)
    ensures Matching(a + b, orderId) == Matching(a, orderId) + Matching(b, orderId)
    ensures Others(a + b, orderId) == Others(a, orderId) + Others(b, orderId)
  {
    if |b| == 0 {
      assert a + b == a;
    } else {
      var front, last := b[..|b| - 1], b[|b| - 1];
      assert a + b == a + front + [last];
      Snoc(a + front, last, orderId);
      SplitsOverConcat(a, front, orderId);
    }
  }

  /** Split a drained batch: its fills of the order, and the rest. */
  method SortBatch(batch: seq<Raw>, orderId: string) returns (matches: seq<FillEvent>, requeue: seq<Raw>)
    ensures matches == Matching(batch, orderId) && requeue == Others(batch, orderId)
  {
    matches, requeue := [], [];
    for i := 0 to |batch|
      invariant matches == Matching(batch[..i], orderId) && requeue == Others(batch[..i], orderId)
    {
      assert batch[..i + 1][..i] == batch[..i];
      var event := ParseFillEvent(batch[i]);
      if event.Some? && event.value.orderId == orderId {
        matches := matches + [event.value];
      } else {
        requeue := requeue + [batch[i]];
      }
    }
    assert batch[..|batch|] == batch;
  }

  /**
   One visit of a wait: what the stream pushes before it drains, when it sorts the batch, and
   when it then checks whether the trailing grace is over.
   */
  datatype Visit = Visit(pushed: seq<Raw>, sortedAt: int, checkedAt: int)

  /** What visit `i` drains, of a sink that held `held` before the first. */
  function Batch(held: seq<Raw>, visits: seq<Visit>, i: nat): seq<Raw>
    requires i < |visits|
  {
    (if i == 0 then held else []) + visits[i].pushed
  }

  /** Everything the first `n` visits drain. */
  function Drained(held: seq<Raw>, visits: seq<Visit>, n: nat): seq<Raw>
    requires n <= |visits|
  {
    if n == 0 then [] else Drained(held, visits, n - 1) + Batch(held, visits, n - 1)
  }

  /** When the latest of the first `n` visits that found a fill of the order sorted its batch. */
  function LastMatchAt(held: seq<Raw>, visits: seq<Visit>, n: nat, orderId: string): Option<int>
    requires n <= |visits|
  {
    if n == 0 then None
    else if Matching(Batch(held, visits, n - 1), orderId) != [] then Some(visits[n - 1].sortedAt)
    else LastMatchAt(held, visits, n - 1, orderId)
  }

  /** The check of visit `n` finds the trailing grace over. */
  predicate GraceOver(held: seq<Raw>, visits: seq<Visit>, n: nat, orderId: string, grace: int)
    requires 0 < n <= |visits|
  {
    var last := LastMatchAt(held, visits, n, orderId);
    last.Some? && visits[n - 1].checkedAt - last.value >= grace
  }

  /** How many visits a wait makes that has made `n` and not yet found the grace over. */
  function VisitsMade(held: seq<Raw>, visits: seq<Visit>, n: nat, orderId: string, grace: int): (made: nat)
    requires n <= |visits|
    ensures n <= made <= |visits|
    decreases |visits| - n
  {
    if n == |visits| then n
    else if GraceOver(held, visits, n + 1, orderId, grace) then n + 1
    else VisitsMade(held, visits, n + 1, orderId, grace)
  }

  /** A wait ends at its first check at least the grace after its latest match, or at its deadline. */
  lemma {:induction false} EndsWhenGraceIsOver(
    held: seq<Raw>, visits: seq<Visit>, n: nat, orderId: string, grace: int, m: nat)
    requires n < m <= |visits|
    ensures
      var made := VisitsMade(held, visits, n, orderId, grace);
      && (m < made ==> !GraceOver(held, visits, m, orderId, grace))
      && (m == made < |visits| ==> GraceOver(held, visits, m, orderId, grace))
    decreases |visits| - n
  {
    if n + 1 < m && !GraceOver(held, visits, n + 1, orderId, grace) {
      EndsWhenGraceIsOver(held, visits, n + 1, orderId, grace, m);
    } else if !GraceOver(held, visits, n + 1, orderId, grace) && n + 1 < |visits| {
      assert VisitsMade(held, visits, n, orderId, grace) >= n + 1;
      EndsAfter(held, visits, n + 1, orderId, grace);
    }
  }

  lemma {:induction false} EndsAfter(held: seq<Raw>, visits: seq<Visit>, n: nat, orderId: string, grace: int)
    requires n < |visits|
    ensures VisitsMade(held, visits, n, orderId, grace) > n
  {
  }

  lemma {:induction false} MatchingIsSome(batch: seq<Raw>, before: seq<Raw>, orderId: string)
    ensures Matching(before + batch, orderId) == [] <==> Matching(before, orderId) == [] && Matching(batch, orderId) == []
  {
    SplitsOverConcat(before, batch, orderId);
  }

  lemma {:induction false} LastMatchIsSome(held: seq<Raw>, visits: seq<Visit>, n: nat, orderId: string)
    requires n <= |visits|
    ensures LastMatchAt(held, visits, n, orderId).Some? <==> Matching(Drained(held, visits, n), orderId) != []
  {
    if n > 0 {
      LastMatchIsSome(held, visits, n - 1, orderId);
      MatchingIsSome(Batch(held, visits, n - 1), Drained(held, visits, n - 1), orderId);
    }
  }

  /** Everything drained is everything held and pushed before the last drain. */
  lemma {:induction false} DrainedIsEverythingBefore(held: seq<Raw>, visits: seq<Visit>, pushed: seq<seq<Raw>>, n: nat)
    requires 0 < n <= |visits| == |pushed|
    requires forall i :: 0 <= i < |visits| ==> pushed[i] == visits[i].pushed
    ensures Drained(held, visits, n) == held + Flatten(pushed[..n])
  {
    FlattenOneMore(held, pushed, n - 1);
    if n == 1 {
      assert held + Flatten(pushed[..0]) == held;
      assert Drained(held, visits, 1) == [] + (held + pushed[0]);
    } else {
      DrainedIsEverythingBefore(held, visits, pushed, n - 1);
      assert Batch(held, visits, n - 1) == pushed[n - 1];
    }
  }

  /** Let the stream push, drain the sink, and sort what it held. */
  method MakeVisit(sink: FillSink, orderId: string, pushed: seq<Raw>) returns (found: seq<FillEvent>, others: seq<Raw>)
    modifies sink`events
    ensures sink.events == []
    ensures found == Matching(old(sink.events) + pushed, orderId) && others == Others(old(sink.events) + pushed, orderId)
  {
    sink.StreamTurn(pushed);
    var batch := sink.Drain();
    found, others := SortBatch(batch, orderId);
  }

  /** What a wait has gathered after `n` visits. */
  ghost predicate Gathered(
    held: seq<Raw>, visits: seq<Visit>, n: nat, orderId: string,
    matches: seq<FillEvent>, requeue: seq<Raw>, lastMatchAt: Option<int>)
    requires n <= |visits|
  {
    && matches == Matching(Drained(held, visits, n), orderId) && requeue == Others(Drained(held, visits, n), orderId)
    && lastMatchAt == LastMatchAt(held, visits, n, orderId)
  }

  lemma {:induction false} GatheredOneMore(
    held: seq<Raw>, visits: seq<Visit>, n: nat, orderId: string,
    matches: seq<FillEvent>, requeue: seq<Raw>, lastMatchAt: Option<int>, found: seq<FillEvent>, others: seq<Raw>)
    requires n < |visits| && Gathered(held, visits, n, orderId, matches, requeue, lastMatchAt)
    requires found == Matching(Batch(held, visits, n), orderId) && others == Others(Batch(held, visits, n), orderId)
    ensures Gathered(held, visits, n + 1, orderId, matches + found, requeue + others,
                     if found != [] then Some(visits[n].sortedAt) else lastMatchAt)
    ensures (if found != [] then true else lastMatchAt.Some?) <==> matches + found != []
  {
    SplitsOverConcat(Drained(held, visits, n), Batch(held, visits, n), orderId);
    LastMatchIsSome(held, visits, n + 1, orderId);
  }

  /** One visit more: the wait goes on unless its check finds the grace over. */
  lemma {:induction false} VisitsMadeStep(
    held: seq<Raw>, visits: seq<Visit>, n: nat, orderId: string, grace: int, lastMatchAt: Option<int>)
    requires n < |visits| && lastMatchAt == LastMatchAt(held, visits, n + 1, orderId)
    ensures VisitsMade(held, visits, n, orderId, grace) ==
      if lastMatchAt.Some? && visits[n].checkedAt - lastMatchAt.value >= grace then n + 1
      else VisitsMade(held, visits, n + 1, orderId, grace)
  {
  }

  lemma {:induction false} NothingGathered(held: seq<Raw>, visits: seq<Visit>, orderId: string)
    ensures Gathered(held, visits, 0, orderId, [], [], None)
  {
  }

  /** Visit the sink once more, and add what it held to what has been gathered. */
  method GatherVisit(
    sink: FillSink, visits: seq<Visit>, k: nat, orderId: string, ghost held: seq<Raw>,
    before: seq<FillEvent>, rest: seq<Raw>, lastBefore: Option<int>)
    returns (matches: seq<FillEvent>, requeue: seq<Raw>, last: Option<int>)
    requires k < |visits| && sink.events == (if k == 0 then held else [])
    requires Gathered(held, visits, k, orderId, before, rest, lastBefore)
    modifies sink`events
    ensures sink.events == [] && Gathered(held, visits, k + 1, orderId, matches, requeue, last)
    ensures last.Some? <==> matches != []
  {
    var found, others := MakeVisit(sink, orderId, visits[k].pushed);
    GatheredOneMore(held, visits, k, orderId, before, rest, lastBefore, found, others);
    matches, requeue, last := before + found, rest + others, lastBefore;
    if found != [] {
      last := Some(visits[k].sortedAt);
    }
  }

  /** Visit until the grace is over or the deadline has passed. */
  method GatherFills(sink: FillSink, orderId: string, visits: seq<Visit>, grace: int)
    returns (matches: seq<FillEvent>, requeue: seq<Raw>, ghost lastMatchAt: Option<int>)
    modifies sink`events
    ensures
      var n := VisitsMade(old(sink.events), visits, 0, orderId, grace);
      && sink.events == (if n == 0 then old(sink.events) else [])
      && Gathered(old(sink.events), visits, n, orderId, matches, requeue, lastMatchAt)
  {
    matches, requeue := [], [];
    var last: Option<int> := None;
    ghost var held := sink.events;
    ghost var made := VisitsMade(held, visits, 0, orderId, grace);
    NothingGathered(held, visits, orderId);
    for k := 0 to |visits|
      invariant sink.events == if k == 0 then held else []
      invariant made == VisitsMade(held, visits, k, orderId, grace)
      invariant Gathered(held, visits, k, orderId, matches, requeue, last)
    {
      matches, requeue, last := GatherVisit(sink, visits, k, orderId, held, matches, requeue, last);
      VisitsMadeStep(held, visits, k, orderId, grace, last);
      if matches != [] && last.Some? && visits[k].checkedAt - last.value >= grace {
        return matches, requeue, last;
      }
    }
    lastMatchAt := last;
  }

  /**
   Wait for the fills of one order.  `visits` is the schedule of the visits that fit before the
   deadline, `trailing` what the stream pushes after the last drain.  The order's fills among
   everything drained are returned, in order; the sink holds the rest of it, in order, before
   what was not drained.
   */
  method AwaitOrderFillEvents(sink: FillSink, orderId: string, visits: seq<Visit>, grace: int, trailing: seq<Raw>)
    returns (matches: seq<FillEvent>)
    modifies sink`events
    ensures
      var n := VisitsMade(old(sink.events), visits, 0, orderId, grace);
      var drained := Drained(old(sink.events), visits, n);
      && matches == Matching(drained, orderId)
      && sink.events == Others(drained, orderId) + ((if n == 0 then old(sink.events) else []) + trailing)
  {
    var requeue;
    ghost var lastMatchAt;
    matches, requeue, lastMatchAt := GatherFills(sink, orderId, visits, grace);
    sink.StreamTurn(trailing);
    sink.Requeue(requeue);
  }
}
