/**
 Every interleaving of the stream thread's pushes with a series of waiters, as a state
 machine over the sink's atomic steps.  Events are named by the order they were pushed in.
 */
module SinkRuns {
  import opened FillEvents
  import opened Sequences

  /** What a waiter holds: the batch it is still sorting, and where it has put the rest. */
  datatype Waiter = Idle | Waiting(orderId: string, batch: seq<nat>, requeue: seq<nat>, matches: seq<nat>)

  /** `returned` are the events earlier waiters matched; `queue` is the sink's. */
  datatype World = World(pushed: seq<Raw>, queue: seq<nat>, waiter: Waiter, returned: seq<nat>)

  const INITIAL := World([], [], Idle, [])

  datatype Action =
    | Push(raw: Raw)          // the stream thread, at any moment
    | Begin(orderId: string)  // the next wait starts
    | Drain                   // the waiter swaps the queue out under the lock
    | SortOne                 // the waiter looks at the next event of its batch
    | Finish                  // deadline or grace over: requeue and return

  /** One step; an action that cannot happen now changes nothing. */
  function Step(w: World, a: Action): World {
    match a
    case Push(raw) => w.(pushed := w.pushed + [raw], queue := w.queue + [|w.pushed|])
    case Begin(orderId) => if w.waiter.Idle? then w.(waiter := Waiting(orderId, [], [], [])) else w
    case Drain =>
      if w.waiter.Waiting? && w.waiter.batch == [] then w.(queue := [], waiter := w.waiter.(batch := w.queue)) else w
    case SortOne =>
      if w.waiter.Waiting? && w.waiter.batch != [] then
        var x := w.waiter.batch[0];
        var rest := w.waiter.(batch := w.waiter.batch[1..]);
        if x < |w.pushed| && IsFillOf(w.pushed[x], rest.orderId)
        then w.(waiter := rest.(matches := rest.matches + [x]))
        else w.(waiter := rest.(requeue := rest.requeue + [x]))
      else w
    case Finish =>
      if w.waiter.Waiting? && w.waiter.batch == [] then
        World(w.pushed, w.waiter.requeue + w.queue, Idle, w.returned + w.waiter.matches)
      else w
  }

  function Run(w: World, actions: seq<Action>): World {
    if |actions| == 0 then w else Step(Run(w, actions[..|actions| - 1]), actions[|actions| - 1])
  }

  /** What no waiter has matched, in the order the code would look at it. */
  function Outstanding(w: World): seq<nat> {
    match w.waiter
    case Idle => w.queue
    case Waiting(_, batch, requeue, _) => requeue + batch + w.queue
  }

  /** What waiters have matched, in the order they matched it. */
  function Matched(w: World): seq<nat> {
    w.returned + match w.waiter case Idle => [] case Waiting(_, _, _, matches) => matches
  }

  /** The first `n` events without those in `taken`, in push order. */
  function Untaken(n: nat, taken: seq<nat>): seq<nat> {
    if n == 0 then [] else Untaken(n - 1, taken) + if n - 1 in taken then [] else [n - 1]
  }

  ghost predicate Ascending(s: seq<nat>) {
    forall i, j :: 0 <= i < j < |s| ==> s[i] < s[j]
  }

  ghost predicate Distinct(s: seq<nat>) {
    forall i, j :: 0 <= i < j < |s| ==> s[i] != s[j]
  }

  /** The waiter sees events in push order, and has put each where it belongs. */
  ghost predicate WaiterIsFair(w: World) {
    match w.waiter
    case Idle => true
    case Waiting(orderId, batch, requeue, matches) =>
      && Ascending(matches)
      && (forall m, x :: m in matches && x in batch + w.queue ==> m < x)
      && (forall m :: m in matches ==> m < |w.pushed| && IsFillOf(w.pushed[m], orderId))
      && (forall x :: x in requeue ==> x < |w.pushed| && !IsFillOf(w.pushed[x], orderId))
  }

  ghost predicate NothingLost(w: World) {
    && Outstanding(w) == Untaken(|w.pushed|, Matched(w))
    && Distinct(Matched(w))
    && (forall m :: m in Matched(w) ==> m < |w.pushed|)
    && WaiterIsFair(w)
  }

  lemma {:induction false} UntakenIsExact(n: nat, taken: seq<nat>)
    ensures Ascending(Untaken(n, taken))
    ensures forall x: nat :: x in Untaken(n, taken) <==> x < n && x !in taken
  {
    if n > 0 {
      UntakenIsExact(n - 1, taken);
      var shorter := Untaken(n - 1, taken);
      if n - 1 in taken {
        assert Untaken(n, taken) == shorter;
      } else {
        assert Untaken(n, taken) == shorter + [n - 1];
        forall x: nat ensures x in shorter + [n - 1] <==> x < n && x !in taken {
          InSnoc(shorter, n - 1, x);
        }
        forall i | 0 <= i < |shorter| ensures shorter[i] < n - 1 {
          assert shorter[i] in shorter;
        }
      }
    }
  }

  lemma {:induction false} UntakenIgnoresLater(n: nat, taken: seq<nat>, x: nat)
    requires n <= x
    ensures Untaken(n, taken + [x]) == Untaken(n, taken)
  {
    if n > 0 {
      UntakenIgnoresLater(n - 1, taken, x);
    }
  }

  /** The case where the event taken is not the newest. */
  lemma {:induction false} TakingAnEarlierOne(n: nat, taken: seq<nat>, before: seq<nat>, x: nat, front: seq<nat>)
    requires n > 0 && n - 1 !in taken && x in Untaken(n - 1, taken)
    requires Untaken(n - 1, taken + [x]) == before + front
    ensures Untaken(n, taken + [x]) == before + (front + [n - 1])
  {
    UntakenIsExact(n - 1, taken);
    InSnoc(taken, x, n - 1);
    Reassociate(before, front, [n - 1]);
  }

  /** Taking one event removes it from its place and moves nothing else. */
  lemma {:induction false} TakingOne(n: nat, taken: seq<nat>, before: seq<nat>, x: nat, after: seq<nat>)
    requires Untaken(n, taken) == before + [x] + after
    ensures Untaken(n, taken + [x]) == before + after
  {
    if n > 0 {
      var shorter := Untaken(n - 1, taken);
      if n - 1 in taken {
        TakingOne(n - 1, taken, before, x, after);
      } else if after == [] {
        assert before + [x] + after == before + [x];
        SameSnoc(shorter, n - 1, before, x);
        UntakenIgnoresLater(n - 1, taken, x);
      } else {
        var front, last := after[..|after| - 1], after[|after| - 1];
        assert after == front + [last];
        Reassociate(before + [x], front, [last]);
        SameSnoc(shorter, n - 1, before + [x] + front, last);
        TakingOne(n - 1, taken, before, x, front);
        assert (before + [x] + front)[|before|] == x;
        TakingAnEarlierOne(n, taken, before, x, front);
      }
    }
  }

  lemma {:induction false} PushKeeps(w: World, raw: Raw)
    requires NothingLost(w)
    ensures NothingLost(Step(w, Push(raw)))
  {
    var next := Step(w, Push(raw));
    assert Outstanding(next) == Outstanding(w) + [|w.pushed|];
    assert |w.pushed| !in Matched(w);
    if w.waiter.Waiting? {
      forall m, x | m in w.waiter.matches && x in w.waiter.batch + next.queue ensures m < x {
        InSnoc(w.waiter.batch + w.queue, |w.pushed|, x);
        assert w.waiter.batch + next.queue == w.waiter.batch + w.queue + [|w.pushed|];
      }
    }
  }

  lemma {:induction false} DrainKeeps(w: World)
    requires NothingLost(w)
    ensures NothingLost(Step(w, Drain))
  {
    var next := Step(w, Drain);
    if next != w {
      assert Outstanding(next) == Outstanding(w);
      assert next.waiter.batch + next.queue == w.waiter.batch + w.queue;
    }
  }

  lemma {:induction false} BatchIsNext(w: World)
    requires NothingLost(w) && w.waiter.Waiting? && w.waiter.batch != []
    ensures
      var x := w.waiter.batch[0];
      && Outstanding(w) == w.waiter.requeue + [x] + (w.waiter.batch[1..] + w.queue)
      && x < |w.pushed| && x !in Matched(w)
      && (forall y :: y in w.waiter.batch[1..] + w.queue ==> x < y)
  {
    var batch := w.waiter.batch;
    var x, later := batch[0], batch[1..] + w.queue;
    assert batch == [x] + batch[1..];
    assert Outstanding(w) == w.waiter.requeue + [x] + later;
    UntakenIsExact(|w.pushed|, Matched(w));
    assert x in Outstanding(w);
    forall y | y in later ensures x < y {
      var k :| 0 <= k < |later| && later[k] == y;
      assert Outstanding(w)[|w.waiter.requeue| + 1 + k] == y && Outstanding(w)[|w.waiter.requeue|] == x;
    }
  }

  /** A match comes after the waiter's earlier ones, and before everything it has still to see. */
  lemma {:induction false} MatchIsFair(w: World)
    requires NothingLost(w) && w.waiter.Waiting? && w.waiter.batch != []
    requires w.waiter.batch[0] < |w.pushed| && IsFillOf(w.pushed[w.waiter.batch[0]], w.waiter.orderId)
    ensures WaiterIsFair(Step(w, SortOne))
  {
    var next := Step(w, SortOne);
    var x, later := w.waiter.batch[0], w.waiter.batch[1..] + w.queue;
    BatchIsNext(w);
    assert x in w.waiter.batch + w.queue;
    forall i | 0 <= i < |w.waiter.matches| ensures w.waiter.matches[i] < x {
      assert w.waiter.matches[i] in w.waiter.matches;
    }
    forall m, y | m in next.waiter.matches && y in later ensures m < y {
      InSnoc(w.waiter.matches, x, m);
      assert y in w.waiter.batch + w.queue;
    }
    forall m | m in next.waiter.matches ensures m < |w.pushed| && IsFillOf(w.pushed[m], w.waiter.orderId) {
      InSnoc(w.waiter.matches, x, m);
    }
  }

  lemma {:induction false} DistinctSnoc(s: seq<nat>, x: nat)
    requires Distinct(s) && x !in s
    ensures Distinct(s + [x])
  {
  }

  lemma {:induction false} MatchKeeps(w: World)
    requires NothingLost(w) && w.waiter.Waiting? && w.waiter.batch != []
    requires w.waiter.batch[0] < |w.pushed| && IsFillOf(w.pushed[w.waiter.batch[0]], w.waiter.orderId)
    ensures NothingLost(Step(w, SortOne))
  {
    var next := Step(w, SortOne);
    var x, later := w.waiter.batch[0], w.waiter.batch[1..] + w.queue;
    BatchIsNext(w);
    MatchIsFair(w);
    Reassociate(w.returned, w.waiter.matches, [x]);
    assert Matched(next) == Matched(w) + [x];
    TakingOne(|w.pushed|, Matched(w), w.waiter.requeue, x, later);
    Reassociate(w.waiter.requeue, w.waiter.batch[1..], w.queue);
    assert Outstanding(next) == w.waiter.requeue + later;
    DistinctSnoc(Matched(w), x);
    forall m | m in Matched(next) ensures m < |w.pushed| {
      InSnoc(Matched(w), x, m);
    }
  }

  lemma {:induction false} PassKeeps(w: World)
    requires NothingLost(w) && w.waiter.Waiting? && w.waiter.batch != []
    requires w.waiter.batch[0] < |w.pushed| && !IsFillOf(w.pushed[w.waiter.batch[0]], w.waiter.orderId)
    ensures NothingLost(Step(w, SortOne))
  {
    var next := Step(w, SortOne);
    var later := w.waiter.batch[1..] + w.queue;
    BatchIsNext(w);
    assert Outstanding(next) == Outstanding(w);
    assert forall y :: y in later ==> y in w.waiter.batch + w.queue;
  }

  lemma {:induction false} FinishKeeps(w: World)
    requires NothingLost(w)
    ensures NothingLost(Step(w, Finish))
  {
    var next := Step(w, Finish);
    if next != w {
      assert Outstanding(next) == Outstanding(w) && Matched(next) == Matched(w);
    }
  }

  lemma {:induction false} StepKeeps(w: World, a: Action)
    requires NothingLost(w)
    ensures NothingLost(Step(w, a))
  {
    match a
    case Push(raw) => PushKeeps(w, raw);
    case Begin(_) => assert [] + [] + w.queue == w.queue && w.returned + [] == w.returned;
    case Drain => DrainKeeps(w);
    case SortOne =>
      if w.waiter.Waiting? && w.waiter.batch != [] {
        BatchIsNext(w);
        if IsFillOf(w.pushed[w.waiter.batch[0]], w.waiter.orderId) {
          MatchKeeps(w);
        } else {
          PassKeeps(w);
        }
      }
    case Finish => FinishKeeps(w);
  }

  /**
   In every interleaving, the pushed events without those matched are exactly the waiter's
   requeue list, then its unsorted batch, then the queue, in push order; no event is matched
   twice; and a waiter's matches are fills of its order, in push order.
   */
  lemma {:induction false} NoInterleavingLosesEvents(actions: seq<Action>)
    ensures NothingLost(Run(INITIAL, actions))
  {
    if |actions| > 0 {
      NoInterleavingLosesEvents(actions[..|actions| - 1]);
      StepKeeps(Run(INITIAL, actions[..|actions| - 1]), actions[|actions| - 1]);
    }
  }
}
