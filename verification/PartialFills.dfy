/**
 Several fills of one order.  Each is measured against the same baseline, the cash before the
 order, so a fill can be taken for visible when only an earlier one of the order is.
 */
module PartialFills {
  import opened Outcomes
  import opened FillEvents
  import opened AccountReads
  import opened Visibility

  /** The account's cash at every instant, whatever moves it. */
  type History = int -> real

  /** The broker took this read's snapshot at some instant between issue and answer. */
  ghost predicate ReadFrom(reading: CashReading, h: History) {
    reading.cash.Some? ==>
      exists at: int :: reading.issuedAtMs <= at <= reading.answeredAtMs && reading.cash.value == h(at)
  }

  /** Reads of the account one at a time, of which the first ones are there when the baseline is taken. */
  ghost predicate ReadsOf(h: History, first: seq<CashReading>, seen: seq<CashReading>) {
    && first <= seen && OneAtATime(seen)
    && forall i :: 0 <= i < |seen| ==> ReadFrom(seen[i], h)
  }

  function Measurement(fill: FillEvent, first: seq<CashReading>, seen: seq<CashReading>, anchorMs: int): Record {
    RecordOf(fill, BaselineCash(first, anchorMs), seen, anchorMs)
  }

  /** By `at`, not before the anchor, cash has moved the fill's way by nine tenths of its notional since an earlier instant. */
  predicate Apparent(fill: FillEvent, h: History, anchorMs: int, earlier: int, at: int) {
    earlier <= at && anchorMs <= at && 10.0 * Moved(fill, h(earlier), h(at)) >= 9.0 * fill.Notional()
  }

  /** A measured record's bound reaches the instant at which the fill's own cash moved. */
  predicate Reaches(record: Record, movedAtMs: int) {
    IsMeasured(record.status) ==>
      record.visibilityBoundMs.Some? && movedAtMs <= record.fill.receiptAtMs + record.visibilityBoundMs.value
  }

  /** Whatever else moves cash, by receipt + bound the account showed a move of the fill's size and direction. */
  lemma {:induction false} BoundShowsSomeMove(
    fill: FillEvent, h: History, first: seq<CashReading>, seen: seq<CashReading>, anchorMs: int)
    returns (earlier: int, at: int)
    requires ReadsOf(h, first, seen) && IsMeasured(Measurement(fill, first, seen, anchorMs).status)
    ensures
      var record := Measurement(fill, first, seen, anchorMs);
      && Apparent(fill, h, anchorMs, earlier, at)
      && record.visibilityBoundMs.Some? && at <= fill.receiptAtMs + record.visibilityBoundMs.value
  {
    var beforeCash := BaselineCash(first, anchorMs);
    var b := BaselineIsARead(first, anchorMs);
    var k := FirstReflectingIsFirst(fill, seen, beforeCash.value, anchorMs);
    assert ReadFrom(seen[b], h) && ReadFrom(seen[k], h) && b < k;
    earlier :| seen[b].issuedAtMs <= earlier <= seen[b].answeredAtMs && seen[b].cash.value == h(earlier);
    at :| seen[k].issuedAtMs <= at <= seen[k].answeredAtMs && seen[k].cash.value == h(at);
  }

  /** A read of the earlier instant and one of the later, and the record they make. */
  lemma {:induction false} ApparentIsMeasured(fill: FillEvent, h: History, anchorMs: int, earlier: int, at: int)
    returns (first: seq<CashReading>, seen: seq<CashReading>)
    requires Apparent(fill, h, anchorMs, earlier, at)
    ensures ReadsOf(h, first, seen)
    ensures
      var record := Measurement(fill, first, seen, anchorMs);
      && IsMeasured(record.status) && record.fill == fill
      && record.visibilityBoundMs == Some(if at <= fill.receiptAtMs then 0 else at - fill.receiptAtMs)
  {
    var baseline := CashReading(if earlier < anchorMs then earlier else anchorMs - 1, earlier, Some(h(earlier)));
    var later := CashReading(at, at, Some(h(at)));
    first, seen := [baseline], [baseline, later];
    assert seen[1..] == [later];
    assert BaselineCash(first, anchorMs) == baseline.cash;
    assert FirstReflectingRead(fill, [later], h(earlier), anchorMs) == Some(later);
    assert FirstReflectingRead(fill, seen, h(earlier), anchorMs) == Some(later);
    assert ReadFrom(baseline, h) && ReadFrom(later, h);
  }

  /**
   The bound reaches the fill's own move, whatever reads are made, exactly when the move came
   by the receipt or nothing before it looked like it: no earlier fill of the order, or other
   activity, moved cash the same way by the reflected fraction of this fill's notional.
   */
  lemma {:induction false} BoundReachesExactly(fill: FillEvent, h: History, anchorMs: int, movedAtMs: int)
    ensures
      (forall first, seen :: ReadsOf(h, first, seen) ==> Reaches(Measurement(fill, first, seen, anchorMs), movedAtMs)) <==>
      movedAtMs <= fill.receiptAtMs || forall earlier, at :: Apparent(fill, h, anchorMs, earlier, at) ==> movedAtMs <= at
  {
    if movedAtMs <= fill.receiptAtMs || forall earlier, at :: Apparent(fill, h, anchorMs, earlier, at) ==> movedAtMs <= at {
      forall first, seen | ReadsOf(h, first, seen) ensures Reaches(Measurement(fill, first, seen, anchorMs), movedAtMs) {
        if IsMeasured(Measurement(fill, first, seen, anchorMs).status) {
          var earlier, at := BoundShowsSomeMove(fill, h, first, seen, anchorMs);
        }
      }
    } else {
      var earlier, at :| Apparent(fill, h, anchorMs, earlier, at) && at < movedAtMs;
      var first, seen := ApparentIsMeasured(fill, h, anchorMs, earlier, at);
      assert !Reaches(Measurement(fill, first, seen, anchorMs), movedAtMs);
    }
  }

  /** In particular the bound reaches the first move of all, whichever fill of the order it is taken for. */
  lemma {:induction false} FirstMoveIsReached(
    fill: FillEvent, h: History, anchorMs: int, movedAtMs: int, first: seq<CashReading>, seen: seq<CashReading>)
    requires fill.Notional() > 0.0 && (forall at :: at < movedAtMs ==> h(at) == h(movedAtMs - 1))
    requires ReadsOf(h, first, seen)
    ensures Reaches(Measurement(fill, first, seen, anchorMs), movedAtMs)
  {
    assert fill.Notional() * REFLECTED_NOTIONAL_FRACTION > 0.0;
    if IsMeasured(Measurement(fill, first, seen, anchorMs).status) {
      var earlier, at := BoundShowsSomeMove(fill, h, first, seen, anchorMs);
    }
  }

  /** Cash of 100; the order's first fill takes 10 at 5, its second takes 5 at 50. */
  const TWO_FILLS: History := (at: int) => if at < 5 then 100.0 else if at < 50 then 90.0 else 85.0

  /** The second fill, received at 15, is resolved with a bound of 5 ms, though its own cash moves at 50. */
  lemma {:induction false} SecondFillIsTakenForVisible(fill: FillEvent, seen: seq<CashReading>)
    requires fill == FillEvent(15, "e", "fill", "SPY", Buy, 0.5, 10.0, "o", None)
    requires seen == [CashReading(0, 1, Some(100.0)), CashReading(19, 20, Some(90.0))]
    ensures ReadsOf(TWO_FILLS, seen[..1], seen)
    ensures
      var record := Measurement(fill, seen[..1], seen, 3);
      record.status == Resolved && record.visibilityBoundMs == Some(5) && !Reaches(record, 50)
  {
    assert seen[..1] == [seen[0]] && seen[1..] == [seen[1]];
    assert TWO_FILLS(1) == 100.0 && TWO_FILLS(20) == 90.0;
    assert BaselineCash(seen[..1], 3) == Some(100.0);
    assert FirstReflectingRead(fill, seen[1..], 100.0, 3) == Some(seen[1]);
    assert FirstReflectingRead(fill, seen, 100.0, 3) == Some(seen[1]);
  }
}
