/**
 Correlating one fill with the account-read series: which read first shows its cash, and the
 bound that read proves on when the cash became visible.
 */
module Visibility {
  import opened Outcomes
  import opened Sequences
  import opened FillEvents
  import opened AccountReads

  const REFLECTED_NOTIONAL_FRACTION := 0.9

  /** The cash of the last read issued strictly before `beforeMs`. */
  function BaselineCash(readings: seq<CashReading>, beforeMs: int): Option<real> {
    if |readings| == 0 then None
    else
      var last := readings[|readings| - 1];
      if last.issuedAtMs < beforeMs && last.cash.Some? then last.cash
      else BaselineCash(readings[..|readings| - 1], beforeMs)
  }

  predicate ReadReflectsFill(cash: real, fill: FillEvent, beforeCash: real) {
    var threshold := beforeCash + fill.Notional() * REFLECTED_NOTIONAL_FRACTION * (if fill.side == Buy then -1.0 else 1.0);
    if fill.side == Buy then cash <= threshold else cash >= threshold
  }

  /** A read that takes part in the scan and shows the fill. */
  predicate Shows(fill: FillEvent, reading: CashReading, beforeCash: real, fromMs: int) {
    reading.issuedAtMs >= fromMs && reading.cash.Some? && ReadReflectsFill(reading.cash.value, fill, beforeCash)
  }

  /** The first read issued at or after `fromMs` whose cash reflects the fill. */
  function FirstReflectingRead(
    fill: FillEvent, readings: seq<CashReading>, beforeCash: real, fromMs: int): Option<CashReading>
  {
    if |readings| == 0 then None
    else if Shows(fill, readings[0], beforeCash, fromMs) then Some(readings[0])
    else FirstReflectingRead(fill, readings[1..], beforeCash, fromMs)
  }

  datatype Status =
    | LedStream
    | Resolved
    | IntervalCensoredAtReceipt
    | NoBaseline
    | NotVisibleWithinWindow
    | OverlappingFills

  predicate IsMeasured(s: Status) {
    s == LedStream || s == Resolved || s == IntervalCensoredAtReceipt
  }

  /** Status and bound for a fill whose reflecting read is known. */
  function ClassifyVisibility(fill: FillEvent, reading: CashReading): (Status, int) {
    if reading.answeredAtMs <= fill.receiptAtMs then (LedStream, 0)
    else if reading.issuedAtMs >= fill.receiptAtMs then (Resolved, reading.answeredAtMs - fill.receiptAtMs)
    else (IntervalCensoredAtReceipt, reading.answeredAtMs - fill.receiptAtMs)
  }

  /** A fill record: its baseline, its status, and, when a read reflected it, that read and the bound. */
  datatype Record = Record(
    fill: FillEvent, beforeCash: Option<real>, status: Status,
    reading: Option<CashReading>, visibilityBoundMs: Option<int>)

  /** The instant before which a baseline read must have been issued. */
  function Anchor(fill: FillEvent, baselineBeforeMs: Option<int>): (at: int)
    ensures baselineBeforeMs.Some? ==> at == baselineBeforeMs.value
    ensures baselineBeforeMs.None? ==>
      && at <= fill.receiptAtMs && (fill.brokerAtMs.Some? ==> at <= fill.brokerAtMs.value)
      && (at == fill.receiptAtMs || fill.brokerAtMs == Some(at))
  {
    match baselineBeforeMs
    case Some(ms) => ms
    case None =>
      if fill.brokerAtMs.Some? && fill.brokerAtMs.value < fill.receiptAtMs
      then fill.brokerAtMs.value else fill.receiptAtMs
  }

  function RecordOf(fill: FillEvent, beforeCash: Option<real>, seen: seq<CashReading>, anchorMs: int): Record {
    if beforeCash.None? then Record(fill, beforeCash, NoBaseline, None, None)
    else
      match FirstReflectingRead(fill, seen, beforeCash.value, anchorMs)
      case None => Record(fill, beforeCash, NotVisibleWithinWindow, None, None)
      case Some(reading) =>
        var (status, bound) := ClassifyVisibility(fill, reading);
        Record(fill, beforeCash, status, Some(reading), Some(bound))
  }

  /** Where the first reflecting read stands: nothing before it shows the fill. */
  lemma {:induction false} FirstReflectingIsFirst(
    fill: FillEvent, readings: seq<CashReading>, beforeCash: real, fromMs: int) returns (k: nat)
    ensures k <= |readings|
    ensures forall i :: 0 <= i < k ==> !Shows(fill, readings[i], beforeCash, fromMs)
    ensures
      var first := FirstReflectingRead(fill, readings, beforeCash, fromMs);
      if first.None? then k == |readings|
      else k < |readings| && readings[k] == first.value && Shows(fill, readings[k], beforeCash, fromMs)
  {
    if |readings| == 0 || Shows(fill, readings[0], beforeCash, fromMs) {
      k := 0;
    } else {
      var tail := FirstReflectingIsFirst(fill, readings[1..], beforeCash, fromMs);
      k := tail + 1;
      forall i | 0 <= i < k ensures !Shows(fill, readings[i], beforeCash, fromMs) {
        if i > 0 {
          assert readings[i] == readings[1..][i - 1];
        }
      }
    }
  }

  /** Polling faster or slower does not change what is found: a longer series has the same first read. */
  lemma {:induction false} LaterReadsDoNotChangeTheFirst(
    fill: FillEvent, seen: seq<CashReading>, more: seq<CashReading>, beforeCash: real, fromMs: int)
    requires FirstReflectingRead(fill, seen, beforeCash, fromMs).Some?
    ensures FirstReflectingRead(fill, seen + more, beforeCash, fromMs) ==
      FirstReflectingRead(fill, seen, beforeCash, fromMs)
  {
    assert (seen + more)[0] == seen[0];
    if !Shows(fill, seen[0], beforeCash, fromMs) {
      assert (seen + more)[1..] == seen[1..] + more;
      LaterReadsDoNotChangeTheFirst(fill, seen[1..], more, beforeCash, fromMs);
    }
  }

  /**
   Correlate one fill.  `first` is what the poller appends between the baseline snapshot and
   the first look, `later` what it appends before each further look that fits into the wait.
   The record is that of everything there is by the last look, against the baseline of the
   first snapshot.
   */
  method RecordFill(
    fill: FillEvent, poller: AccountPoller, baselineBeforeMs: Option<int>,
    first: seq<CashReading>, later: seq<seq<CashReading>>)
    returns (record: Record)
    modifies poller
    ensures
      var anchorMs := Anchor(fill, baselineBeforeMs);
      record == RecordOf(fill, BaselineCash(old(poller.readings), anchorMs),
                         old(poller.readings) + first + Flatten(later), anchorMs)
  {
    var anchorMs := Anchor(fill, baselineBeforeMs);
    var beforeCash := BaselineCash(poller.readings, anchorMs);
    if beforeCash.None? {
      return Record(fill, beforeCash, NoBaseline, None, None);
    }
    poller.PollerTurn(first);
    ghost var begun := poller.readings;
    ghost var all := begun + Flatten(later);
    var reading := FirstReflectingRead(fill, poller.readings, beforeCash.value, anchorMs);
    var k := 0;
    assert begun + Flatten(later[..0]) == begun;
    while reading.None? && k < |later|
      invariant k <= |later| && poller.readings == begun + Flatten(later[..k])
      invariant reading == FirstReflectingRead(fill, poller.readings, beforeCash.value, anchorMs)
    {
      poller.PollerTurn(later[k]);
      FlattenOneMore(begun, later, k);
      reading := FirstReflectingRead(fill, poller.readings, beforeCash.value, anchorMs);
      k := k + 1;
    }
    FlattenPrefix(begun, later, k);
    if reading.None? {
      assert later[..k] == later;
      return Record(fill, beforeCash, NotVisibleWithinWindow, None, None);
    }
    LaterReadsDoNotChangeTheFirst(
      fill, poller.readings, all[|poller.readings|..], beforeCash.value, anchorMs);
    assert poller.readings + all[|poller.readings|..] == all;
    var (status, bound) := ClassifyVisibility(fill, reading.value);
    record := Record(fill, beforeCash, status, reading, Some(bound));
  }

  lemma {:induction false} BaselineIsARead(readings: seq<CashReading>, beforeMs: int) returns (k: nat)
    requires BaselineCash(readings, beforeMs).Some?
    ensures k < |readings| && readings[k].issuedAtMs < beforeMs
    ensures readings[k].cash == BaselineCash(readings, beforeMs)
    ensures forall i :: k < i < |readings| ==> readings[i].issuedAtMs >= beforeMs || readings[i].cash.None?
  {
    var n := |readings| - 1;
    if readings[n].issuedAtMs < beforeMs && readings[n].cash.Some? {
      k := n;
    } else {
      k := BaselineIsARead(readings[..n], beforeMs);
    }
  }

  // ----- one fill's effect on the account -----

  /** The account's cash around one fill: `before` until `movedAtMs`, `after` from then on. */
  datatype Account = Account(before: real, after: real, movedAtMs: int)

  function CashAt(a: Account, at: int): real {
    if at < a.movedAtMs then a.before else a.after
  }

  /** The fill moves cash its own way by at least the reflected fraction of its notional. */
  ghost predicate MovesCash(fill: FillEvent, a: Account) {
    var least := fill.Notional() * REFLECTED_NOTIONAL_FRACTION;
    && fill.Notional() > 0.0
    && if fill.side == Buy then a.after <= a.before - least else a.after >= a.before + least
  }

  /** The broker took this read's snapshot at some instant between issue and answer. */
  ghost predicate SnapshotOf(reading: CashReading, a: Account) {
    reading.cash.Some? ==>
      exists at: int :: reading.issuedAtMs <= at <= reading.answeredAtMs && reading.cash.value == CashAt(a, at)
  }

  ghost predicate SnapshotsOf(readings: seq<CashReading>, a: Account) {
    forall i :: 0 <= i < |readings| ==> SnapshotOf(readings[i], a)
  }

  /** How far cash went the fill's way: down for a buy, up for a sell. */
  function Moved(fill: FillEvent, fromCash: real, toCash: real): real {
    if fill.side == Buy then fromCash - toCash else toCash - fromCash
  }

  /** A read shows a fill exactly when cash has moved the fill's way by nine tenths of its notional or more. */
  lemma {:induction false} ReflectsNineTenths(fill: FillEvent, cash: real, beforeCash: real)
    ensures ReadReflectsFill(cash, fill, beforeCash) <==>
      10.0 * Moved(fill, beforeCash, cash) >= 9.0 * (fill.qty * fill.price)
  {
  }

  /** How a record's status places its reflecting read against the receipt, and the bound with it. */
  lemma {:induction false} StatusPlacesTheRead(
    fill: FillEvent, beforeCash: Option<real>, seen: seq<CashReading>, anchorMs: int)
    requires IsMeasured(RecordOf(fill, beforeCash, seen, anchorMs).status)
    ensures
      var record := RecordOf(fill, beforeCash, seen, anchorMs);
      && record.reading.Some? && record.visibilityBoundMs.Some?
      && var read, at := record.reading.value, fill.receiptAtMs;
         && (record.status == LedStream <==> read.answeredAtMs <= at)
         && (record.status == Resolved <==> at <= read.issuedAtMs && at < read.answeredAtMs)
         && (record.status == IntervalCensoredAtReceipt <==> read.issuedAtMs < at < read.answeredAtMs)
         && at + record.visibilityBoundMs.value == if record.status == LedStream then at else read.answeredAtMs
  {
  }

  lemma {:induction false} ReflectsOnlyTheMove(fill: FillEvent, a: Account)
    requires MovesCash(fill, a)
    ensures ReadReflectsFill(a.after, fill, a.before)
    ensures !ReadReflectsFill(a.before, fill, a.before)
    ensures !ReadReflectsFill(a.before, fill, a.after)
    ensures !ReadReflectsFill(a.after, fill, a.after)
    ensures a.before != a.after
  {
    assert fill.Notional() * REFLECTED_NOTIONAL_FRACTION > 0.0;
  }

  /** What a measured record tells: its baseline was read before the move, its reflecting read after. */
  lemma {:induction false} MeasuredSawTheMove(
    fill: FillEvent, a: Account, first: seq<CashReading>, seen: seq<CashReading>, anchorMs: int)
    requires MovesCash(fill, a) && SnapshotsOf(seen, a) && first <= seen
    ensures
      var beforeCash := BaselineCash(first, anchorMs);
      var record := RecordOf(fill, beforeCash, seen, anchorMs);
      IsMeasured(record.status) ==>
        && beforeCash == Some(a.before) && record.reading.Some?
        && record.reading.value.cash == Some(a.after)
        && a.movedAtMs <= record.reading.value.answeredAtMs
  {
    var beforeCash := BaselineCash(first, anchorMs);
    if beforeCash.Some? {
      ReflectsOnlyTheMove(fill, a);
      var b := BaselineIsARead(first, anchorMs);
      assert SnapshotOf(seen[b], a);
      var k := FirstReflectingIsFirst(fill, seen, beforeCash.value, anchorMs);
      if k < |seen| {
        assert SnapshotOf(seen[k], a);
      }
    }
  }

  /**
   Every bound is sound: when one fill moves cash, and reads see the account at any instant
   between issue and answer, a measured fill's cash was visible by receipt + bound, whichever
   side of the move the baseline read saw.
   */
  lemma {:induction false} BoundIsSound(
    fill: FillEvent, a: Account, first: seq<CashReading>, seen: seq<CashReading>, anchorMs: int)
    requires MovesCash(fill, a) && SnapshotsOf(seen, a) && first <= seen
    ensures
      var record := RecordOf(fill, BaselineCash(first, anchorMs), seen, anchorMs);
      IsMeasured(record.status) ==>
        && record.visibilityBoundMs.Some? && 0 <= record.visibilityBoundMs.value
        && a.movedAtMs <= fill.receiptAtMs + record.visibilityBoundMs.value
        && (record.status == LedStream ==> a.movedAtMs <= fill.receiptAtMs)
  {
    MeasuredSawTheMove(fill, a, first, seen, anchorMs);
  }

  /**
   A fill is measured exactly when its baseline read saw the account before the move and some
   read issued from the anchor on saw it after.
   */
  lemma {:induction false} MeasuredExactly(
    fill: FillEvent, a: Account, first: seq<CashReading>, seen: seq<CashReading>, anchorMs: int)
    requires MovesCash(fill, a) && SnapshotsOf(seen, a) && first <= seen
    ensures
      var beforeCash := BaselineCash(first, anchorMs);
      IsMeasured(RecordOf(fill, beforeCash, seen, anchorMs).status) <==>
        beforeCash == Some(a.before) &&
        exists i :: 0 <= i < |seen| && seen[i].issuedAtMs >= anchorMs && seen[i].cash == Some(a.after)
  {
    var beforeCash := BaselineCash(first, anchorMs);
    MeasuredSawTheMove(fill, a, first, seen, anchorMs);
    ReflectsOnlyTheMove(fill, a);
    if beforeCash.Some? {
      var k := FirstReflectingIsFirst(fill, seen, beforeCash.value, anchorMs);
      if i :| beforeCash == Some(a.before) && 0 <= i < |seen| && seen[i].issuedAtMs >= anchorMs && seen[i].cash == Some(a.after) {
        assert Shows(fill, seen[i], a.before, anchorMs);
      }
    }
  }

  /** Reads one after another: each is answered before the next is issued. */
  ghost predicate OneAtATime(readings: seq<CashReading>) {
    && (forall i :: 0 <= i < |readings| ==> readings[i].issuedAtMs <= readings[i].answeredAtMs)
    && (forall i, j :: 0 <= i < j < |readings| ==> readings[i].answeredAtMs <= readings[j].issuedAtMs)
  }

  /** A read the account can have given when the move came at `movedAtMs`. */
  lemma {:induction false} SnapshotWhen(reading: CashReading, a: Account)
    requires reading.cash.Some? && reading.issuedAtMs <= reading.answeredAtMs && a.before != a.after
    ensures SnapshotOf(reading, a) <==>
      (reading.cash.value == a.before && reading.issuedAtMs < a.movedAtMs) ||
      (reading.cash.value == a.after && a.movedAtMs <= reading.answeredAtMs)
  {
    var atIssue, atAnswer := CashAt(a, reading.issuedAtMs), CashAt(a, reading.answeredAtMs);
    if SnapshotOf(reading, a) {
      var at :| reading.issuedAtMs <= at <= reading.answeredAtMs && reading.cash.value == CashAt(a, at);
    }
  }

  /**
   No smaller bound would be sound: the same reads, taken one at a time, are consistent with
   an account whose cash moved only at the instant the reflecting read was answered.
   */
  lemma {:induction false} AnswerTimeIsTheLeastBound(
    fill: FillEvent, a: Account, first: seq<CashReading>, seen: seq<CashReading>, anchorMs: int) returns (latest: Account)
    requires MovesCash(fill, a) && SnapshotsOf(seen, a) && first <= seen && OneAtATime(seen)
    requires
      var record := RecordOf(fill, BaselineCash(first, anchorMs), seen, anchorMs);
      && (record.status == Resolved || record.status == IntervalCensoredAtReceipt)
      && record.reading.value.issuedAtMs < record.reading.value.answeredAtMs
    requires forall i :: |first| <= i < |seen| ==> seen[i].issuedAtMs >= anchorMs
    ensures MovesCash(fill, latest) && SnapshotsOf(seen, latest)
    ensures
      var record := RecordOf(fill, BaselineCash(first, anchorMs), seen, anchorMs);
      latest.movedAtMs == fill.receiptAtMs + record.visibilityBoundMs.value
  {
    MeasuredSawTheMove(fill, a, first, seen, anchorMs);
    ReflectsOnlyTheMove(fill, a);
    var b := BaselineIsARead(first, anchorMs);
    var k := FirstReflectingIsFirst(fill, seen, a.before, anchorMs);
    latest := a.(movedAtMs := seen[k].answeredAtMs);
    // The baseline saw the account before the move, so no earlier read can have seen it after.
    assert SnapshotOf(seen[b], a);
    SnapshotWhen(seen[b], a);
    forall i | 0 <= i < |seen| && seen[i].cash.Some? ensures SnapshotOf(seen[i], latest) {
      assert SnapshotOf(seen[i], a);
      SnapshotWhen(seen[i], a);
      SnapshotWhen(seen[i], latest);
    }
  }
}
