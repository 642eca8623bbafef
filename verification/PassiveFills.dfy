/**
 Fills observed on an account with other activity: each gets an attribution window, and a
 fill whose window meets another's is censored rather than measured.
 */
module PassiveFills {
  import opened Outcomes
  import opened FillEvents
  import opened AccountReads
  import opened Visibility

  /** A fill's record and its attribution window, from its anchor to its resolution. */
  datatype Attributed = Attributed(record: Record, startMs: int, endMs: int)

  function Attribute(fill: FillEvent, readings: seq<CashReading>, windowMs: int): Attributed {
    var anchorMs := Anchor(fill, None);
    var record := RecordOf(fill, BaselineCash(readings, anchorMs), readings, anchorMs);
    Attributed(record, anchorMs, if record.reading.Some? then record.reading.value.answeredAtMs else anchorMs + windowMs)
  }

  function InsertByReceipt(fill: FillEvent, fills: seq<FillEvent>): seq<FillEvent> {
    if |fills| == 0 || fill.receiptAtMs <= fills[0].receiptAtMs then [fill] + fills
    else [fills[0]] + InsertByReceipt(fill, fills[1..])
  }

  /** The fills in order of receipt, fills of one instant in the order given. */
  function ByReceipt(fills: seq<FillEvent>): seq<FillEvent> {
    if |fills| == 0 then [] else InsertByReceipt(fills[0], ByReceipt(fills[1..]))
  }

  function AttributeAll(fills: seq<FillEvent>, readings: seq<CashReading>, windowMs: int): (a: seq<Attributed>)
    ensures |a| == |fills|
    ensures forall i :: 0 <= i < |fills| ==> a[i] == Attribute(fills[i], readings, windowMs)
  {
    if |fills| == 0 then []
    else
      AttributeAll(fills[..|fills| - 1], readings, windowMs) + [Attribute(fills[|fills| - 1], readings, windowMs)]
  }

  /** The windows overlap, as the code compares them. */
  predicate Meets(a: Attributed, b: Attributed) {
    a.startMs < b.endMs && b.startMs < a.endMs
  }

  ghost predicate MeetsAnother(a: seq<Attributed>, i: nat)
    requires i < |a|
  {
    exists j :: 0 <= j < |a| && j != i && Meets(a[i], a[j])
  }

  /** The pair has been compared when the outer index is `i` and the inner has reached `j`. */
  predicate Compared(p: nat, q: nat, i: nat, j: nat) {
    var low, high := if p < q then p else q, if p < q then q else p;
    low < i || (low == i && high < j)
  }

  ghost predicate Flagged(a: seq<Attributed>, k: nat, i: nat, j: nat)
    requires k < |a|
  {
    exists l: nat :: l < |a| && l != k && Compared(k, l, i, j) && Meets(a[k], a[l])
  }

  lemma {:induction false} FlagPair(a: seq<Attributed>, i: nat, j: nat, k: nat)
    requires i < j < |a| && k < |a|
    ensures Flagged(a, k, i, j + 1) <==> Flagged(a, k, i, j) || ((k == i || k == j) && Meets(a[i], a[j]))
  {
    if Flagged(a, k, i, j + 1) {
      var l: nat :| l < |a| && l != k && Compared(k, l, i, j + 1) && Meets(a[k], a[l]);
      assert Compared(k, l, i, j) || (k == i && l == j) || (k == j && l == i);
    }
    if Flagged(a, k, i, j) {
      var l: nat :| l < |a| && l != k && Compared(k, l, i, j) && Meets(a[k], a[l]);
      assert Compared(k, l, i, j + 1);
    }
    if (k == i || k == j) && Meets(a[i], a[j]) {
      var l := if k == i then j else i;
      assert Compared(k, l, i, j + 1) && Meets(a[k], a[l]);
    }
  }

  lemma {:induction false} FlagRow(a: seq<Attributed>, i: nat, k: nat)
    requires i < |a| && k < |a|
    ensures Flagged(a, k, i, |a|) <==> Flagged(a, k, i + 1, i + 2)
  {
    if Flagged(a, k, i, |a|) {
      var l: nat :| l < |a| && l != k && Compared(k, l, i, |a|) && Meets(a[k], a[l]);
      assert Compared(k, l, i + 1, i + 2);
    }
    if Flagged(a, k, i + 1, i + 2) {
      var l: nat :| l < |a| && l != k && Compared(k, l, i + 1, i + 2) && Meets(a[k], a[l]);
      assert Compared(k, l, i, |a|);
    }
  }

  lemma {:induction false} FlagAll(a: seq<Attributed>, k: nat)
    requires k < |a|
    ensures Flagged(a, k, |a|, |a| + 1) <==> MeetsAnother(a, k)
  {
    if Flagged(a, k, |a|, |a| + 1) {
      var l: nat :| l < |a| && l != k && Compared(k, l, |a|, |a| + 1) && Meets(a[k], a[l]);
    }
    if MeetsAnother(a, k) {
      var j :| 0 <= j < |a| && j != k && Meets(a[k], a[j]);
      assert Compared(k, j, |a|, |a| + 1);
    }
  }

  /** Compare every pair of windows and flag both of each pair that meets. */
  method FlagOverlaps(a: seq<Attributed>) returns (overlapped: seq<bool>)
    ensures |overlapped| == |a|
    ensures forall k :: 0 <= k < |a| ==> (overlapped[k] <==> MeetsAnother(a, k))
  {
    var flags := new bool[|a|](_ => false);
    var i := 0;
    while i < |a|
      invariant 0 <= i <= |a|
      invariant forall k :: 0 <= k < |a| ==> (flags[k] <==> Flagged(a, k, i, i + 1))
    {
      var j := i + 1;
      while j < |a|
        invariant i < j <= |a|
        invariant forall k :: 0 <= k < |a| ==> (flags[k] <==> Flagged(a, k, i, j))
      {
        forall k: nat | k < |a| {
          FlagPair(a, i, j, k);
        }
        if Meets(a[i], a[j]) {
          flags[i], flags[j] := true, true;
        }
        j := j + 1;
      }
      forall k: nat | k < |a| {
        FlagRow(a, i, k);
      }
      i := i + 1;
    }
    forall k: nat | k < |a| {
      FlagAll(a, k);
    }
    overlapped := flags[..];
  }

  /** The passive fills' records, in order of receipt. */
  ghost function Correlated(events: seq<FillEvent>, readings: seq<CashReading>, windowMs: int): (r: seq<Record>)
    ensures |r| == |ByReceipt(events)|
  {
    var a := AttributeAll(ByReceipt(events), readings, windowMs);
    Censoring(a, |a|)
  }

  /** The first `n` records, with the status of each that meets another replaced and nothing else. */
  ghost function Censoring(a: seq<Attributed>, n: nat): (r: seq<Record>)
    requires n <= |a|
    ensures |r| == n
  {
    if n == 0 then []
    else
      Censoring(a, n - 1) +
      [if MeetsAnother(a, n - 1) then a[n - 1].record.(status := OverlappingFills) else a[n - 1].record]
  }

  lemma {:induction false} CensoringAt(a: seq<Attributed>, n: nat, i: nat)
    requires i < n <= |a|
    ensures Censoring(a, n)[i] == if MeetsAnother(a, i) then a[i].record.(status := OverlappingFills) else a[i].record
  {
    if i < n - 1 {
      CensoringAt(a, n - 1, i);
    }
  }

  /** Correlate the fills observed on an account that others use too. */
  method CorrelatePassiveFills(events: seq<FillEvent>, readings: seq<CashReading>, windowMs: int)
    returns (records: seq<Record>)
    ensures records == Correlated(events, readings, windowMs)
  {
    var attributed := AttributeAll(ByReceipt(events), readings, windowMs);
    var overlapped := FlagOverlaps(attributed);
    records := [];
    for i := 0 to |attributed|
      invariant records == Censoring(attributed, i)
    {
      var record := attributed[i].record;
      records := records + [if overlapped[i] then record.(status := OverlappingFills) else record];
    }
  }

  // ----- the report -----

  function Measured(fills: seq<Record>): seq<Record> {
    if |fills| == 0 then []
    else
      var n := |fills| - 1;
      Measured(fills[..n]) + if IsMeasured(fills[n].status) then [fills[n]] else []
  }

  function Censored(fills: seq<Record>): seq<Record> {
    if |fills| == 0 then []
    else
      var n := |fills| - 1;
      Censored(fills[..n]) + if IsMeasured(fills[n].status) then [] else [fills[n]]
  }

  /** The bounds that enter the distribution. */
  function Delays(fills: seq<Record>): seq<Option<int>> {
    if |fills| == 0 then []
    else
      var n := |fills| - 1;
      Delays(fills[..n]) + if IsMeasured(fills[n].status) then [fills[n].visibilityBoundMs] else []
  }

  /** Split the records as the report does. */
  method Report(fills: seq<Record>) returns (measured: seq<Record>, censored: seq<Record>, delays: seq<Option<int>>)
    ensures measured == Measured(fills) && censored == Censored(fills) && delays == Delays(fills)
  {
    measured, censored, delays := [], [], [];
    for i := 0 to |fills|
      invariant measured == Measured(fills[..i]) && censored == Censored(fills[..i]) && delays == Delays(fills[..i])
    {
      assert fills[..i + 1][..i] == fills[..i];
      if IsMeasured(fills[i].status) {
        measured, delays := measured + [fills[i]], delays + [fills[i].visibilityBoundMs];
      } else {
        censored := censored + [fills[i]];
      }
    }
    assert fills[..|fills|] == fills;
  }

  // ----- what the censoring guarantees -----

  lemma {:induction false} InsertByReceiptKeeps(fill: FillEvent, fills: seq<FillEvent>)
    ensures multiset(InsertByReceipt(fill, fills)) == multiset{fill} + multiset(fills)
  {
    if |fills| > 0 && fill.receiptAtMs > fills[0].receiptAtMs {
      InsertByReceiptKeeps(fill, fills[1..]);
      assert fills == [fills[0]] + fills[1..];
    }
  }

  lemma {:induction false} ByReceiptKeeps(fills: seq<FillEvent>)
    ensures multiset(ByReceipt(fills)) == multiset(fills)
  {
    if |fills| > 0 {
      ByReceiptKeeps(fills[1..]);
      InsertByReceiptKeeps(fills[0], ByReceipt(fills[1..]));
      assert fills == [fills[0]] + fills[1..];
    }
  }

  ghost predicate InOrderOfReceipt(fills: seq<FillEvent>) {
    forall i, j :: 0 <= i < j < |fills| ==> fills[i].receiptAtMs <= fills[j].receiptAtMs
  }

  /** The fills received at one instant, in order. */
  function ReceivedAt(fills: seq<FillEvent>, at: int): seq<FillEvent> {
    if |fills| == 0 then []
    else (if fills[0].receiptAtMs == at then [fills[0]] else []) + ReceivedAt(fills[1..], at)
  }

  ghost predicate NotBefore(fills: seq<FillEvent>, at: int) {
    forall i :: 0 <= i < |fills| ==> at <= fills[i].receiptAtMs
  }

  lemma {:induction false} InsertedNotBefore(fill: FillEvent, fills: seq<FillEvent>, at: int)
    requires at <= fill.receiptAtMs && NotBefore(fills, at)
    ensures NotBefore(InsertByReceipt(fill, fills), at)
  {
    if |fills| > 0 && fill.receiptAtMs > fills[0].receiptAtMs {
      InsertedNotBefore(fill, fills[1..], at);
    }
  }

  lemma {:induction false} InsertByReceiptSorts(fill: FillEvent, fills: seq<FillEvent>)
    requires InOrderOfReceipt(fills)
    ensures InOrderOfReceipt(InsertByReceipt(fill, fills))
  {
    if |fills| > 0 && fill.receiptAtMs > fills[0].receiptAtMs {
      InsertByReceiptSorts(fill, fills[1..]);
      InsertedNotBefore(fill, fills[1..], fills[0].receiptAtMs);
    }
  }

  lemma {:induction false} ReceivedCons(fill: FillEvent, fills: seq<FillEvent>, at: int)
    ensures ReceivedAt([fill] + fills, at) == (if fill.receiptAtMs == at then [fill] else []) + ReceivedAt(fills, at)
  {
    assert ([fill] + fills)[1..] == fills;
  }

  lemma {:induction false} InsertByReceiptIsStable(fill: FillEvent, fills: seq<FillEvent>, at: int)
    ensures ReceivedAt(InsertByReceipt(fill, fills), at) == ReceivedAt([fill] + fills, at)
  {
    if |fills| > 0 && fill.receiptAtMs > fills[0].receiptAtMs {
      var first, rest := fills[0], fills[1..];
      InsertByReceiptIsStable(fill, rest, at);
      ReceivedCons(first, InsertByReceipt(fill, rest), at);
      ReceivedCons(fill, rest, at);
      ReceivedCons(fill, fills, at);
      ReceivedCons(first, rest, at);
      assert fills == [first] + rest;
    }
  }

  /** The fills are put in order of receipt, and those of one instant stay in the order given. */
  lemma {:induction false} ByReceiptIsStable(fills: seq<FillEvent>, at: int)
    ensures InOrderOfReceipt(ByReceipt(fills))
    ensures ReceivedAt(ByReceipt(fills), at) == ReceivedAt(fills, at)
  {
    if |fills| > 0 {
      ByReceiptIsStable(fills[1..], at);
      InsertByReceiptSorts(fills[0], ByReceipt(fills[1..]));
      InsertByReceiptIsStable(fills[0], ByReceipt(fills[1..]), at);
      ReceivedCons(fills[0], ByReceipt(fills[1..]), at);
    }
  }

  lemma {:induction false} SplitOneMore(
    measured: seq<Record>, censored: seq<Record>, front: seq<Record>, last: Record,
    measured2: seq<Record>, censored2: seq<Record>, fills: seq<Record>)
    requires multiset(measured) + multiset(censored) == multiset(front) && fills == front + [last]
    requires (measured2 == measured + [last] && censored2 == censored) || (measured2 == measured && censored2 == censored + [last])
    ensures multiset(measured2) + multiset(censored2) == multiset(fills)
  {
  }

  lemma {:induction false} SplitSnoc(fills: seq<Record>)
    requires |fills| > 0
    ensures
      var front, last := fills[..|fills| - 1], fills[|fills| - 1];
      if IsMeasured(last.status) then
        Measured(fills) == Measured(front) + [last] && Censored(fills) == Censored(front)
      else
        Measured(fills) == Measured(front) && Censored(fills) == Censored(front) + [last]
    ensures fills == fills[..|fills| - 1] + [fills[|fills| - 1]]
  {
  }

  lemma {:induction false} SplitIsExact(fills: seq<Record>)
    ensures multiset(Measured(fills)) + multiset(Censored(fills)) == multiset(fills)
    decreases |fills|
  {
    if |fills| > 0 {
      var front, last := fills[..|fills| - 1], fills[|fills| - 1];
      SplitIsExact(front);
      SplitSnoc(fills);
      SplitOneMore(Measured(front), Censored(front), front, last, Measured(fills), Censored(fills), fills);
    }
  }

  /** The measured and the censored records together are exactly the records, split by status. */
  lemma {:induction false} ReportPartitions(fills: seq<Record>)
    ensures multiset(Measured(fills)) + multiset(Censored(fills)) == multiset(fills)
    ensures forall r :: r in Measured(fills) ==> IsMeasured(r.status)
    ensures forall r :: r in Censored(fills) ==> !IsMeasured(r.status)
    decreases |fills|
  {
    SplitIsExact(fills);
    if |fills| > 0 {
      ReportPartitions(fills[..|fills| - 1]);
    }
  }

  /** The fills a sequence of records is about. */
  function FillsOf(records: seq<Record>): (f: seq<FillEvent>)
    ensures |f| == |records| && forall i :: 0 <= i < |records| ==> f[i] == records[i].fill
  {
    if |records| == 0 then [] else FillsOf(records[..|records| - 1]) + [records[|records| - 1].fill]
  }

  lemma {:induction false} RecordIsOfFill(events: seq<FillEvent>, readings: seq<CashReading>, windowMs: int, i: nat)
    requires i < |Correlated(events, readings, windowMs)|
    ensures Correlated(events, readings, windowMs)[i].fill == ByReceipt(events)[i]
  {
    var a := AttributeAll(ByReceipt(events), readings, windowMs);
    CensoringAt(a, |a|, i);
    assert a[i] == Attribute(ByReceipt(events)[i], readings, windowMs);
  }

  lemma {:induction false} FillsInOrder(events: seq<FillEvent>, readings: seq<CashReading>, windowMs: int)
    ensures FillsOf(Correlated(events, readings, windowMs)) == ByReceipt(events)
  {
    var records, sorted := Correlated(events, readings, windowMs), ByReceipt(events);
    var fills := FillsOf(records);
    forall i: nat | i < |records| ensures fills[i] == sorted[i] {
      RecordIsOfFill(events, readings, windowMs, i);
    }
  }

  /** Every observed fill has exactly one record. */
  lemma {:induction false} EveryFillIsRecorded(events: seq<FillEvent>, readings: seq<CashReading>, windowMs: int)
    ensures multiset(FillsOf(Correlated(events, readings, windowMs))) == multiset(events)
  {
    FillsInOrder(events, readings, windowMs);
    ByReceiptKeeps(events);
  }

  /** By windows: a fill is marked as overlapping exactly when its window meets another's. */
  lemma {:induction false} OverlapByWindows(events: seq<FillEvent>, readings: seq<CashReading>, windowMs: int, i: nat)
    requires i < |Correlated(events, readings, windowMs)|
    ensures
      var a := AttributeAll(ByReceipt(events), readings, windowMs);
      var records := Correlated(events, readings, windowMs);
      && (records[i].status == OverlappingFills <==> MeetsAnother(a, i))
      && records[i].visibilityBoundMs == a[i].record.visibilityBoundMs
      && (!MeetsAnother(a, i) ==> records[i] == a[i].record)
  {
    var a := AttributeAll(ByReceipt(events), readings, windowMs);
    CensoringAt(a, |a|, i);
    assert a[i] == Attribute(ByReceipt(events)[i], readings, windowMs);
  }

  // ----- the time a fill's cash is in question -----

  /** Read `k` is the first from the anchor on that shows the fill against the cash before the anchor. */
  ghost predicate FirstShownBy(fill: FillEvent, readings: seq<CashReading>, k: nat) {
    var anchorMs := Anchor(fill, None);
    var before := BaselineCash(readings, anchorMs);
    && k < |readings| && before.Some? && Shows(fill, readings[k], before.value, anchorMs)
    && forall i :: 0 <= i < k ==> !Shows(fill, readings[i], before.value, anchorMs)
  }

  /** The fill is in question from its anchor until the first read that shows it is answered, or for the whole window. */
  ghost predicate InQuestionUntil(fill: FillEvent, readings: seq<CashReading>, windowMs: int, untilMs: int) {
    if exists k: nat :: FirstShownBy(fill, readings, k)
    then exists k: nat :: FirstShownBy(fill, readings, k) && untilMs == readings[k].answeredAtMs
    else untilMs == Anchor(fill, None) + windowMs
  }

  ghost predicate InQuestion(fill: FillEvent, readings: seq<CashReading>, windowMs: int, at: int) {
    exists untilMs :: InQuestionUntil(fill, readings, windowMs, untilMs) && Anchor(fill, None) <= at < untilMs
  }

  /** The two fills are in question at once: each begins before the other ends. */
  ghost predicate AtOnce(fill: FillEvent, other: FillEvent, readings: seq<CashReading>, windowMs: int) {
    exists untilMs, otherUntilMs ::
      && InQuestionUntil(fill, readings, windowMs, untilMs) && InQuestionUntil(other, readings, windowMs, otherUntilMs)
      && Anchor(fill, None) < otherUntilMs && Anchor(other, None) < untilMs
  }

  lemma {:induction false} WindowIsTheTimeInQuestion(fill: FillEvent, readings: seq<CashReading>, windowMs: int)
    ensures
      var a := Attribute(fill, readings, windowMs);
      a.startMs == Anchor(fill, None) && forall untilMs :: InQuestionUntil(fill, readings, windowMs, untilMs) <==> untilMs == a.endMs
  {
    var anchorMs := Anchor(fill, None);
    var before := BaselineCash(readings, anchorMs);
    if before.Some? {
      var k := FirstReflectingIsFirst(fill, readings, before.value, anchorMs);
      if k < |readings| {
        assert FirstShownBy(fill, readings, k);
      }
    }
  }

  lemma {:induction false} MeetingIsAtOnce(fill: FillEvent, other: FillEvent, readings: seq<CashReading>, windowMs: int)
    ensures Meets(Attribute(fill, readings, windowMs), Attribute(other, readings, windowMs)) <==>
      AtOnce(fill, other, readings, windowMs)
  {
    WindowIsTheTimeInQuestion(fill, readings, windowMs);
    WindowIsTheTimeInQuestion(other, readings, windowMs);
    var a, b := Attribute(fill, readings, windowMs), Attribute(other, readings, windowMs);
    assert InQuestionUntil(fill, readings, windowMs, a.endMs) && InQuestionUntil(other, readings, windowMs, b.endMs);
  }

  /** Fills in question at a common instant are in question at once; and conversely where each is at any. */
  lemma {:induction false} AtOnceIsSharingAnInstant(
    fill: FillEvent, other: FillEvent, readings: seq<CashReading>, windowMs: int, at: int, otherAt: int)
    requires InQuestion(fill, readings, windowMs, at) && InQuestion(other, readings, windowMs, otherAt)
    ensures AtOnce(fill, other, readings, windowMs) <==>
      exists shared :: InQuestion(fill, readings, windowMs, shared) && InQuestion(other, readings, windowMs, shared)
  {
    WindowIsTheTimeInQuestion(fill, readings, windowMs);
    WindowIsTheTimeInQuestion(other, readings, windowMs);
    var a, b := Attribute(fill, readings, windowMs), Attribute(other, readings, windowMs);
    assert InQuestionUntil(fill, readings, windowMs, a.endMs) && InQuestionUntil(other, readings, windowMs, b.endMs);
    var latest := if a.startMs < b.startMs then b.startMs else a.startMs;
    if AtOnce(fill, other, readings, windowMs) {
      assert InQuestion(fill, readings, windowMs, latest) && InQuestion(other, readings, windowMs, latest);
    }
  }

  /** Some other fill of the sequence is in question at once with fill `i`. */
  ghost predicate Contested(fills: seq<FillEvent>, readings: seq<CashReading>, windowMs: int, i: nat)
    requires i < |fills|
  {
    exists j :: 0 <= j < |fills| && j != i && AtOnce(fills[i], fills[j], readings, windowMs)
  }

  lemma {:induction false} ContestedIsMeeting(fills: seq<FillEvent>, readings: seq<CashReading>, windowMs: int, i: nat)
    requires i < |fills|
    ensures Contested(fills, readings, windowMs, i) <==> MeetsAnother(AttributeAll(fills, readings, windowMs), i)
  {
    var a := AttributeAll(fills, readings, windowMs);
    forall j | 0 <= j < |fills| ensures Meets(a[i], a[j]) <==> AtOnce(fills[i], fills[j], readings, windowMs) {
      assert a[i] == Attribute(fills[i], readings, windowMs) && a[j] == Attribute(fills[j], readings, windowMs);
      MeetingIsAtOnce(fills[i], fills[j], readings, windowMs);
    }
  }

  /**
   A fill is marked as overlapping exactly when another is in question at once with it; any
   other fill keeps the record of its own correlation, and the bound stays in every case.
   */
  lemma {:induction false} OverlapIsExact(events: seq<FillEvent>, readings: seq<CashReading>, windowMs: int, i: nat)
    requires i < |events|
    ensures |ByReceipt(events)| == |Correlated(events, readings, windowMs)| == |events|
    ensures
      var fills := ByReceipt(events);
      var record := Correlated(events, readings, windowMs)[i];
      var anchorMs := Anchor(fills[i], None);
      var alone := RecordOf(fills[i], BaselineCash(readings, anchorMs), readings, anchorMs);
      && record == alone.(status := record.status)
      && record.status == if Contested(fills, readings, windowMs, i) then OverlappingFills else alone.status
  {
    ByReceiptKeeps(events);
    assert |multiset(ByReceipt(events))| == |multiset(events)|;
    var fills := ByReceipt(events);
    var a := AttributeAll(fills, readings, windowMs);
    CensoringAt(a, |a|, i);
    ContestedIsMeeting(fills, readings, windowMs, i);
    assert a[i] == Attribute(fills[i], readings, windowMs);
  }

  /** What a censored record without a bound would be. */
  predicate CensoredHasNoBound(record: Record) {
    IsMeasured(record.status) || record.visibilityBoundMs.None?
  }

  /**
   A censored record carries a bound exactly when another fill is in question at once with its
   own, and a read shows its own.
   */
  lemma {:induction false} CensoredBoundExactly(events: seq<FillEvent>, readings: seq<CashReading>, windowMs: int, i: nat)
    requires i < |ByReceipt(events)|
    ensures
      var fills := ByReceipt(events);
      var record := Correlated(events, readings, windowMs)[i];
      && (CensoredHasNoBound(record) <==>
            !(Contested(fills, readings, windowMs, i) && exists k: nat :: FirstShownBy(fills[i], readings, k)))
      && (!CensoredHasNoBound(record) ==> record.status == OverlappingFills)
  {
    var fills := ByReceipt(events);
    ByReceiptKeeps(events);
    assert |multiset(fills)| == |multiset(events)|;
    OverlapIsExact(events, readings, windowMs, i);
    ShownIsMeasured(fills[i], readings);
  }

  lemma {:induction false} ShownIsMeasured(fill: FillEvent, readings: seq<CashReading>)
    ensures
      var anchorMs := Anchor(fill, None);
      var record := RecordOf(fill, BaselineCash(readings, anchorMs), readings, anchorMs);
      && (IsMeasured(record.status) <==> exists k: nat :: FirstShownBy(fill, readings, k))
      && (record.visibilityBoundMs.Some? <==> IsMeasured(record.status))
      && record.status != OverlappingFills
  {
    var anchorMs := Anchor(fill, None);
    var before := BaselineCash(readings, anchorMs);
    if before.Some? {
      var k := FirstReflectingIsFirst(fill, readings, before.value, anchorMs);
      if k < |readings| {
        assert FirstShownBy(fill, readings, k);
      }
    }
  }

  lemma {:induction false} TwiceByReceipt(fill: FillEvent)
    ensures ByReceipt([fill, fill]) == [fill, fill]
  {
    var once := [fill];
    assert [fill, fill][1..] == once && once[1..] == [];
    assert ByReceipt(once) == InsertByReceipt(fill, ByReceipt([]));
    assert InsertByReceipt(fill, once) == [fill] + once;
  }

  lemma {:induction false} ReadBeforeAndAfter(fill: FillEvent, readings: seq<CashReading>)
    requires fill == FillEvent(10, "e", "fill", "SPY", Buy, 1.0, 10.0, "o", None)
    requires readings == [CashReading(0, 1, Some(100.0)), CashReading(11, 12, Some(90.0))]
    ensures Attribute(fill, readings, 1000) ==
      Attributed(Record(fill, Some(100.0), Resolved, Some(readings[1]), Some(2)), 10, 12)
  {
    assert readings[..1] == [readings[0]] && readings[1..] == [readings[1]];
    assert BaselineCash(readings, 10) == Some(100.0);
    assert FirstReflectingRead(fill, readings, 100.0, 10) == Some(readings[1]);
  }

  /** Two buys of one instant, and a read before and after them: the first is censored with a bound of 2 ms. */
  lemma {:induction false} OverlappedKeepsItsBound(fill: FillEvent, readings: seq<CashReading>)
    requires fill == FillEvent(10, "e", "fill", "SPY", Buy, 1.0, 10.0, "o", None)
    requires readings == [CashReading(0, 1, Some(100.0)), CashReading(11, 12, Some(90.0))]
    ensures
      var record := Correlated([fill, fill], readings, 1000)[0];
      record.status == OverlappingFills && record.visibilityBoundMs == Some(2)
  {
    TwiceByReceipt(fill);
    ReadBeforeAndAfter(fill, readings);
    var a := AttributeAll([fill, fill], readings, 1000);
    assert Meets(a[0], a[1]);
    OverlapByWindows([fill, fill], readings, 1000, 0);
  }

  /** The distribution has the bound of every measured record, in order, and no other. */
  lemma {:induction false} DelaysAreMeasuredBounds(fills: seq<Record>)
    ensures |Delays(fills)| == |Measured(fills)|
    ensures forall d :: 0 <= d < |Delays(fills)| ==> Delays(fills)[d] == Measured(fills)[d].visibilityBoundMs
  {
    if |fills| > 0 {
      DelaysAreMeasuredBounds(fills[..|fills| - 1]);
    }
  }

  lemma {:induction false} MeasuredAmong(fills: seq<Record>, d: nat) returns (i: nat)
    requires d < |Measured(fills)|
    ensures i < |fills| && IsMeasured(fills[i].status) && Measured(fills)[d] == fills[i]
  {
    var n := |fills| - 1;
    if d < |Measured(fills[..n])| {
      i := MeasuredAmong(fills[..n], d);
    } else {
      i := n;
    }
  }

  lemma {:induction false} SharedInstantIsContested(
    fills: seq<FillEvent>, readings: seq<CashReading>, windowMs: int, i: nat, j: nat, at: int)
    requires i < |fills| && j < |fills| && j != i
    requires InQuestion(fills[i], readings, windowMs, at) && InQuestion(fills[j], readings, windowMs, at)
    ensures Contested(fills, readings, windowMs, i)
  {
    AtOnceIsSharingAnInstant(fills[i], fills[j], readings, windowMs, at, at);
  }

  /**
   Every bound that enters the distribution belongs to a fill that no other is in question
   with at any instant, and is the bound of the first read that shows it.
   */
  lemma {:induction false} DelaysAreUnambiguous(events: seq<FillEvent>, readings: seq<CashReading>, windowMs: int, d: nat)
    returns (i: nat, k: nat)
    requires d < |Delays(Correlated(events, readings, windowMs))|
    ensures
      var fills := ByReceipt(events);
      && i < |fills| && FirstShownBy(fills[i], readings, k) && !Contested(fills, readings, windowMs, i)
      && Delays(Correlated(events, readings, windowMs))[d] == Some(ClassifyVisibility(fills[i], readings[k]).1)
      && forall j, at :: 0 <= j < |fills| && j != i && InQuestion(fills[i], readings, windowMs, at) ==>
           !InQuestion(fills[j], readings, windowMs, at)
  {
    var records, fills := Correlated(events, readings, windowMs), ByReceipt(events);
    DelaysAreMeasuredBounds(records);
    i := MeasuredAmong(records, d);
    ByReceiptKeeps(events);
    assert |multiset(fills)| == |multiset(events)|;
    OverlapIsExact(events, readings, windowMs, i);
    var anchorMs := Anchor(fills[i], None);
    var before := BaselineCash(readings, anchorMs);
    k := FirstReflectingIsFirst(fills[i], readings, before.value, anchorMs);
    forall j, at | 0 <= j < |fills| && j != i && InQuestion(fills[i], readings, windowMs, at)
      ensures !InQuestion(fills[j], readings, windowMs, at)
    {
      if InQuestion(fills[j], readings, windowMs, at) {
        SharedInstantIsContested(fills, readings, windowMs, i, j, at);
      }
    }
  }

  /** And every fill that a read shows, and no other is in question at once with, has its bound there. */
  lemma {:induction false} DelaysAreComplete(events: seq<FillEvent>, readings: seq<CashReading>, windowMs: int, i: nat, k: nat)
    requires i < |ByReceipt(events)| && FirstShownBy(ByReceipt(events)[i], readings, k)
    requires !Contested(ByReceipt(events), readings, windowMs, i)
    ensures Some(ClassifyVisibility(ByReceipt(events)[i], readings[k]).1) in Delays(Correlated(events, readings, windowMs))
  {
    var records, fills := Correlated(events, readings, windowMs), ByReceipt(events);
    ByReceiptKeeps(events);
    assert |multiset(fills)| == |multiset(events)|;
    OverlapIsExact(events, readings, windowMs, i);
    var anchorMs := Anchor(fills[i], None);
    var first := FirstReflectingIsFirst(fills[i], readings, BaselineCash(readings, anchorMs).value, anchorMs);
    assert first == k;
    var d := MeasuredHas(records, i);
    DelaysAreMeasuredBounds(records);
    assert Delays(records)[d] == records[i].visibilityBoundMs;
  }

  lemma {:induction false} MeasuredHas(fills: seq<Record>, i: nat) returns (d: nat)
    requires i < |fills| && IsMeasured(fills[i].status)
    ensures d < |Measured(fills)| && Measured(fills)[d] == fills[i]
  {
    var n := |fills| - 1;
    if i < n {
      d := MeasuredHas(fills[..n], i);
    } else {
      d := |Measured(fills[..n])|;
    }
  }

  /**
   A sell that no read shows is in question for its whole window, so a small buy received
   within it is not measured, although a read shows it.
   */
  lemma {:induction false} UnresolvedFillContests(sell: FillEvent, buy: FillEvent, readings: seq<CashReading>)
    requires sell == FillEvent(10, "s", "fill", "SPY", Sell, 10.0, 10.0, "o", None)
    requires buy == FillEvent(20, "b", "fill", "SPY", Buy, 1.0, 10.0, "p", None)
    requires readings == [CashReading(0, 1, Some(1000.0)), CashReading(30, 31, Some(990.0))]
    ensures
      var records := Correlated([sell, buy], readings, 1000);
      |records| == 2 && records[0].status == records[1].status == OverlappingFills && Delays(records) == []
  {
    SellThenBuy(sell, buy, readings);
    var a := AttributeAll([sell, buy], readings, 1000);
    assert a[0] == Attribute(sell, readings, 1000) && a[1] == Attribute(buy, readings, 1000);
    assert Meets(a[0], a[1]);
    var records := Correlated([sell, buy], readings, 1000);
    OverlapByWindows([sell, buy], readings, 1000, 0);
    OverlapByWindows([sell, buy], readings, 1000, 1);
    assert records[..1][..0] == [];
    assert Delays(records[..1]) == [];
  }

  lemma {:induction false} SellThenBuy(sell: FillEvent, buy: FillEvent, readings: seq<CashReading>)
    requires sell == FillEvent(10, "s", "fill", "SPY", Sell, 10.0, 10.0, "o", None)
    requires buy == FillEvent(20, "b", "fill", "SPY", Buy, 1.0, 10.0, "p", None)
    requires readings == [CashReading(0, 1, Some(1000.0)), CashReading(30, 31, Some(990.0))]
    ensures ByReceipt([sell, buy]) == [sell, buy]
    ensures Attribute(sell, readings, 1000).startMs == 10 && Attribute(sell, readings, 1000).endMs == 1010
    ensures Attribute(buy, readings, 1000).startMs == 20 && Attribute(buy, readings, 1000).endMs == 31
  {
    assert [sell, buy][1..] == [buy] && [buy][1..] == [];
    assert ByReceipt([buy]) == InsertByReceipt(buy, ByReceipt([])) == [buy];
    assert InsertByReceipt(sell, [buy]) == [sell] + [buy];
    assert readings[..1] == [readings[0]] && readings[1..] == [readings[1]] && readings[1..][1..] == [];
    assert BaselineCash(readings, 10) == BaselineCash(readings, 20) == Some(1000.0);
    assert FirstReflectingRead(sell, readings[1..], 1000.0, 10) == None;
    assert FirstReflectingRead(buy, readings[1..], 1000.0, 20) == Some(readings[1]);
  }

  /** For windows of positive length, meeting is having an instant in common. */
  lemma {:induction false} MeetingIsSharingAnInstant(a: Attributed, b: Attributed)
    requires a.startMs < a.endMs && b.startMs < b.endMs
    ensures Meets(a, b) <==> exists at: int :: Within(a, at) && Within(b, at)
  {
    var latest := if a.startMs < b.startMs then b.startMs else a.startMs;
    assert Meets(a, b) ==> Within(a, latest) && Within(b, latest);
  }

  predicate Within(a: Attributed, at: int) {
    a.startMs <= at < a.endMs
  }
}
