/**
 Waiting for the account's cash to settle: a loop that visits a growing list of series and
 counts how many in a row agree.
 */
module SettledReads {
  import opened Outcomes
  import opened Sequences
  import opened AccountReads

  /** The last `run` of the first `n` reads have one and the same cash. */
  ghost predicate AgreeUpTo(series: seq<CashReading>, n: nat, run: nat) {
    && run <= n <= |series|
    && forall i :: n - run <= i < n ==> series[i].cash.Some? && series[i].cash == series[n - 1].cash
  }

  /** Some `run` reads in a row have one and the same cash. */
  ghost predicate HasAgreement(series: seq<CashReading>, run: nat) {
    exists n: nat :: AgreeUpTo(series, n, run)
  }

  /** The loop's counters after some reads: how many agree, and the last cash. */
  datatype Count = Count(stable: nat, last: Option<real>)

  /** One read counted. */
  function CountOne(c: Count, cash: Option<real>): Count {
    Count(if cash.Some? && cash == c.last then c.stable + 1 else if cash.Some? then 1 else 0, cash)
  }

  function CountAll(series: seq<CashReading>): Count {
    if |series| == 0 then Count(0, None) else CountOne(CountAll(series[..|series| - 1]), series[|series| - 1].cash)
  }

  /** The count is the length of the longest agreeing run that ends with the last read. */
  lemma {:induction false} CountIsTheRun(series: seq<CashReading>)
    ensures
      var c := CountAll(series);
      && AgreeUpTo(series, |series|, c.stable)
      && (forall run: nat :: AgreeUpTo(series, |series|, run) ==> run <= c.stable)
      && c.last == (if |series| == 0 then None else series[|series| - 1].cash)
  {
    if |series| > 0 {
      var n := |series| - 1;
      CountIsTheRun(series[..n]);
      var before := CountAll(series[..n]);
      forall run: nat | AgreeUpTo(series, |series|, run) ensures run <= CountAll(series).stable {
        if run > 1 {
          assert series[n - 1].cash.Some? && series[n - 1].cash == series[n].cash;
          forall i | n - (run - 1) <= i < n
            ensures series[..n][i].cash.Some? && series[..n][i].cash == series[..n][n - 1].cash
          {
            assert series[i].cash == series[n].cash;
          }
          assert AgreeUpTo(series[..n], n, run - 1);
        } else if run == 1 {
          assert series[n].cash.Some?;
        }
      }
    }
  }

  /** At least two reads must agree whatever was asked: a single read agrees with nothing. */
  function Needed(equalReads: int): nat {
    if equalReads < 2 then 2 else equalReads
  }

  lemma {:induction false} AgreementOfPrefix(series: seq<CashReading>, longer: seq<CashReading>, run: nat)
    requires series <= longer
    ensures HasAgreement(series, run) ==> HasAgreement(longer, run)
  {
    if HasAgreement(series, run) {
      var m: nat :| AgreeUpTo(series, m, run);
      assert AgreeUpTo(longer, m, run) by {
        assert forall i :: 0 <= i < m ==> series[i] == longer[i];
      }
    }
  }

  /** One read more adds an agreement only by ending one. */
  lemma {:induction false} AgreementSnoc(series: seq<CashReading>, reading: CashReading, run: nat)
    requires run > 0
    ensures HasAgreement(series + [reading], run) <==>
      HasAgreement(series, run) || CountAll(series + [reading]).stable >= run
  {
    var longer := series + [reading];
    CountIsTheRun(longer);
    AgreementOfPrefix(series, longer, run);
    if HasAgreement(longer, run) {
      var n: nat :| AgreeUpTo(longer, n, run);
      if n < |longer| {
        assert forall i :: 0 <= i < n ==> longer[i] == series[i];
        assert AgreeUpTo(series, n, run);
      }
    }
    if CountAll(longer).stable >= run {
      assert AgreeUpTo(longer, |longer|, run);
    }
  }

  lemma {:induction false} CountSnoc(series: seq<CashReading>, reading: CashReading)
    ensures CountAll(series + [reading]) == CountOne(CountAll(series), reading.cash)
  {
    assert (series + [reading])[..|series|] == series;
  }

  /** What has been counted, with nothing settled yet. */
  ghost predicate Unsettled(c: Count, series: seq<CashReading>, run: nat) {
    c == CountAll(series) && !HasAgreement(series, run)
  }

  lemma {:induction false} CountOneMore(c: Count, series: seq<CashReading>, i: nat, run: nat)
    requires i < |series| && run > 0 && Unsettled(c, series[..i], run)
    ensures
      var next := CountOne(c, series[i].cash);
      if next.stable >= run then HasAgreement(series[..i + 1], run) else Unsettled(next, series[..i + 1], run)
  {
    TakeSnoc(series, i);
    CountSnoc(series[..i], series[i]);
    AgreementSnoc(series[..i], series[i], run);
  }

  lemma {:induction false} LastSeenWasCounted(c: Count, series: seq<CashReading>, run: nat)
    requires Unsettled(c, series, run)
    ensures c.last.Some? ==> c.stable > 0
  {
    CountIsTheRun(series);
    if c.last.Some? {
      assert AgreeUpTo(series, |series|, 1);
    }
  }

  /** What the wait answers, with these reads made before it and these appended before each look. */
  ghost predicate Settles(before: seq<CashReading>, looks: seq<seq<CashReading>>, equalReads: int) {
    looks != [] && HasAgreement(before + Flatten(looks), Needed(equalReads))
  }

  /** Count what a snapshot has more than the `processed` reads counted so far. */
  method CountBacklog(snapshot: seq<CashReading>, processed: nat, before: Count, equalReads: int)
    returns (settled: bool, count: Count)
    requires processed <= |snapshot| && Unsettled(before, snapshot[..processed], Needed(equalReads))
    ensures settled <==> HasAgreement(snapshot, Needed(equalReads))
    ensures !settled ==> Unsettled(count, snapshot, Needed(equalReads))
  {
    count := before;
    for i := processed to |snapshot|
      invariant Unsettled(count, snapshot[..i], Needed(equalReads))
    {
      LastSeenWasCounted(count, snapshot[..i], Needed(equalReads));
      CountOneMore(count, snapshot, i, Needed(equalReads));
      var cash := snapshot[i].cash;
      if cash.Some? && cash == count.last {
        count := count.(stable := count.stable + 1);
        if count.stable >= equalReads {
          AgreementOfPrefix(snapshot[..i + 1], snapshot, Needed(equalReads));
          return true, count;
        }
      } else {
        count := count.(stable := if cash.Some? then 1 else 0);
      }
      count := count.(last := cash);
    }
    assert snapshot[..|snapshot|] == snapshot;
    settled := false;
  }

  /**
   Wait for agreement.  `looks` is the schedule: what the poller appends before each look that
   fits before the deadline.  The answer is whether everything there is by the last look holds
   the needed run, however the appends fell between looks; reads made before the call count.
   */
  method AwaitSettledReads(poller: AccountPoller, equalReads: int, looks: seq<seq<CashReading>>) returns (settled: bool)
    modifies poller
    ensures settled <==> Settles(old(poller.readings), looks, equalReads)
    ensures poller.readings <= old(poller.readings) + Flatten(looks)
    ensures !settled ==> poller.readings == old(poller.readings) + Flatten(looks)
  {
    var count := Count(0, None);
    var processed: nat := 0;
    ghost var before := poller.readings;
    NoReadsNoAgreement(Needed(equalReads));
    for k := 0 to |looks|
      invariant poller.readings == before + Flatten(looks[..k])
      invariant processed == if k == 0 then 0 else |poller.readings|
      invariant Unsettled(count, poller.readings[..processed], Needed(equalReads))
    {
      ghost var seen := poller.readings[..processed];
      poller.PollerTurn(looks[k]);
      FlattenOneMore(before, looks, k);
      assert poller.readings[..processed] == seen;
      settled, count := CountBacklog(poller.readings, processed, count, equalReads);
      if settled {
        FlattenPrefix(before, looks, k + 1);
        AgreementOfPrefix(poller.readings, before + Flatten(looks), Needed(equalReads));
        return;
      }
      processed := |poller.readings|;
      assert poller.readings[..processed] == poller.readings;
    }
    assert looks[..|looks|] == looks;
    assert looks != [] ==> poller.readings[..processed] == before + Flatten(looks);
    settled := false;
  }

  lemma {:induction false} NoReadsNoAgreement(run: nat)
    requires run > 0
    ensures !HasAgreement([], run)
  {
  }

  // ----- do only new reads count? -----

  /** Two equal reads made before the call settle a wait in which the poller reads nothing. */
  lemma {:induction false} EarlierReadsSettle(reading: CashReading)
    requires reading.cash.Some?
    ensures Settles([reading, reading], [[]], 2) && !Settles([], [[]], 2)
  {
    FlattenOne<CashReading>([]);
    assert AgreeUpTo([reading, reading] + [], 2, 2);
  }

  /** After reads that end in a failed one, an agreement is an earlier or a new one. */
  lemma {:induction false} NewAgreementIsNew(before: seq<CashReading>, newer: seq<CashReading>, run: nat)
    requires CountAll(before).stable == 0 && !HasAgreement(before, run) && run > 0
    ensures HasAgreement(before + newer, run) <==> HasAgreement(newer, run)
  {
    var all := before + newer;
    if HasAgreement(all, run) {
      var n: nat :| AgreeUpTo(all, n, run);
      AgreementStartsAfter(before, newer, n, run);
      assert forall i :: 0 <= i < |newer| ==> newer[i] == all[|before| + i];
      assert AgreeUpTo(newer, n - |before|, run);
    }
    if HasAgreement(newer, run) {
      var n: nat :| AgreeUpTo(newer, n, run);
      forall i | |before| + n - run <= i < |before| + n
        ensures all[i].cash.Some? && all[i].cash == all[|before| + n - 1].cash
      {
        assert all[i] == newer[i - |before|];
      }
      assert AgreeUpTo(all, |before| + n, run);
    }
  }

  lemma {:induction false} AgreementStartsAfter(before: seq<CashReading>, newer: seq<CashReading>, n: nat, run: nat)
    requires CountAll(before).stable == 0 && !HasAgreement(before, run) && run > 0
    requires AgreeUpTo(before + newer, n, run)
    ensures |before| + run <= n
  {
    var all := before + newer;
    assert forall i :: 0 <= i < |before| ==> all[i] == before[i];
    if n <= |before| {
      assert AgreeUpTo(before, n, run);
    } else if n - run < |before| {
      CountIsTheRun(before);
      assert all[|before| - 1].cash.Some?;
      assert AgreeUpTo(before, |before|, 1);
    }
  }

  /** One read fewer than the run needs, all with the cash that `before` ends in, complete it. */
  lemma {:induction false} OldRunIsContinued(before: seq<CashReading>, run: nat) returns (newer: seq<CashReading>)
    requires CountAll(before).stable > 0 && run > 0
    ensures HasAgreement(before + newer, run) && !HasAgreement(newer, run)
  {
    CountIsTheRun(before);
    assert before != [];
    var last := before[|before| - 1];
    newer := seq(run - 1, _ => last);
    var all := before + newer;
    forall i | |all| - run <= i < |all| ensures all[i] == last {
      assert i < |before| ==> i == |before| - 1;
    }
    assert last.cash.Some?;
    assert AgreeUpTo(all, |all|, run);
  }

  /**
   Only new reads count, whatever they are, exactly when the earlier ones hold no agreement of
   their own and do not end in one that new reads could continue: the last of them failed, or
   there are none.
   */
  lemma {:induction false} OnlyNewReadsCountExactly(before: seq<CashReading>, equalReads: int)
    ensures
      (forall looks :: Settles(before, looks, equalReads) <==> Settles([], looks, equalReads)) <==>
      !HasAgreement(before, Needed(equalReads)) && (before == [] || before[|before| - 1].cash.None?)
  {
    var run := Needed(equalReads);
    CountIsTheRun(before);
    assert CountAll(before).stable == 0 <==> before == [] || before[|before| - 1].cash.None?;
    if HasAgreement(before, run) {
      NoReadsNoAgreement(run);
      AgreementOfPrefix(before, before + [], run);
      OldReadsDecide(before, [], equalReads);
    } else if CountAll(before).stable > 0 {
      var newer := OldRunIsContinued(before, run);
      OldReadsDecide(before, newer, equalReads);
    } else {
      forall looks ensures Settles(before, looks, equalReads) <==> Settles([], looks, equalReads) {
        NewAgreementIsNew(before, Flatten(looks), run);
        assert [] + Flatten(looks) == Flatten(looks);
      }
    }
  }

  /** A wait of one look, told apart by the earlier reads. */
  lemma {:induction false} OldReadsDecide(before: seq<CashReading>, newer: seq<CashReading>, equalReads: int)
    requires HasAgreement(before + newer, Needed(equalReads)) && !HasAgreement(newer, Needed(equalReads))
    ensures Settles(before, [newer], equalReads) && !Settles([], [newer], equalReads)
  {
    FlattenOne(newer);
    assert [] + newer == newer;
  }
}
