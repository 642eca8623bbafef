/**
 The longest-processing-time deal of test files to CI shards, as pytest's plugin and
 vitest's sequencer each write it, and what it guarantees.
 */
module ShardDeal {
  import opened RepeatedSums
  import opened ShardLoads

  /** A key with a measured duration, as the deal sorts it. */
  datatype Entry = Entry(duration: real, key: string)

  // ----- the sort key (-duration, key) -----

  predicate KeyAtMost(a: string, b: string) {
    if a == "" then true
    else if b == "" then false
    else a[0] < b[0] || (a[0] == b[0] && KeyAtMost(a[1..], b[1..]))
  }

  predicate DealtBefore(x: Entry, y: Entry) {
    x.duration > y.duration || (x.duration == y.duration && KeyAtMost(x.key, y.key))
  }

  lemma {:induction false} SamePrefixHead(a: string, b: string, i: nat)
    requires 0 < i <= |a| && i <= |b| && a[..i] == b[..i]
    ensures a[0] == b[0]
  {
    assert a[..i][0] == b[..i][0];
  }

  /** Keys are ordered as words in a dictionary: a prefix first, else by the first character that differs. */
  lemma {:induction false} KeyOrderIsLexicographic(a: string, b: string)
    ensures KeyAtMost(a, b) <==>
      a <= b || exists i: nat :: i < |a| && i < |b| && a[..i] == b[..i] && a[i] < b[i]
  {
    if a != "" && b != "" {
      var s, t := a[1..], b[1..];
      KeyOrderIsLexicographic(s, t);
      assert a == [a[0]] + s && b == [b[0]] + t;
      if a[0] == b[0] {
        assert a <= b <==> s <= t;
        if i: nat :| i < |s| && i < |t| && s[..i] == t[..i] && s[i] < t[i] {
          assert a[..i + 1] == [a[0]] + s[..i] && b[..i + 1] == [b[0]] + t[..i] && a[i + 1] < b[i + 1];
        }
        if i: nat :| i < |a| && i < |b| && a[..i] == b[..i] && a[i] < b[i] {
          assert s[..i - 1] == a[..i][1..] && t[..i - 1] == b[..i][1..] && s[i - 1] < t[i - 1];
        }
      } else {
        if a[0] < b[0] {
          assert a[..0] == b[..0];
        }
        if i: nat :| i < |a| && i < |b| && a[..i] == b[..i] && a[i] < b[i] {
          if i > 0 {
            SamePrefixHead(a, b, i);
          }
        }
      }
    }
  }

  lemma {:induction false} KeyOrderIsTotal(a: string, b: string)
    ensures KeyAtMost(a, b) || KeyAtMost(b, a)
    ensures KeyAtMost(a, b) && KeyAtMost(b, a) ==> a == b
  {
    if a != "" && b != "" && a[0] == b[0] {
      KeyOrderIsTotal(a[1..], b[1..]);
      assert a == [a[0]] + a[1..] && b == [b[0]] + b[1..];
    }
  }

  lemma {:induction false} KeyOrderIsTransitive(a: string, b: string, c: string)
    requires KeyAtMost(a, b) && KeyAtMost(b, c)
    ensures KeyAtMost(a, c)
  {
    if a != "" && a[0] == b[0] == c[0] {
      KeyOrderIsTransitive(a[1..], b[1..], c[1..]);
    }
  }

  ghost predicate InDealOrder(es: seq<Entry>) {
    forall i, j :: 0 <= i < j < |es| ==> DealtBefore(es[i], es[j])
  }

  function Insert(e: Entry, es: seq<Entry>): seq<Entry> {
    if |es| == 0 || DealtBefore(e, es[0]) then [e] + es else [es[0]] + Insert(e, es[1..])
  }

  /** The entries in deal order: heaviest first, ties by key. */
  function SortEntries(es: seq<Entry>): seq<Entry> {
    if |es| == 0 then [] else Insert(es[0], SortEntries(es[1..]))
  }

  lemma {:induction false} InsertIsSorted(e: Entry, es: seq<Entry>)
    requires InDealOrder(es)
    ensures InDealOrder(Insert(e, es))
    ensures multiset(Insert(e, es)) == multiset{e} + multiset(es)
  {
    if |es| == 0 {
    } else if DealtBefore(e, es[0]) {
      forall j | 0 <= j < |es| ensures DealtBefore(e, es[j]) {
        if j > 0 && e.duration == es[0].duration == es[j].duration {
          assert DealtBefore(es[0], es[j]);
          KeyOrderIsTransitive(e.key, es[0].key, es[j].key);
        }
      }
    } else {
      KeyOrderIsTotal(e.key, es[0].key);
      InsertIsSorted(e, es[1..]);
      assert es == [es[0]] + es[1..];
      var rest := Insert(e, es[1..]);
      forall j | 0 <= j < |rest| ensures DealtBefore(es[0], rest[j]) {
        assert rest[j] in multiset(rest);
        if rest[j] != e {
          assert rest[j] in es[1..];
        }
      }
    }
  }

  lemma {:induction false} SortEntriesIsSorted(es: seq<Entry>)
    ensures InDealOrder(SortEntries(es))
    ensures multiset(SortEntries(es)) == multiset(es)
    ensures |SortEntries(es)| == |es|
  {
    if |es| > 0 {
      SortEntriesIsSorted(es[1..]);
      InsertIsSorted(es[0], SortEntries(es[1..]));
      assert es == [es[0]] + es[1..];
    }
    SameCount(SortEntries(es), es);
  }

  lemma {:induction false} SameCount(a: seq<Entry>, b: seq<Entry>)
    requires multiset(a) == multiset(b)
    ensures |a| == |b|
  {
    assert |multiset(a)| == |a| && |multiset(b)| == |b|;
  }

  lemma {:induction false} HeadIsFirst(es: seq<Entry>, e: Entry)
    requires InDealOrder(es) && |es| > 0 && e in multiset(es)
    ensures DealtBefore(es[0], e)
  {
    KeyOrderIsTotal(e.key, e.key);
    assert e in es;
  }

  lemma {:induction false} SameHead(a: seq<Entry>, b: seq<Entry>)
    requires InDealOrder(a) && InDealOrder(b) && |a| > 0 && |b| > 0
    requires a[0] in multiset(b) && b[0] in multiset(a)
    ensures a[0] == b[0]
  {
    HeadIsFirst(a, b[0]);
    HeadIsFirst(b, a[0]);
    KeyOrderIsTotal(a[0].key, b[0].key);
  }

  lemma {:induction false} WithoutHead(es: seq<Entry>)
    requires |es| > 0
    ensures multiset(es[1..]) == multiset(es) - multiset{es[0]}
  {
    assert es == [es[0]] + es[1..];
  }

  /** There is only one deal order of a collection of entries, so any correct sort finds it. */
  lemma {:induction false} DealOrderIsUnique(a: seq<Entry>, b: seq<Entry>)
    requires InDealOrder(a) && InDealOrder(b) && multiset(a) == multiset(b)
    ensures a == b
  {
    assert |multiset(a)| == |a| && |multiset(b)| == |b|;
    if |a| > 0 {
      assert a[0] in multiset(a) && b[0] in multiset(b);
      SameHead(a, b);
      WithoutHead(a);
      WithoutHead(b);
      DealOrderIsUnique(a[1..], b[1..]);
      assert a == [a[0]] + a[1..] && b == [b[0]] + b[1..];
    }
  }

  // ----- the deal -----

  /** The lowest-numbered shard whose load no other shard's is below. */
  function Lightest(loads: seq<real>): (k: nat)
    requires |loads| > 0
    ensures k < |loads|
    ensures forall j :: 0 <= j < |loads| ==> loads[k] <= loads[j]
    ensures forall j :: 0 <= j < k ==> loads[k] < loads[j]
  {
    var n := |loads| - 1;
    if n == 0 then 0
    else
      var k := Lightest(loads[..n]);
      assert forall j :: 0 <= j < n ==> loads[..n][j] == loads[j];
      if loads[n] < loads[k] then n else k
  }

  /** Where a deal stands: each shard's load, and the shard of each entry dealt so far. */
  datatype Deal = Deal(loads: seq<real>, owners: seq<nat>)

  /** `m` shards with nothing on them yet. */
  function Idle(m: nat): (loads: seq<real>)
    ensures |loads| == m && forall i :: 0 <= i < m ==> loads[i] == 0.0
  {
    if m == 0 then [] else Idle(m - 1) + [0.0]
  }

  /** The loads after the lightest shard takes a job. */
  function Loaded(loads: seq<real>, job: real): (next: seq<real>)
    requires |loads| > 0
    ensures |next| == |loads|
  {
    var k := Lightest(loads);
    loads[k := loads[k] + job]
  }

  /** Deal one more job, to the lightest shard. */
  function Place(d: Deal, job: real): (next: Deal)
    requires |d.loads| > 0
    ensures |next.loads| == |d.loads| && |next.owners| == |d.owners| + 1
  {
    Deal(Loaded(d.loads, job), d.owners + [Lightest(d.loads)])
  }

  function DealOut(jobs: seq<real>, m: nat): (d: Deal)
    requires m > 0
    ensures |d.loads| == m && |d.owners| == |jobs|
  {
    if |jobs| == 0 then Deal(Idle(m), [])
    else Place(DealOut(jobs[..|jobs| - 1], m), jobs[|jobs| - 1])
  }

  lemma {:induction false} DealOutSnoc(jobs: seq<real>, job: real, m: nat)
    requires m > 0
    ensures DealOut(jobs + [job], m) == Place(DealOut(jobs, m), job)
  {
    assert (jobs + [job])[..|jobs|] == jobs;
  }

  lemma {:induction false} DealKeepsLoads(jobs: seq<real>, m: nat)
    requires m > 0
    ensures Onto(DealOut(jobs, m).owners, m)
    ensures forall k: nat :: k < m ==> DealOut(jobs, m).loads[k] == Load(jobs, DealOut(jobs, m).owners, k)
  {
    if |jobs| > 0 {
      var n := |jobs| - 1;
      DealKeepsLoads(jobs[..n], m);
      assert DealOut(jobs, m).owners[..n] == DealOut(jobs[..n], m).owners;
    }
  }

  // ----- the bounds -----

  /** At every point of the deal the loads lie within one job of each other. */
  lemma {:induction false} GapWithinOneJob(jobs: seq<real>, m: nat, largest: real)
    requires m > 0 && NonNegative(jobs) && 0.0 <= largest
    requires forall i :: 0 <= i < |jobs| ==> jobs[i] <= largest
    ensures forall j, k :: 0 <= j < m && 0 <= k < m ==>
      DealOut(jobs, m).loads[j] - DealOut(jobs, m).loads[k] <= largest
  {
    if |jobs| > 0 {
      GapWithinOneJob(jobs[..|jobs| - 1], m, largest);
    }
  }

  /** `m` times the heaviest load is at most the total plus `m - 1` times the largest job. */
  lemma {:induction false} HeaviestWithinAveragePlusOneJob(jobs: seq<real>, m: nat, largest: real, k: nat)
    requires m > 0 && NonNegative(jobs) && 0.0 <= largest && k < m
    requires forall i :: 0 <= i < |jobs| ==> jobs[i] <= largest
    ensures Times(m, DealOut(jobs, m).loads[k]) <= Sum(jobs) + Times(m - 1, largest)
  {
    if |jobs| == 0 {
      TimesZero(m);
      TimesZero(m - 1);
      TimesMonotone(m - 1, 0.0, largest);
    } else {
      var n := |jobs| - 1;
      var before := DealOut(jobs[..n], m).loads;
      HeaviestWithinAveragePlusOneJob(jobs[..n], m, largest, k);
      if k == Lightest(before) {
        JoinsWithinAverage(jobs, m, largest, before, before[k]);
      }
    }
  }

  /** The load the last job makes when it joins the lightest shard. */
  lemma {:induction false} JoinsWithinAverage(
    jobs: seq<real>, m: nat, largest: real, before: seq<real>, lightest: real)
    requires m > 0 && |jobs| > 0 && jobs[|jobs| - 1] <= largest
    requires before == DealOut(jobs[..|jobs| - 1], m).loads
    requires forall k :: 0 <= k < m ==> lightest <= before[k]
    ensures Times(m, lightest + jobs[|jobs| - 1]) <= Sum(jobs) + Times(m - 1, largest)
  {
    var n := |jobs| - 1;
    LightestWithinAverage(jobs[..n], m, lightest);
    TimesAdds(m, lightest, jobs[n]);
    TimesMonotone(m - 1, jobs[n], largest);
  }

  lemma {:induction false} LightestWithinAverage(jobs: seq<real>, m: nat, lightest: real)
    requires m > 0 && forall k :: 0 <= k < m ==> lightest <= DealOut(jobs, m).loads[k]
    ensures Times(m, lightest) <= Sum(jobs)
  {
    var owners := DealOut(jobs, m).owners;
    DealKeepsLoads(jobs, m);
    AllLoadsAtLeast(jobs, owners, m, lightest);
    LoadsPartitionTheWork(jobs, owners, m);
  }

  /** One step of Graham's argument: the load the last job makes when it joins the lightest shard. */
  lemma {:induction false} JoiningTheLightest(
    jobs: seq<real>, m: nat, other: seq<nat>, limit: real, before: seq<real>, lightest: real)
    requires m > 0 && |jobs| > 0 && NonNegative(jobs)
    requires forall i :: 0 <= i < |jobs| ==> jobs[|jobs| - 1] <= jobs[i]
    requires |other| == |jobs| && Onto(other, m) && LoadsWithin(jobs, other, m, limit)
    requires before == DealOut(jobs[..|jobs| - 1], m).loads
    requires forall k :: 0 <= k < m ==> lightest <= before[k]
    ensures 3.0 * Times(m, lightest + jobs[|jobs| - 1]) + limit <= 4.0 * Times(m, limit)
  {
    var n := |jobs| - 1;
    LoadsAreNonNegative(jobs, other, 0);
    assert 0.0 <= Load(jobs, other, 0) <= limit;
    TimesZero(m - 1);
    TimesMonotone(m - 1, 0.0, limit);
    if limit < 3.0 * jobs[n] {
      DealKeepsLoads(jobs[..n], m);
      var roomy := SomeShardHasRoom(jobs, other, DealOut(jobs[..n], m).owners, m, limit);
      TimesMonotone(m, lightest + jobs[n], limit);
    } else {
      LightestWithinAverage(jobs[..n], m, lightest);
      AllLoadsAtMost(jobs, other, m, limit);
      LoadsPartitionTheWork(jobs, other, m);
      TimesAdds(m, lightest, jobs[n]);
      ThirdOfLimit(m - 1, jobs[n], limit);
    }
  }

  /**
   Graham's bound, multiplied through by 3m: if any assignment of the jobs keeps every shard
   within `limit`, the deal keeps every shard within (4/3 - 1/(3m)) * limit.
   */
  lemma {:induction false} DealWithinFourThirds(
    jobs: seq<real>, m: nat, other: seq<nat>, limit: real, k: nat)
    requires m > 0 && k < m && NonNegative(jobs)
    requires forall i, j :: 0 <= i < j < |jobs| ==> jobs[i] >= jobs[j]
    requires |other| == |jobs| && Onto(other, m) && LoadsWithin(jobs, other, m, limit)
    ensures 3.0 * Times(m, DealOut(jobs, m).loads[k]) + limit <= 4.0 * Times(m, limit)
  {
    if |jobs| == 0 {
      NothingDealtYet(jobs, m, other, limit, k);
    } else {
      var n := |jobs| - 1;
      PrefixWithin(jobs, other, m, limit);
      DealWithinFourThirds(jobs[..n], m, other[..n], limit, k);
      AfterTheLastJob(jobs, m, other, limit, k, DealOut(jobs[..n], m).loads);
    }
  }

  lemma {:induction false} NothingDealtYet(jobs: seq<real>, m: nat, other: seq<nat>, limit: real, k: nat)
    requires m > 0 && k < m && |jobs| == |other| == 0 && LoadsWithin(jobs, other, m, limit)
    ensures 3.0 * Times(m, DealOut(jobs, m).loads[k]) + limit <= 4.0 * Times(m, limit)
  {
    assert 0.0 == Load(jobs, other, k) <= limit;
    TimesZero(m);
    TimesZero(m - 1);
    TimesMonotone(m - 1, 0.0, limit);
  }

  lemma {:induction false} AfterTheLastJob(
    jobs: seq<real>, m: nat, other: seq<nat>, limit: real, k: nat, before: seq<real>)
    requires m > 0 && k < m && |jobs| > 0 && NonNegative(jobs)
    requires forall i, j :: 0 <= i < j < |jobs| ==> jobs[i] >= jobs[j]
    requires |other| == |jobs| && Onto(other, m) && LoadsWithin(jobs, other, m, limit)
    requires before == DealOut(jobs[..|jobs| - 1], m).loads
    requires 3.0 * Times(m, before[k]) + limit <= 4.0 * Times(m, limit)
    ensures 3.0 * Times(m, DealOut(jobs, m).loads[k]) + limit <= 4.0 * Times(m, limit)
  {
    assert DealOut(jobs, m).loads == Loaded(before, jobs[|jobs| - 1]);
    if k == Lightest(before) {
      JoiningTheLightest(jobs, m, other, limit, before, before[k]);
    }
  }

  lemma {:induction false} ThirdOfLimit(m: nat, job: real, limit: real)
    requires 3.0 * job <= limit
    ensures 3.0 * Times(m, job) <= Times(m, limit)
  {
    if m > 0 {
      ThirdOfLimit(m - 1, job, limit);
    }
  }

  lemma {:induction false} PrefixWithin(jobs: seq<real>, owners: seq<nat>, m: nat, limit: real)
    requires |owners| == |jobs| > 0 && NonNegative(jobs) && Onto(owners, m) && LoadsWithin(jobs, owners, m, limit)
    ensures NonNegative(jobs[..|jobs| - 1]) && Onto(owners[..|jobs| - 1], m)
    ensures LoadsWithin(jobs[..|jobs| - 1], owners[..|jobs| - 1], m, limit)
  {
    var n := |jobs| - 1;
    var earlier, theirs := jobs[..n], owners[..n];
    forall k: nat | k < m ensures Load(earlier, theirs, k) <= limit {
      assert Load(jobs, owners, k) <= limit;
    }
  }
}
