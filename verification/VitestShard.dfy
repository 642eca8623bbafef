/**
 vitest's sequencer: sort the spec files heaviest first, then filter them with a callback
 that adds each weight to the lightest load and keeps the files that landed on this shard.
 */
module VitestShard {
  import opened Sequences
  import opened ShardDeal
  import PytestShard

  /** `Math.min` of the loads. */
  method MinLoad(loads: array<real>) returns (least: real)
    requires loads.Length > 0
    ensures least in loads[..] && forall i :: 0 <= i < loads.Length ==> least <= loads[i]
  {
    least := loads[0];
    for i := 1 to loads.Length
      invariant least in loads[..i] && forall j :: 0 <= j < i ==> least <= loads[j]
    {
      if loads[i] < least {
        least := loads[i];
      }
      assert loads[..i + 1] == loads[..i] + [loads[i]];
    }
    assert loads[..loads.Length] == loads[..];
  }

  /** `indexOf`: the first index holding the value. */
  method IndexOf(loads: array<real>, value: real) returns (k: nat)
    requires value in loads[..]
    ensures k < loads.Length && loads[k] == value && forall j :: 0 <= j < k ==> loads[j] != value
  {
    k := 0;
    while loads[k] != value
      invariant k < loads.Length && forall j :: 0 <= j < k ==> loads[j] != value
      decreases loads.Length - k
    {
      k := k + 1;
    }
  }

  function Weighted(files: seq<string>, weight: string -> real): seq<Entry> {
    if |files| == 0 then []
    else Weighted(files[..|files| - 1], weight) + [Entry(weight(files[|files| - 1]), files[|files| - 1])]
  }

  /** The weighted files, in the order the sequencer sorts them. */
  function WeightedOrder(files: seq<string>, weight: string -> real): seq<Entry> {
    SortEntries(Weighted(files, weight))
  }

  /** The entries whose owner is `shard`, in order. */
  function OwnedBy(es: seq<Entry>, owners: seq<nat>, shard: nat): seq<string>
    requires |owners| == |es|
  {
    if |es| == 0 then []
    else
      var n := |es| - 1;
      OwnedBy(es[..n], owners[..n], shard) + if owners[n] == shard then [es[n].key] else []
  }

  lemma {:induction false} OwnedBySnoc(es: seq<Entry>, owners: seq<nat>, e: Entry, k: nat, shard: nat)
    requires |owners| == |es|
    ensures OwnedBy(es + [e], owners + [k], shard) ==
      OwnedBy(es, owners, shard) + if k == shard then [e.key] else []
  {
    assert (es + [e])[..|es|] == es && (owners + [k])[..|es|] == owners;
  }

  /** The files that shard `shardIndex` of `shardCount` runs, heaviest first. */
  method Shard(files: seq<string>, weight: string -> real, shardIndex: nat, shardCount: nat)
    returns (mine: seq<string>)
    requires 1 <= shardIndex <= shardCount
    ensures
      var es := WeightedOrder(files, weight);
      mine == OwnedBy(es, DealOut(PytestShard.Durations(es), shardCount).owners, shardIndex - 1)
  {
    mine := FilterDealt(WeightedOrder(files, weight), shardIndex, shardCount);
  }

  /** The filter stage, which deals while it filters. */
  method FilterDealt(es: seq<Entry>, shardIndex: nat, shardCount: nat) returns (mine: seq<string>)
    requires 1 <= shardIndex <= shardCount
    ensures mine == OwnedBy(es, DealOut(PytestShard.Durations(es), shardCount).owners, shardIndex - 1)
  {
    var loads := new real[shardCount](_ => 0.0);
    mine := [];
    ghost var deal := DealOut([], shardCount);
    for i := 0 to |es|
      invariant deal == DealOut(PytestShard.Durations(es[..i]), shardCount)
      invariant loads[..] == deal.loads
      invariant mine == OwnedBy(es[..i], deal.owners, shardIndex - 1)
    {
      PytestShard.DealStep(es, i, shardCount, deal);
      OwnedBySnoc(es[..i], deal.owners, es[i], Lightest(deal.loads), shardIndex - 1);
      TakeSnoc(es, i);
      var keep := DealToLightest(loads, es[i].duration, shardIndex);
      mine := mine + if keep then [es[i].key] else [];
      deal := Place(deal, es[i].duration);
    }
    assert es[..|es|] == es;
  }

  /** The filter callback: add the weight to the lightest load; keep the file if that is this shard. */
  method DealToLightest(loads: array<real>, weight: real, shardIndex: nat) returns (keep: bool)
    requires loads.Length > 0
    modifies loads
    ensures loads[..] == Loaded(old(loads[..]), weight)
    ensures keep == (Lightest(old(loads[..])) + 1 == shardIndex)
  {
    var least := MinLoad(loads);
    var lightest := IndexOf(loads, least);
    assert lightest == Lightest(loads[..]);
    loads[lightest] := loads[lightest] + weight;
    return lightest + 1 == shardIndex;
  }

  // ----- agreement with pytest's deal -----

  lemma {:induction false} AllMeasuredIsWeighted(files: seq<string>, weight: string -> real, durations: map<string, real>)
    requires forall f :: f in files ==> f in durations && durations[f] == weight(f)
    ensures PytestShard.Measured(files, durations) == Weighted(files, weight)
  {
    if |files| > 0 {
      AllMeasuredIsWeighted(files[..|files| - 1], weight, durations);
    }
  }

  lemma {:induction false} OwnedByExactly(es: seq<Entry>, owners: seq<nat>, shard: nat, key: string)
    requires |owners| == |es|
    ensures key in OwnedBy(es, owners, shard) <==>
      exists i :: 0 <= i < |es| && es[i].key == key && owners[i] == shard
  {
    if |es| > 0 {
      var n := |es| - 1;
      OwnedByExactly(es[..n], owners[..n], shard, key);
      if i :| 0 <= i < n && es[..n][i].key == key && owners[..n][i] == shard {
        assert es[i].key == key && owners[i] == shard;
      }
    }
  }

  /**
   The two implementations agree: when every file is measured, the files the sequencer keeps
   on shard `s` are exactly the ones `assign_shards` maps to `s`.
   */
  lemma {:induction false} SequencerAgreesWithPlugin(
    files: seq<string>, weight: string -> real, durations: map<string, real>,
    digest: PytestShard.Digest, m: nat, s: nat, file: string)
    requires 1 <= s <= m && PytestShard.Distinct(files)
    requires forall f :: f in files ==> f in durations && durations[f] == weight(f)
    ensures
      var es := WeightedOrder(files, weight);
      var assignment := PytestShard.Assignment(files, durations, digest, m);
      file in OwnedBy(es, DealOut(PytestShard.Durations(es), m).owners, s - 1) <==>
      file in assignment && assignment[file] == s
  {
    var es := WeightedOrder(files, weight);
    var assignment := PytestShard.Assignment(files, durations, digest, m);
    AllMeasuredIsWeighted(files, weight, durations);
    PytestShard.AssignmentIsTheDeal(files, durations, digest, m);
    PytestShard.AssignmentIsExact(files, durations, digest, m);
    PytestShard.DealOrderIsExact(files, durations, file);
    OwnedAsAssigned(es, assignment, DealOut(PytestShard.Durations(es), m).owners, s, file);
  }

  /** If the owners are an assignment's, a shard keeps what the assignment maps to it. */
  lemma {:induction false} OwnedAsAssigned(
    es: seq<Entry>, shards: map<string, nat>, owners: seq<nat>, s: nat, file: string)
    requires s > 0 && forall i :: 0 <= i < |es| ==> es[i].key in shards && shards[es[i].key] > 0
    requires PytestShard.OwnersOf(es, shards) == owners
    requires file in shards ==> exists i :: 0 <= i < |es| && es[i].key == file
    ensures file in OwnedBy(es, owners, s - 1) <==> file in shards && shards[file] == s
  {
    OwnedByExactly(es, owners, s - 1, file);
    forall i | 0 <= i < |es| ensures shards[es[i].key] == owners[i] + 1 {
      assert PytestShard.OwnersOf(es, shards)[i] == shards[es[i].key] - 1;
    }
  }

  // ----- whatever the weights -----

  /** How often a key occurs among some entries. */
  function Occurrences(es: seq<Entry>, key: string): nat {
    if |es| == 0 then 0 else (if es[0].key == key then 1 else 0) + Occurrences(es[1..], key)
  }

  /** How often one shard runs a file. */
  function RunsOn(es: seq<Entry>, owners: seq<nat>, shard: nat, key: string): nat
    requires |owners| == |es|
  {
    multiset(OwnedBy(es, owners, shard))[key]
  }

  function SumUpTo(c: nat -> nat, m: nat): nat {
    if m == 0 then 0 else SumUpTo(c, m - 1) + c(m - 1)
  }

  /** How often shards 1 to `m`, together, run a file. */
  function RunsOf(es: seq<Entry>, owners: seq<nat>, m: nat, key: string): nat
    requires |owners| == |es|
  {
    SumUpTo((shard: nat) => RunsOn(es, owners, shard, key), m)
  }

  /** Two counts that differ at one shard only, by `more`. */
  lemma {:induction false} SumUpToAdds(c: nat -> nat, longer: nat -> nat, k: nat, more: nat, m: nat)
    requires forall shard: nat :: longer(shard) == c(shard) + if shard == k then more else 0
    ensures SumUpTo(longer, m) == SumUpTo(c, m) + if k < m then more else 0
    decreases m
  {
    if m > 0 {
      SumUpToAdds(c, longer, k, more, m - 1);
    }
  }

  lemma {:induction false} OwnedByOneMore(es: seq<Entry>, owners: seq<nat>, e: Entry, k: nat, shard: nat, key: string)
    requires |owners| == |es|
    ensures RunsOn(es + [e], owners + [k], shard, key) ==
      RunsOn(es, owners, shard, key) + if shard == k then (if e.key == key then 1 else 0) else 0
  {
    OwnedBySnoc(es, owners, e, k, shard);
  }

  lemma {:induction false} RunsOfSnoc(
    es: seq<Entry>, owners: seq<nat>, e: Entry, k: nat, longer: seq<Entry>, theirs: seq<nat>, m: nat, key: string)
    requires |owners| == |es| && longer == es + [e] && theirs == owners + [k]
    ensures RunsOf(longer, theirs, m, key) == RunsOf(es, owners, m, key) + if k < m && e.key == key then 1 else 0
  {
    forall shard: nat
      ensures RunsOn(longer, theirs, shard, key) ==
        RunsOn(es, owners, shard, key) + if shard == k then (if e.key == key then 1 else 0) else 0
    {
      OwnedByOneMore(es, owners, e, k, shard, key);
    }
    SumUpToAdds((shard: nat) => RunsOn(es, owners, shard, key), (shard: nat) => RunsOn(longer, theirs, shard, key),
                k, if e.key == key then 1 else 0, m);
  }

  lemma {:induction false} OccurrencesCons(e: Entry, es: seq<Entry>, key: string)
    ensures Occurrences([e] + es, key) == (if e.key == key then 1 else 0) + Occurrences(es, key)
  {
    assert ([e] + es)[1..] == es;
  }

  lemma {:induction false} OccurrencesSnoc(es: seq<Entry>, e: Entry, key: string)
    ensures Occurrences(es + [e], key) == Occurrences(es, key) + if e.key == key then 1 else 0
  {
    if |es| == 0 {
      OccurrencesCons(e, [], key);
      assert es + [e] == [e] + [];
    } else {
      OccurrencesSnoc(es[1..], e, key);
      assert (es + [e])[1..] == es[1..] + [e];
    }
  }

  lemma {:induction false} OwnedAreRunOnce(es: seq<Entry>, owners: seq<nat>, m: nat, key: string)
    requires |owners| == |es| && forall i :: 0 <= i < |owners| ==> owners[i] < m
    ensures RunsOf(es, owners, m, key) == Occurrences(es, key)
    decreases |es|
  {
    if |es| == 0 {
      NothingRuns(es, owners, m, key);
    } else {
      var n := |es| - 1;
      OwnedAreRunOnce(es[..n], owners[..n], m, key);
      assert es == es[..n] + [es[n]] && owners == owners[..n] + [owners[n]];
      RunsOfSnoc(es[..n], owners[..n], es[n], owners[n], es, owners, m, key);
      OccurrencesSnoc(es[..n], es[n], key);
    }
  }

  lemma {:induction false} NothingRuns(es: seq<Entry>, owners: seq<nat>, m: nat, key: string)
    requires |owners| == |es| == 0
    ensures RunsOf(es, owners, m, key) == 0
    decreases m
  {
    if m > 0 {
      NothingRuns(es, owners, m - 1, key);
      assert RunsOn(es, owners, m - 1, key) == 0;
    }
  }

  lemma {:induction false} InsertKeepsOccurrences(e: Entry, es: seq<Entry>, key: string)
    ensures Occurrences(Insert(e, es), key) == (if e.key == key then 1 else 0) + Occurrences(es, key)
  {
    if |es| == 0 || DealtBefore(e, es[0]) {
      OccurrencesCons(e, es, key);
    } else {
      InsertKeepsOccurrences(e, es[1..], key);
      OccurrencesCons(es[0], Insert(e, es[1..]), key);
    }
  }

  lemma {:induction false} SortKeepsOccurrences(es: seq<Entry>, key: string)
    ensures Occurrences(SortEntries(es), key) == Occurrences(es, key)
  {
    if |es| > 0 {
      SortKeepsOccurrences(es[1..], key);
      InsertKeepsOccurrences(es[0], SortEntries(es[1..]), key);
    }
  }

  lemma {:induction false} OccurrencesOfWeighted(files: seq<string>, weight: string -> real, file: string)
    ensures Occurrences(Weighted(files, weight), file) == multiset(files)[file]
    decreases |files|
  {
    if |files| > 0 {
      var n := |files| - 1;
      OccurrencesOfWeighted(files[..n], weight, file);
      OccurrencesSnoc(Weighted(files[..n], weight), Entry(weight(files[n]), files[n]), file);
      assert files == files[..n] + [files[n]];
    }
  }

  /** Whatever the weights, the shards together run every file exactly as often as it is given: once. */
  lemma {:induction false} EachFileRunsOnce(files: seq<string>, weight: string -> real, m: nat, file: string)
    requires m > 0
    ensures
      var es := WeightedOrder(files, weight);
      RunsOf(es, DealOut(PytestShard.Durations(es), m).owners, m, file) == multiset(files)[file]
  {
    var es := WeightedOrder(files, weight);
    DealKeepsLoads(PytestShard.Durations(es), m);
    OwnedAreRunOnce(es, DealOut(PytestShard.Durations(es), m).owners, m, file);
    SortKeepsOccurrences(Weighted(files, weight), file);
    OccurrencesOfWeighted(files, weight, file);
  }
}
