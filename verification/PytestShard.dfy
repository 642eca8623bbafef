/**
 pytest's shard plugin: durations summed by file, the deal of measured files, the hash
 fallback for the others, and the ownership decision made at collection.
 */
module PytestShard {
  import opened Outcomes
  import opened Sequences
  import opened RepeatedSums
  import opened ShardLoads
  import opened ShardDeal

  datatype ShardError = ShardCountTooSmall

  /** A string's digest as a number; sha256 in the source, any function here. */
  type Digest = string -> nat

  function HashShard(digest: Digest, key: string, shardCount: nat): (shard: nat)
    requires shardCount > 0
    ensures 1 <= shard <= shardCount
  {
    digest(key) % shardCount + 1
  }

  // ----- file_durations -----

  /** A node id's file: everything before the first "::". */
  function FileOf(nodeId: string): string {
    if |nodeId| < 2 || nodeId[..2] == "::" then (if |nodeId| < 2 then nodeId else "")
    else [nodeId[0]] + FileOf(nodeId[1..])
  }

  /** The time of every test in `tests` whose file is `path`. */
  function TimeIn(tests: seq<Entry>, path: string): real {
    if |tests| == 0 then 0.0
    else
      var n := |tests| - 1;
      TimeIn(tests[..n], path) + if FileOf(tests[n].key) == path then tests[n].duration else 0.0
  }

  /** Durations summed by file, first test to last. */
  function PerFile(tests: seq<Entry>): map<string, real> {
    if |tests| == 0 then map[]
    else
      var n := |tests| - 1;
      var earlier := PerFile(tests[..n]);
      var path := FileOf(tests[n].key);
      earlier[path := (if path in earlier then earlier[path] else 0.0) + tests[n].duration]
  }

  /** Sum the measured test durations by file. */
  method FileDurations(tests: seq<Entry>) returns (perFile: map<string, real>)
    ensures perFile == PerFile(tests)
  {
    perFile := map[];
    for i := 0 to |tests|
      invariant perFile == PerFile(tests[..i])
    {
      assert tests[..i + 1][..i] == tests[..i];
      var path := FileOf(tests[i].key);
      perFile := perFile[path := (if path in perFile then perFile[path] else 0.0) + tests[i].duration];
    }
    assert tests[..|tests|] == tests;
  }

  /** A file's duration is the time of exactly its own tests, and only files with a test have one. */
  lemma {:induction false} PerFileIsExact(tests: seq<Entry>, path: string)
    ensures path in PerFile(tests) <==> exists i :: 0 <= i < |tests| && FileOf(tests[i].key) == path
    ensures TimeIn(tests, path) == if path in PerFile(tests) then PerFile(tests)[path] else 0.0
  {
    if |tests| > 0 {
      var n := |tests| - 1;
      PerFileIsExact(tests[..n], path);
      if FileOf(tests[n].key) != path && path !in PerFile(tests[..n]) {
        assert forall i :: 0 <= i < n ==> tests[..n][i] == tests[i];
      }
    }
  }

  // ----- assign_shards -----

  /** The keys that have a duration, as entries, in collected order. */
  function Measured(keys: seq<string>, durations: map<string, real>): (es: seq<Entry>)
    ensures forall i :: 0 <= i < |es| ==> es[i].key in durations && es[i].duration == durations[es[i].key]
  {
    if |keys| == 0 then []
    else
      var n := |keys| - 1;
      Measured(keys[..n], durations) +
      if keys[n] in durations then [Entry(durations[keys[n]], keys[n])] else []
  }

  /** The measured keys in deal order. */
  function DealOrder(keys: seq<string>, durations: map<string, real>): seq<Entry> {
    SortEntries(Measured(keys, durations))
  }

  function Durations(es: seq<Entry>): (d: seq<real>)
    ensures |d| == |es| && forall i :: 0 <= i < |es| ==> d[i] == es[i].duration
  {
    if |es| == 0 then [] else Durations(es[..|es| - 1]) + [es[|es| - 1].duration]
  }

  /** One-based shards of the dealt entries; a key dealt twice keeps its later shard. */
  function Dealt(es: seq<Entry>, owners: seq<nat>): map<string, nat>
    requires |owners| == |es|
  {
    if |es| == 0 then map[]
    else
      var n := |es| - 1;
      Dealt(es[..n], owners[..n])[es[n].key := owners[n] + 1]
  }

  /** Give every key without a shard its hash shard. */
  function WithHashed(keys: seq<string>, dealt: map<string, nat>, digest: Digest, m: nat): map<string, nat>
    requires m > 0
  {
    if |keys| == 0 then dealt
    else
      var n := |keys| - 1;
      var earlier := WithHashed(keys[..n], dealt, digest, m);
      if keys[n] in earlier then earlier else earlier[keys[n] := HashShard(digest, keys[n], m)]
  }

  function Assignment(keys: seq<string>, durations: map<string, real>, digest: Digest, m: nat): map<string, nat>
    requires m > 0
  {
    var es := DealOrder(keys, durations);
    WithHashed(keys, Dealt(es, DealOut(Durations(es), m).owners), digest, m)
  }

  lemma {:induction false} DealtSnoc(es: seq<Entry>, owners: seq<nat>, e: Entry, k: nat)
    requires |owners| == |es|
    ensures Dealt(es + [e], owners + [k]) == Dealt(es, owners)[e.key := k + 1]
  {
    assert (es + [e])[..|es|] == es && (owners + [k])[..|es|] == owners;
  }

  lemma {:induction false} DealStep(es: seq<Entry>, i: nat, m: nat, before: Deal)
    requires m > 0 && i < |es| && before == DealOut(Durations(es[..i]), m)
    ensures DealOut(Durations(es[..i + 1]), m) == Place(before, es[i].duration)
  {
    DealOutSnoc(Durations(es[..i]), es[i].duration, m);
    assert Durations(es[..i + 1]) == Durations(es[..i]) + [es[i].duration];
  }

  /** Longest first onto the currently lightest shard; unknown keys to their hash shard. */
  method AssignShards(keys: seq<string>, shardCount: int, durations: map<string, real>, digest: Digest)
    returns (r: Result<map<string, nat>, ShardError>)
    ensures r == if shardCount < 1 then Err(ShardCountTooSmall)
                 else Ok(Assignment(keys, durations, digest, shardCount))
  {
    if shardCount < 1 {
      return Err(ShardCountTooSmall);
    }
    var measured := DealOrder(keys, durations);
    var loads := new real[shardCount](_ => 0.0);
    var assignments: map<string, nat> := map[];
    ghost var deal := DealOut([], shardCount);
    for i := 0 to |measured|
      invariant deal == DealOut(Durations(measured[..i]), shardCount)
      invariant loads[..] == deal.loads
      invariant assignments == Dealt(measured[..i], deal.owners)
    {
      DealStep(measured, i, shardCount, deal);
      TakeSnoc(measured, i);
      var shard := PlaceOnLightest(loads, measured[i].duration);
      DealtSnoc(measured[..i], deal.owners, measured[i], shard);
      assignments := assignments[measured[i].key := shard + 1];
      deal := Place(deal, measured[i].duration);
    }
    assert measured[..|measured|] == measured;
    ghost var dealt := assignments;
    for i := 0 to |keys|
      invariant assignments == WithHashed(keys[..i], dealt, digest, shardCount)
    {
      assert keys[..i + 1][..i] == keys[..i];
      if keys[i] !in assignments {
        assignments := assignments[keys[i] := HashShard(digest, keys[i], shardCount)];
      }
    }
    assert keys[..|keys|] == keys;
    return Ok(assignments);
  }

  /** `min` over shard indices by (load, index). */
  method LightestShard(loads: array<real>) returns (k: nat)
    requires loads.Length > 0
    ensures k == Lightest(loads[..])
  {
    k := 0;
    for i := 1 to loads.Length
      invariant k == Lightest(loads[..i])
    {
      assert loads[..i + 1][..i] == loads[..i];
      if loads[i] < loads[k] {
        k := i;
      }
    }
    assert loads[..loads.Length] == loads[..];
  }

  /** Add a job to the lightest shard. */
  method PlaceOnLightest(loads: array<real>, duration: real) returns (shard: nat)
    requires loads.Length > 0
    modifies loads
    ensures shard == Lightest(old(loads[..]))
    ensures loads[..] == Loaded(old(loads[..]), duration)
  {
    shard := LightestShard(loads);
    loads[shard] := loads[shard] + duration;
  }

  // ----- what the assignment guarantees -----

  ghost predicate Distinct(keys: seq<string>) {
    forall i, j :: 0 <= i < j < |keys| ==> keys[i] != keys[j]
  }

  lemma {:induction false} DealtIsExact(es: seq<Entry>, owners: seq<nat>, m: nat)
    requires |owners| == |es| && Onto(owners, m)
    ensures forall key :: key in Dealt(es, owners) <==> exists i :: 0 <= i < |es| && es[i].key == key
    ensures forall key :: key in Dealt(es, owners) ==> 1 <= Dealt(es, owners)[key] <= m
  {
    if |es| > 0 {
      DealtIsExact(es[..|es| - 1], owners[..|es| - 1], m);
    }
  }

  lemma {:induction false} WithHashedIsExact(keys: seq<string>, dealt: map<string, nat>, digest: Digest, m: nat)
    requires m > 0
    ensures
      var a := WithHashed(keys, dealt, digest, m);
      forall key :: key in a <==> key in dealt || key in keys
    ensures
      var a := WithHashed(keys, dealt, digest, m);
      forall key :: key in a ==> a[key] == if key in dealt then dealt[key] else HashShard(digest, key, m)
  {
    if |keys| > 0 {
      WithHashedIsExact(keys[..|keys| - 1], dealt, digest, m);
      assert keys == keys[..|keys| - 1] + [keys[|keys| - 1]];
    }
  }

  lemma {:induction false} MeasuredIsExact(keys: seq<string>, durations: map<string, real>, e: Entry)
    ensures multiset(Measured(keys, durations))[e] ==
      if e.key in durations && durations[e.key] == e.duration then multiset(keys)[e.key] else 0
  {
    if |keys| > 0 {
      MeasuredIsExact(keys[..|keys| - 1], durations, e);
      assert keys == keys[..|keys| - 1] + [keys[|keys| - 1]];
    }
  }

  lemma {:induction false} DealOrderIsExact(keys: seq<string>, durations: map<string, real>, key: string)
    ensures (exists i :: 0 <= i < |DealOrder(keys, durations)| && DealOrder(keys, durations)[i].key == key)
      <==> key in keys && key in durations
    ensures forall i :: 0 <= i < |DealOrder(keys, durations)| ==>
      var e := DealOrder(keys, durations)[i];
      e.key in keys && e.key in durations && e.duration == durations[e.key]
  {
    var es := DealOrder(keys, durations);
    SortEntriesIsSorted(Measured(keys, durations));
    forall i | 0 <= i < |es|
      ensures es[i].key in keys && es[i].key in durations && es[i].duration == durations[es[i].key]
    {
      MeasuredIsExact(keys, durations, es[i]);
      assert es[i] in multiset(es);
      assert es[i].key in multiset(keys);
    }
    if key in keys && key in durations {
      var e := Entry(durations[key], key);
      MeasuredIsExact(keys, durations, e);
      assert key in multiset(keys);
      assert e in multiset(es);
      assert e in es;
    }
  }

  /**
   An exact partition: the shards keys are exactly the collected ones, each on a shard in
   range, and a key nobody measured stays on its hash shard.
   */
  lemma {:induction false} AssignmentIsExact(keys: seq<string>, durations: map<string, real>, digest: Digest, m: nat)
    requires m > 0
    ensures
      var a := Assignment(keys, durations, digest, m);
      && (forall key :: key in a <==> key in keys)
      && (forall key :: key in a ==> 1 <= a[key] <= m)
      && (forall key :: key in keys && key !in durations ==> a[key] == HashShard(digest, key, m))
  {
    var es := DealOrder(keys, durations);
    var owners := DealOut(Durations(es), m).owners;
    DealKeepsLoads(Durations(es), m);
    DealtIsExact(es, owners, m);
    WithHashedIsExact(keys, Dealt(es, owners), digest, m);
    forall key ensures key in Dealt(es, owners) <==> key in keys && key in durations {
      DealOrderIsExact(keys, durations, key);
    }
  }

  lemma {:induction false} DealOrderIgnoresOrder(keys: seq<string>, shuffled: seq<string>, durations: map<string, real>)
    requires multiset(keys) == multiset(shuffled)
    ensures DealOrder(keys, durations) == DealOrder(shuffled, durations)
  {
    var a, b := Measured(keys, durations), Measured(shuffled, durations);
    forall e ensures multiset(a)[e] == multiset(b)[e] {
      MeasuredIsExact(keys, durations, e);
      MeasuredIsExact(shuffled, durations, e);
    }
    assert multiset(a) == multiset(b);
    SortEntriesIsSorted(a);
    SortEntriesIsSorted(b);
    DealOrderIsUnique(SortEntries(a), SortEntries(b));
  }

  /** The assignment depends on which keys were collected, not on their order. */
  lemma {:induction false} AssignmentIgnoresOrder(
    keys: seq<string>, shuffled: seq<string>, durations: map<string, real>, digest: Digest, m: nat)
    requires m > 0 && multiset(keys) == multiset(shuffled)
    ensures Assignment(keys, durations, digest, m) == Assignment(shuffled, durations, digest, m)
  {
    DealOrderIgnoresOrder(keys, shuffled, durations);
    var es := DealOrder(keys, durations);
    var dealt := Dealt(es, DealOut(Durations(es), m).owners);
    WithHashedIsExact(keys, dealt, digest, m);
    WithHashedIsExact(shuffled, dealt, digest, m);
    forall key ensures key in keys <==> key in shuffled {
      assert key in keys <==> key in multiset(keys);
      assert key in shuffled <==> key in multiset(shuffled);
    }
    var a, b := WithHashed(keys, dealt, digest, m), WithHashed(shuffled, dealt, digest, m);
    assert a.Keys == b.Keys;
    assert a == b;
  }

  // ----- the load each shard carries -----

  /** The measured time an assignment puts on a one-based shard. */
  function ShardLoad(keys: seq<string>, durations: map<string, real>, shards: map<string, nat>, shard: nat): real {
    if |keys| == 0 then 0.0
    else
      var n := |keys| - 1;
      var key := keys[n];
      ShardLoad(keys[..n], durations, shards, shard) +
      if key in durations && key in shards && shards[key] == shard then durations[key] else 0.0
  }

  /** The same, over entries in any order. */
  function EntryLoad(es: seq<Entry>, shards: map<string, nat>, shard: nat): real {
    if |es| == 0 then 0.0
    else
      EntryLoad(es[1..], shards, shard) +
      if es[0].key in shards && shards[es[0].key] == shard then es[0].duration else 0.0
  }

  lemma {:induction false} InsertKeepsLoad(e: Entry, es: seq<Entry>, shards: map<string, nat>, shard: nat)
    ensures EntryLoad(Insert(e, es), shards, shard) == EntryLoad([e] + es, shards, shard)
  {
    assert ([e] + es)[1..] == es;
    if |es| > 0 && !DealtBefore(e, es[0]) {
      InsertKeepsLoad(e, es[1..], shards, shard);
      assert ([e] + es[1..])[1..] == es[1..];
      assert ([es[0]] + Insert(e, es[1..]))[1..] == Insert(e, es[1..]);
    }
  }

  lemma {:induction false} SortKeepsLoad(es: seq<Entry>, shards: map<string, nat>, shard: nat)
    ensures EntryLoad(SortEntries(es), shards, shard) == EntryLoad(es, shards, shard)
  {
    if |es| > 0 {
      SortKeepsLoad(es[1..], shards, shard);
      InsertKeepsLoad(es[0], SortEntries(es[1..]), shards, shard);
      assert ([es[0]] + SortEntries(es[1..]))[1..] == SortEntries(es[1..]);
    }
  }

  lemma {:induction false} EntryLoadSnoc(es: seq<Entry>, e: Entry, shards: map<string, nat>, shard: nat)
    ensures EntryLoad(es + [e], shards, shard) == EntryLoad(es, shards, shard) +
      if e.key in shards && shards[e.key] == shard then e.duration else 0.0
  {
    if |es| > 0 {
      EntryLoadSnoc(es[1..], e, shards, shard);
      assert (es + [e])[1..] == es[1..] + [e];
    }
  }

  lemma {:induction false} ShardLoadIsEntryLoad(
    keys: seq<string>, durations: map<string, real>, shards: map<string, nat>, shard: nat)
    ensures ShardLoad(keys, durations, shards, shard) == EntryLoad(Measured(keys, durations), shards, shard)
  {
    if |keys| > 0 {
      var n := |keys| - 1;
      ShardLoadIsEntryLoad(keys[..n], durations, shards, shard);
      if keys[n] in durations {
        EntryLoadSnoc(Measured(keys[..n], durations), Entry(durations[keys[n]], keys[n]), shards, shard);
      } else {
        assert Measured(keys, durations) == Measured(keys[..n], durations);
      }
    }
  }

  /** The zero-based owners an assignment gives the entries, all of which it assigns. */
  function OwnersOf(es: seq<Entry>, shards: map<string, nat>): (owners: seq<nat>)
    requires forall i :: 0 <= i < |es| ==> es[i].key in shards && shards[es[i].key] > 0
    ensures |owners| == |es| && forall i :: 0 <= i < |es| ==> owners[i] == shards[es[i].key] - 1
  {
    if |es| == 0 then [] else OwnersOf(es[..|es| - 1], shards) + [shards[es[|es| - 1].key] - 1]
  }

  ghost predicate Assigned(es: seq<Entry>, shards: map<string, nat>) {
    forall i :: 0 <= i < |es| ==> es[i].key in shards && shards[es[i].key] > 0
  }

  lemma {:induction false} DurationsSnoc(front: seq<Entry>, e: Entry, longer: seq<Entry>)
    requires longer == front + [e]
    ensures Durations(longer) == Durations(front) + [e.duration]
  {
    assert longer[..|longer| - 1] == front;
  }

  lemma {:induction false} OwnersOfSnoc(front: seq<Entry>, e: Entry, longer: seq<Entry>, shards: map<string, nat>)
    requires longer == front + [e] && Assigned(front, shards) && Assigned(longer, shards)
    requires e.key in shards && shards[e.key] > 0
    ensures OwnersOf(longer, shards) == OwnersOf(front, shards) + [shards[e.key] - 1]
  {
    assert longer[..|longer| - 1] == front;
  }

  lemma {:induction false} LoadOneMore(
    jobs: seq<real>, owners: seq<nat>, job: real, owner: nat, longer: seq<real>, theirs: seq<nat>, shard: nat)
    requires |owners| == |jobs| && longer == jobs + [job] && theirs == owners + [owner]
    ensures Load(longer, theirs, shard) == Load(jobs, owners, shard) + if owner == shard then job else 0.0
  {
    LoadSnoc(jobs, owners, job, owner, shard);
  }

  /** The load of the entries' durations, under the assignment's owners. */
  function AssignedLoad(es: seq<Entry>, shards: map<string, nat>, shard: nat): real
    requires forall i :: 0 <= i < |es| ==> es[i].key in shards && shards[es[i].key] > 0
  {
    Load(Durations(es), OwnersOf(es, shards), shard)
  }

  lemma {:induction false} AssignedLoadSnoc(
    front: seq<Entry>, e: Entry, longer: seq<Entry>, shards: map<string, nat>, shard: nat)
    requires longer == front + [e] && Assigned(longer, shards) && Assigned(front, shards)
    requires e.key in shards && shards[e.key] > 0
    ensures AssignedLoad(longer, shards, shard) ==
      AssignedLoad(front, shards, shard) + if shards[e.key] == shard + 1 then e.duration else 0.0
  {
    DurationsSnoc(front, e, longer);
    OwnersOfSnoc(front, e, longer, shards);
    LoadOneMore(Durations(front), OwnersOf(front, shards), e.duration, shards[e.key] - 1,
                Durations(longer), OwnersOf(longer, shards), shard);
  }

  lemma {:induction false} EntryLoadIsLoad(es: seq<Entry>, shards: map<string, nat>, shard: nat)
    requires Assigned(es, shards)
    ensures EntryLoad(es, shards, shard + 1) == AssignedLoad(es, shards, shard)
    decreases |es|
  {
    if |es| > 0 {
      var front, last := es[..|es| - 1], es[|es| - 1];
      assert es == front + [last];
      EntryLoadIsLoad(front, shards, shard);
      AssignedLoadSnoc(front, last, es, shards, shard);
      EntryLoadSnoc(front, last, shards, shard + 1);
    }
  }

  /** Whatever the assignment, a shard's measured time is its load over the deal order. */
  lemma {:induction false} ShardLoadIsLoad(keys: seq<string>, durations: map<string, real>, shards: map<string, nat>, shard: nat)
    requires forall key :: key in keys ==> key in shards && shards[key] > 0
    ensures
      var es := DealOrder(keys, durations);
      && (forall i :: 0 <= i < |es| ==> es[i].key in shards && shards[es[i].key] > 0)
      && ShardLoad(keys, durations, shards, shard + 1) == Load(Durations(es), OwnersOf(es, shards), shard)
  {
    DealOrderIsExact(keys, durations, "");
    ShardLoadIsEntryLoad(keys, durations, shards, shard + 1);
    SortKeepsLoad(Measured(keys, durations), shards, shard + 1);
    EntryLoadIsLoad(DealOrder(keys, durations), shards, shard);
  }

  lemma {:induction false} DealOrderIsDistinct(keys: seq<string>, durations: map<string, real>)
    requires Distinct(keys)
    ensures
      var es := DealOrder(keys, durations);
      forall i, j :: 0 <= i < j < |es| ==> es[i].key != es[j].key
  {
    var es := DealOrder(keys, durations);
    SortEntriesIsSorted(Measured(keys, durations));
    DealOrderIsExact(keys, durations, "");
    forall i, j | 0 <= i < j < |es| ensures es[i].key != es[j].key {
      if es[i].key == es[j].key {
        assert es[i] == es[j];
        TwiceInMultiset(es, i, j);
        MeasuredIsExact(keys, durations, es[i]);
        DistinctCountsOnce(keys, es[i].key);
        assert false;
      }
    }
  }

  lemma {:induction false} TwiceInMultiset<T>(s: seq<T>, i: nat, j: nat)
    requires i < j < |s| && s[i] == s[j]
    ensures multiset(s)[s[i]] >= 2
  {
    assert s == s[..j] + [s[j]] + s[j + 1..];
    assert s[i] in s[..j];
    assert s[i] in multiset(s[..j]);
  }

  lemma {:induction false} DistinctCountsOnce(keys: seq<string>, key: string)
    requires Distinct(keys)
    ensures multiset(keys)[key] <= 1
  {
    if |keys| > 0 {
      var n := |keys| - 1;
      DistinctCountsOnce(keys[..n], key);
      assert keys == keys[..n] + [keys[n]];
      if keys[n] == key {
        assert key !in keys[..n];
        assert key !in multiset(keys[..n]);
      }
    }
  }

  lemma {:induction false} DealtRecordsOwners(es: seq<Entry>, owners: seq<nat>)
    requires |owners| == |es|
    requires forall i, j :: 0 <= i < j < |es| ==> es[i].key != es[j].key
    ensures forall i :: 0 <= i < |es| ==> es[i].key in Dealt(es, owners) && Dealt(es, owners)[es[i].key] == owners[i] + 1
  {
    if |es| > 0 {
      DealtRecordsOwners(es[..|es| - 1], owners[..|es| - 1]);
    }
  }

  /** For distinct keys the assignment map is the deal: it gives each entry the owner dealt to it. */
  lemma {:induction false} AssignmentIsTheDeal(keys: seq<string>, durations: map<string, real>, digest: Digest, m: nat)
    requires m > 0 && Distinct(keys)
    ensures
      var es := DealOrder(keys, durations);
      var a := Assignment(keys, durations, digest, m);
      && (forall i :: 0 <= i < |es| ==> es[i].key in a && a[es[i].key] > 0)
      && OwnersOf(es, a) == DealOut(Durations(es), m).owners
  {
    var es := DealOrder(keys, durations);
    DealOrderIsDistinct(keys, durations);
    HashedKeepsOwners(keys, es, DealOut(Durations(es), m).owners, digest, m);
  }

  /** Hashing the rest changes no dealt owner. */
  lemma {:induction false} HashedKeepsOwners(
    keys: seq<string>, es: seq<Entry>, owners: seq<nat>, digest: Digest, m: nat)
    requires m > 0 && |owners| == |es|
    requires forall i, j :: 0 <= i < j < |es| ==> es[i].key != es[j].key
    ensures
      var a := WithHashed(keys, Dealt(es, owners), digest, m);
      (forall i :: 0 <= i < |es| ==> es[i].key in a && a[es[i].key] > 0) && OwnersOf(es, a) == owners
  {
    DealtRecordsOwners(es, owners);
    WithHashedIsExact(keys, Dealt(es, owners), digest, m);
  }

  lemma {:induction false} AssignedLoadIsDealtLoad(
    keys: seq<string>, durations: map<string, real>, digest: Digest, m: nat, shard: nat)
    requires m > 0 && Distinct(keys) && shard < m
    ensures ShardLoad(keys, durations, Assignment(keys, durations, digest, m), shard + 1) ==
      DealOut(Durations(DealOrder(keys, durations)), m).loads[shard]
  {
    var es := DealOrder(keys, durations);
    AssignmentIsExact(keys, durations, digest, m);
    AssignmentIsTheDeal(keys, durations, digest, m);
    ShardLoadIsLoad(keys, durations, Assignment(keys, durations, digest, m), shard);
    DealKeepsLoads(Durations(es), m);
  }

  ghost predicate NonNegativeDurations(durations: map<string, real>) {
    forall key :: key in durations ==> 0.0 <= durations[key]
  }

  lemma {:induction false} DurationsFollowDealOrder(keys: seq<string>, durations: map<string, real>)
    requires NonNegativeDurations(durations)
    ensures
      var jobs := Durations(DealOrder(keys, durations));
      && NonNegative(jobs)
      && (forall i, j :: 0 <= i < j < |jobs| ==> jobs[i] >= jobs[j])
  {
    DealOrderIsExact(keys, durations, "");
    SortEntriesIsSorted(Measured(keys, durations));
  }

  ghost predicate AssignsAll(keys: seq<string>, shards: map<string, nat>, m: nat) {
    forall key :: key in keys ==> key in shards && 1 <= shards[key] <= m
  }

  ghost predicate LoadsAtMost(keys: seq<string>, durations: map<string, real>, shards: map<string, nat>, m: nat, limit: real) {
    forall s: nat :: 1 <= s <= m ==> ShardLoad(keys, durations, shards, s) <= limit
  }

  lemma {:induction false} OtherAssignmentFits(
    keys: seq<string>, durations: map<string, real>, m: nat, other: map<string, nat>, heaviest: real)
    returns (theirs: seq<nat>)
    requires AssignsAll(keys, other, m) && LoadsAtMost(keys, durations, other, m, heaviest)
    ensures
      var jobs := Durations(DealOrder(keys, durations));
      |theirs| == |jobs| && Onto(theirs, m) && LoadsWithin(jobs, theirs, m, heaviest)
  {
    var es := DealOrder(keys, durations);
    DealOrderIsExact(keys, durations, "");
    theirs := OwnersOf(es, other);
    forall s: nat | s < m ensures Load(Durations(es), theirs, s) <= heaviest {
      ShardLoadIsLoad(keys, durations, other, s);
      assert ShardLoad(keys, durations, other, s + 1) <= heaviest;
    }
  }

  /**
   Graham's bound for the assignment: its heaviest shard carries at most 4/3 - 1/(3m) times
   the heaviest load of any other assignment of the same keys to the same shards.
   */
  lemma {:induction false} AssignmentWithinFourThirds(
    keys: seq<string>, durations: map<string, real>, digest: Digest, m: nat,
    other: map<string, nat>, heaviest: real, shard: nat)
    requires m > 0 && Distinct(keys) && NonNegativeDurations(durations) && 1 <= shard <= m
    requires AssignsAll(keys, other, m) && LoadsAtMost(keys, durations, other, m, heaviest)
    ensures ShardLoad(keys, durations, Assignment(keys, durations, digest, m), shard) <=
      (4.0 / 3.0 - 1.0 / (3.0 * (m as real))) * heaviest
  {
    var load := ShardLoad(keys, durations, Assignment(keys, durations, digest, m), shard);
    assert 3.0 * Times(m, load) + heaviest <= 4.0 * Times(m, heaviest) by {
      var theirs := OtherAssignmentFits(keys, durations, m, other, heaviest);
      DurationsFollowDealOrder(keys, durations);
      DealWithinFourThirds(Durations(DealOrder(keys, durations)), m, theirs, heaviest, shard - 1);
      AssignedLoadIsDealtLoad(keys, durations, digest, m, shard - 1);
    }
    FourThirdsAsFactor(m, load, heaviest);
  }

  lemma {:induction false} FourThirdsAsFactor(m: nat, load: real, limit: real)
    requires m > 0 && 3.0 * Times(m, load) + limit <= 4.0 * Times(m, limit)
    ensures load <= (4.0 / 3.0 - 1.0 / (3.0 * (m as real))) * limit
  {
    TimesIsProduct(m, load);
    TimesIsProduct(m, limit);
    var r := m as real;
    var factor := 4.0 / 3.0 - 1.0 / (3.0 * r);
    assert factor * (3.0 * r) == 4.0 * r - 1.0;
    DivideOut(3.0 * r, load, factor, limit);
  }

  lemma {:induction false} DivideOut(r: real, load: real, factor: real, limit: real)
    requires 0.0 < r && r * load <= (factor * r) * limit
    ensures load <= factor * limit
  {
    assert (factor * r) * limit == r * (factor * limit);
    assert r * (load - factor * limit) <= 0.0;
  }

  /** Any two shards differ by at most the longest file. */
  lemma {:induction false} AssignmentIsBalanced(
    keys: seq<string>, durations: map<string, real>, digest: Digest, m: nat, longest: real, a: nat, b: nat)
    requires m > 0 && Distinct(keys) && NonNegativeDurations(durations) && 1 <= a <= m && 1 <= b <= m
    requires 0.0 <= longest && forall key :: key in keys && key in durations ==> durations[key] <= longest
    ensures
      var shards := Assignment(keys, durations, digest, m);
      ShardLoad(keys, durations, shards, a) - ShardLoad(keys, durations, shards, b) <= longest
  {
    DealOrderIsExact(keys, durations, "");
    DurationsFollowDealOrder(keys, durations);
    AssignedLoadIsDealtLoad(keys, durations, digest, m, a - 1);
    AssignedLoadIsDealtLoad(keys, durations, digest, m, b - 1);
    GapWithinOneJob(Durations(DealOrder(keys, durations)), m, longest);
  }

  /** The measured time of all the collected keys. */
  function MeasuredTime(keys: seq<string>, durations: map<string, real>): real {
    if |keys| == 0 then 0.0
    else
      var n := |keys| - 1;
      MeasuredTime(keys[..n], durations) + if keys[n] in durations then durations[keys[n]] else 0.0
  }

  /** Counting every entry as one shard's work turns total time into a load. */
  lemma {:induction false} MeasuredTimeIsSum(keys: seq<string>, durations: map<string, real>, shards: map<string, nat>)
    requires forall key :: key in keys ==> key in shards && shards[key] == 1
    ensures MeasuredTime(keys, durations) == ShardLoad(keys, durations, shards, 1)
  {
    if |keys| > 0 {
      MeasuredTimeIsSum(keys[..|keys| - 1], durations, shards);
    }
  }

  lemma {:induction false} LoadOfOneShardIsSum(jobs: seq<real>, owners: seq<nat>)
    requires |owners| == |jobs| && Onto(owners, 1)
    ensures Load(jobs, owners, 0) == Sum(jobs)
  {
    if |jobs| > 0 {
      LoadOfOneShardIsSum(jobs[..|jobs| - 1], owners[..|jobs| - 1]);
    }
  }

  lemma {:induction false} MeasuredTimeIsDealt(keys: seq<string>, durations: map<string, real>)
    ensures MeasuredTime(keys, durations) == Sum(Durations(DealOrder(keys, durations)))
  {
    var one: map<string, nat> := map key | key in keys :: 1;
    var es := DealOrder(keys, durations);
    MeasuredTimeIsSum(keys, durations, one);
    ShardLoadIsLoad(keys, durations, one, 0);
    DealOrderIsExact(keys, durations, "");
    LoadOfOneShardIsSum(Durations(es), OwnersOf(es, one));
  }

  lemma {:induction false} AssignmentNearAverageTimes(
    keys: seq<string>, durations: map<string, real>, digest: Digest, m: nat, longest: real, shard: nat)
    requires m > 0 && Distinct(keys) && NonNegativeDurations(durations) && 1 <= shard <= m
    requires 0.0 <= longest && forall key :: key in keys && key in durations ==> durations[key] <= longest
    ensures Times(m, ShardLoad(keys, durations, Assignment(keys, durations, digest, m), shard)) <=
      MeasuredTime(keys, durations) + Times(m - 1, longest)
  {
    DealOrderIsExact(keys, durations, "");
    DurationsFollowDealOrder(keys, durations);
    AssignedLoadIsDealtLoad(keys, durations, digest, m, shard - 1);
    HeaviestWithinAveragePlusOneJob(Durations(DealOrder(keys, durations)), m, longest, shard - 1);
    MeasuredTimeIsDealt(keys, durations);
  }

  /** No shard exceeds total/m + (1 - 1/m) * longest; multiplied through by m. */
  lemma {:induction false} AssignmentIsNearAverage(
    keys: seq<string>, durations: map<string, real>, digest: Digest, m: nat, longest: real, shard: nat)
    requires m > 0 && Distinct(keys) && NonNegativeDurations(durations) && 1 <= shard <= m
    requires 0.0 <= longest && forall key :: key in keys && key in durations ==> durations[key] <= longest
    ensures
      var load := ShardLoad(keys, durations, Assignment(keys, durations, digest, m), shard);
      (m as real) * load <= MeasuredTime(keys, durations) + (m as real - 1.0) * longest
  {
    AssignmentNearAverageTimes(keys, durations, digest, m, longest, shard);
    var load := ShardLoad(keys, durations, Assignment(keys, durations, digest, m), shard);
    var total := MeasuredTime(keys, durations);
    NearAverageAsProduct(m, load, total, longest);
  }

  lemma {:induction false} NearAverageAsProduct(m: nat, load: real, total: real, longest: real)
    requires m > 0 && Times(m, load) <= total + Times(m - 1, longest)
    ensures (m as real) * load <= total + (m as real - 1.0) * longest
  {
    TimesIsProduct(m, load);
    TimesIsProduct(m, longest);
  }

  // ----- ownership at collection -----

  /** The owner of a path: its dealt shard, or its hash shard when the deal gives none (or 0). */
  function Owner(measured: map<string, nat>, path: string, digest: Digest, count: nat): nat
    requires count > 0
  {
    if path in measured && measured[path] != 0 then measured[path] else HashShard(digest, path, count)
  }

  /** Shard `index` ignores a test file exactly when another shard owns it. */
  predicate IgnoresFile(measured: map<string, nat>, path: string, digest: Digest, index: nat, count: nat)
    requires count > 0
  {
    Owner(measured, path, digest, count) != index
  }

  // ----- what an unmeasured key gets -----

  /** The digest leaves the remainder `shard - 1` when divided by `m`. */
  ghost predicate Leaves(digest: nat, m: nat, shard: nat) {
    exists q: nat :: IsQuotient(digest, m, q, shard)
  }

  ghost predicate IsQuotient(digest: nat, m: nat, q: nat, shard: nat) {
    1 <= shard <= m && digest == q * m + (shard - 1)
  }

  lemma {:induction false} MultipleBounds(d: int, m: int)
    requires m > 0
    ensures (d > 0 ==> d * m >= m) && (d < 0 ==> d * m <= -m)
  {
  }

  lemma {:induction false} RemainderIsUnique(n: nat, m: nat, q: nat, r: nat)
    requires r < m && n == q * m + r
    ensures n / m == q && n % m == r
  {
    var d := n / m - q;
    assert n == n / m * m + n % m;
    assert d * m == r - n % m;
    MultipleBounds(d, m);
  }

  lemma {:induction false} HashShardExactly(digest: Digest, key: string, m: nat, shard: nat)
    requires m > 0
    ensures HashShard(digest, key, m) == shard <==> Leaves(digest(key), m, shard)
  {
    var n := digest(key);
    if HashShard(digest, key, m) == shard {
      assert IsQuotient(n, m, n / m, shard);
    }
    if Leaves(n, m, shard) {
      var q: nat :| IsQuotient(n, m, q, shard);
      RemainderIsUnique(n, m, q, shard - 1);
    }
  }

  /**
   A key that nobody measured is assigned, and collected by, the shard that its digest's
   remainder names, counted from one.
   */
  lemma {:induction false} UnmeasuredShardExactly(
    keys: seq<string>, durations: map<string, real>, digest: Digest, m: nat, key: string, shard: nat)
    requires m > 0 && key !in durations
    ensures
      var a := Assignment(keys, durations, digest, m);
      && (key in keys ==> key in a && (a[key] == shard <==> Leaves(digest(key), m, shard)))
      && (Owner(a, key, digest, m) == shard <==> Leaves(digest(key), m, shard))
  {
    AssignmentIsExact(keys, durations, digest, m);
    HashShardExactly(digest, key, m, shard);
  }

  /** A collected key, measured or not, is collected by the shard it is assigned to. */
  lemma {:induction false} CollectedWhereAssigned(
    keys: seq<string>, durations: map<string, real>, digest: Digest, m: nat, key: string, index: nat)
    requires m > 0 && key in keys
    ensures
      var a := Assignment(keys, durations, digest, m);
      key in a && (IgnoresFile(a, key, digest, index, m) <==> index != a[key])
  {
    AssignmentIsExact(keys, durations, digest, m);
  }

  /** Every shard of 1..m is some digest's. */
  lemma {:induction false} EveryShardIsReached(durations: map<string, real>, m: nat, key: string, shard: nat)
    returns (digest: Digest)
    requires 1 <= shard <= m && key !in durations
    ensures Assignment([key], durations, digest, m) == map[key := shard]
  {
    digest := (_: string) => shard - 1;
    AssignmentIsExact([key], durations, digest, m);
    assert IsQuotient(digest(key), m, 0, shard);
    HashShardExactly(digest, key, m, shard);
  }

  /** Two unmeasured keys share a shard exactly when their digests differ by a multiple of the shard count. */
  lemma {:induction false} ShareAShardExactly(
    keys: seq<string>, durations: map<string, real>, digest: Digest, m: nat, key: string, other: string)
    requires m > 0 && key in keys && other in keys && key !in durations && other !in durations
    ensures
      var a := Assignment(keys, durations, digest, m);
      && key in a && other in a
      && (a[key] == a[other] <==> exists k: int :: MultipleApart(digest(key), digest(other), m, k))
  {
    AssignmentIsExact(keys, durations, digest, m);
    var a := Assignment(keys, durations, digest, m);
    HashShardExactly(digest, key, m, a[key]);
    HashShardExactly(digest, other, m, a[other]);
    var q: nat :| IsQuotient(digest(key), m, q, a[key]);
    var p: nat :| IsQuotient(digest(other), m, p, a[other]);
    if a[key] == a[other] {
      SameRemainder(digest(key), digest(other), m, q, p, a[key] - 1);
    }
    if k: int :| MultipleApart(digest(key), digest(other), m, k) {
      assert (p + k) * m == p * m + k * m;
      assert digest(key) == (p + k) * m + (a[other] - 1);
      QuotientIsNatural(digest(key), m, p + k, a[other] - 1);
      RemainderIsUnique(digest(key), m, p + k, a[other] - 1);
      RemainderIsUnique(digest(key), m, q, a[key] - 1);
    }
  }

  ghost predicate MultipleApart(a: nat, b: nat, m: nat, k: int) {
    a - b == k * m
  }

  lemma {:induction false} SameRemainder(a: nat, b: nat, m: nat, q: nat, p: nat, r: nat)
    requires a == q * m + r && b == p * m + r
    ensures MultipleApart(a, b, m, q - p)
  {
    assert (q - p) * m == q * m - p * m;
  }

  lemma {:induction false} QuotientIsNatural(n: nat, m: nat, q: int, r: nat)
    requires r < m && n == q * m + r
    ensures q >= 0
  {
    MultipleBounds(q, m);
  }

  // ----- a file and its tests -----

  /** At `i` stands the separator between a test's file and the rest of its id. */
  predicate SeparatorAt(nodeId: string, i: nat) {
    i + 2 <= |nodeId| && nodeId[i] == ':' && nodeId[i + 1] == ':'
  }

  /** The file of a node id is what stands before its first separator, or all of it. */
  lemma {:induction false} FileOfIsBeforeSeparator(nodeId: string)
    ensures FileOf(nodeId) <= nodeId
    ensures |FileOf(nodeId)| == |nodeId| || SeparatorAt(nodeId, |FileOf(nodeId)|)
    ensures forall i: nat :: i < |FileOf(nodeId)| ==> !SeparatorAt(nodeId, i)
  {
    if |nodeId| >= 2 && nodeId[..2] != "::" {
      var rest := nodeId[1..];
      FileOfIsBeforeSeparator(rest);
      assert nodeId == [nodeId[0]] + rest && nodeId[..2] == [nodeId[0], nodeId[1]];
      forall i: nat | i < |FileOf(nodeId)| ensures !SeparatorAt(nodeId, i) {
        if i > 0 {
          assert !SeparatorAt(rest, i - 1);
        }
      }
    }
  }

  /**
   Every shard computes the deal for itself, from the same durations but perhaps in another
   order; still every path, measured or not, is collected by exactly one of the shards 1..m.
   */
  lemma {:induction false} ExactlyOneShardCollects(
    listing: nat -> seq<string>, durations: map<string, real>, digest: Digest, m: nat, path: string)
    returns (owner: nat)
    requires m > 0
    requires forall i, j :: multiset(listing(i)) == multiset(listing(j))
    ensures 1 <= owner <= m
    ensures forall index: nat :: 1 <= index <= m ==>
        (IgnoresFile(Assignment(listing(index), durations, digest, m), path, digest, index, m) <==> index != owner)
  {
    var shards := Assignment(listing(0), durations, digest, m);
    forall index: nat ensures Assignment(listing(index), durations, digest, m) == shards {
      AssignmentIgnoresOrder(listing(index), listing(0), durations, digest, m);
    }
    AssignmentIsExact(listing(0), durations, digest, m);
    owner := Owner(shards, path, digest, m);
  }
}
