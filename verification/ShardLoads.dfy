/**
 Loads of jobs dealt to shards, whoever deals them.  An assignment is a sequence of
 zero-based shard numbers, one for each job; nothing here depends on how it was chosen.
 */
module ShardLoads {
  import opened RepeatedSums

  function Sum(jobs: seq<real>): real
  {
    if |jobs| == 0 then 0.0 else Sum(jobs[..|jobs| - 1]) + jobs[|jobs| - 1]
  }

  /** The total of the jobs that `owners` puts on shard `k`. */
  function Load(jobs: seq<real>, owners: seq<nat>, k: nat): real
    requires |owners| == |jobs|
  {
    if |jobs| == 0 then 0.0
    else
      var n := |jobs| - 1;
      Load(jobs[..n], owners[..n], k) + if owners[n] == k then jobs[n] else 0.0
  }

  lemma {:induction false} LoadSnoc(jobs: seq<real>, owners: seq<nat>, job: real, owner: nat, k: nat)
    requires |owners| == |jobs|
    ensures Load(jobs + [job], owners + [owner], k) == Load(jobs, owners, k) + if owner == k then job else 0.0
  {
    assert (jobs + [job])[..|jobs|] == jobs && (owners + [owner])[..|jobs|] == owners;
  }

  /** The loads of shards 0 up to (not including) `m`, added up. */
  function SumOfLoads(jobs: seq<real>, owners: seq<nat>, m: nat): real
    requires |owners| == |jobs|
  {
    if m == 0 then 0.0 else SumOfLoads(jobs, owners, m - 1) + Load(jobs, owners, m - 1)
  }

  ghost predicate Onto(owners: seq<nat>, m: nat) {
    forall i :: 0 <= i < |owners| ==> owners[i] < m
  }

  ghost predicate NonNegative(jobs: seq<real>) {
    forall i :: 0 <= i < |jobs| ==> 0.0 <= jobs[i]
  }

  ghost predicate LoadsWithin(jobs: seq<real>, owners: seq<nat>, m: nat, limit: real)
    requires |owners| == |jobs|
  {
    forall k: nat :: k < m ==> Load(jobs, owners, k) <= limit
  }

  lemma {:induction false} SumOfLoadsSnoc(jobs: seq<real>, owners: seq<nat>, m: nat)
    requires |owners| == |jobs| > 0
    ensures
      var n := |jobs| - 1;
      SumOfLoads(jobs, owners, m) ==
      SumOfLoads(jobs[..n], owners[..n], m) + if owners[n] < m then jobs[n] else 0.0
  {
    if m > 0 {
      SumOfLoadsSnoc(jobs, owners, m - 1);
    }
  }

  /** Dealing moves work around but neither adds nor loses any. */
  lemma {:induction false} LoadsPartitionTheWork(jobs: seq<real>, owners: seq<nat>, m: nat)
    requires |owners| == |jobs| && Onto(owners, m)
    ensures SumOfLoads(jobs, owners, m) == Sum(jobs)
  {
    if |jobs| == 0 {
      EmptyLoads(m);
      assert jobs == [] && owners == [];
    } else {
      SumOfLoadsSnoc(jobs, owners, m);
      LoadsPartitionTheWork(jobs[..|jobs| - 1], owners[..|jobs| - 1], m);
    }
  }

  lemma {:induction false} EmptyLoads(m: nat)
    ensures SumOfLoads([], [], m) == 0.0
  {
    if m > 0 {
      EmptyLoads(m - 1);
    }
  }

  lemma {:induction false} AllLoadsAtLeast(jobs: seq<real>, owners: seq<nat>, m: nat, floor: real)
    requires |owners| == |jobs|
    requires forall k: nat :: k < m ==> floor <= Load(jobs, owners, k)
    ensures Times(m, floor) <= SumOfLoads(jobs, owners, m)
  {
    if m > 0 {
      AllLoadsAtLeast(jobs, owners, m - 1, floor);
    }
  }

  lemma {:induction false} AllLoadsAtMost(jobs: seq<real>, owners: seq<nat>, m: nat, limit: real)
    requires |owners| == |jobs| && LoadsWithin(jobs, owners, m, limit)
    ensures SumOfLoads(jobs, owners, m) <= Times(m, limit)
  {
    if m > 0 {
      assert LoadsWithin(jobs, owners, m - 1, limit);
      AllLoadsAtMost(jobs, owners, m - 1, limit);
    }
  }

  lemma {:induction false} LoadsAreNonNegative(jobs: seq<real>, owners: seq<nat>, k: nat)
    requires |owners| == |jobs| && NonNegative(jobs)
    ensures 0.0 <= Load(jobs, owners, k)
  {
    if |jobs| > 0 {
      LoadsAreNonNegative(jobs[..|jobs| - 1], owners[..|jobs| - 1], k);
    }
  }

  // ----- Graham's pigeonhole -----

  /**
   With a limit and a smallest job fixed, a job counts twice when even the smallest job
   does not fit beside it, and once otherwise.
   */
  function Weights(jobs: seq<real>, limit: real, smallest: real): (w: seq<real>)
    ensures |w| == |jobs|
  {
    seq(|jobs|, i requires 0 <= i < |jobs| => if jobs[i] > limit - smallest then 2.0 else 1.0)
  }

  /**
   When every job is more than a third of the limit, the weight on one shard says how full
   it is: three or more means over the limit, and one means room for the smallest job.
   */
  lemma {:induction false} WeightMeasuresFullness(
    jobs: seq<real>, owners: seq<nat>, k: nat, limit: real, smallest: real)
    requires |owners| == |jobs|
    requires 0.0 < smallest <= limit < 3.0 * smallest
    requires forall i :: 0 <= i < |jobs| ==> smallest <= jobs[i]
    ensures
      var weight := Load(Weights(jobs, limit, smallest), owners, k);
      var load := Load(jobs, owners, k);
      || (weight == 0.0 && load == 0.0)
      || (weight == 1.0 && smallest <= load <= limit - smallest)
      || (weight == 2.0 && (load > limit - smallest || 2.0 * smallest <= load))
      || (weight >= 3.0 && load > limit)
  {
    if |jobs| > 0 {
      var n := |jobs| - 1;
      WeightMeasuresFullness(jobs[..n], owners[..n], k, limit, smallest);
      assert Weights(jobs, limit, smallest)[..n] == Weights(jobs[..n], limit, smallest);
    }
  }

  /**
   If all the jobs fit somehow on `m` shards, and the last is the smallest and bigger than a
   third of the limit, then however the others were placed some shard still has room for it.
   */
  lemma {:induction false} SomeShardHasRoom(
    jobs: seq<real>, fitting: seq<nat>, placed: seq<nat>, m: nat, limit: real) returns (k: nat)
    requires |fitting| == |jobs| > 0 && |placed| == |jobs| - 1
    requires Onto(fitting, m) && Onto(placed, m)
    requires LoadsWithin(jobs, fitting, m, limit)
    requires NonNegative(jobs) && limit < 3.0 * jobs[|jobs| - 1]
    requires forall i :: 0 <= i < |jobs| ==> jobs[|jobs| - 1] <= jobs[i]
    ensures k < m && Load(jobs[..|jobs| - 1], placed, k) + jobs[|jobs| - 1] <= limit
  {
    var n := |jobs| - 1;
    var smallest := jobs[n];
    LoadsAreNonNegative(jobs[..n], fitting[..n], fitting[n]);
    assert smallest <= Load(jobs, fitting, fitting[n]) <= limit;
    var w := Weights(jobs, limit, smallest);
    assert w[..n] == Weights(jobs[..n], limit, smallest);
    if exists k: nat :: k < m && Load(jobs[..n], placed, k) + smallest <= limit {
      k :| k < m && Load(jobs[..n], placed, k) + smallest <= limit;
    } else {
      forall k: nat | k < m ensures Load(w, fitting, k) <= 2.0 {
        WeightMeasuresFullness(jobs, fitting, k, limit, smallest);
        assert Load(jobs, fitting, k) <= limit;
      }
      AllLoadsAtMost(w, fitting, m, 2.0);
      forall k: nat | k < m ensures 2.0 <= Load(w[..n], placed, k) {
        WeightMeasuresFullness(jobs[..n], placed, k, limit, smallest);
      }
      AllLoadsAtLeast(w[..n], placed, m, 2.0);
      LoadsPartitionTheWork(w, fitting, m);
      LoadsPartitionTheWork(w[..n], placed, m);
      assert false;
    }
  }
}
