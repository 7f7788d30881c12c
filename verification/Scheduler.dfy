/**
 Choosing an instance for each task and keeping account of what the instances have to do
 (IsolatedTableProxy::Dispatch and TaskScope).
 */
module Scheduler {
  import opened Sequences

  /** The counters of one instance; its clock and I/O statistics are not modelled. */
  class InstanceStats {
    var submitted: int
    var outstandingCost: int
    var completed: int

    constructor ()
      ensures submitted == 0 && outstandingCost == 0 && completed == 0
    {
      submitted, outstandingCost, completed := 0, 0, 0;
    }
  }

  // The task that runs on a thread, if any.
  datatype RunningTask = RunningTask(stats: InstanceStats?, cost: int)

  // A task sent to an instance; without stats it is not measured.
  datatype Submission = Submission(instance: nat, stats: InstanceStats?, cost: int)

  /** What is local to a thread. */
  class ThreadState {
    var current: RunningTask

    constructor ()
      ensures current == RunningTask(null, 0)
    {
      current := RunningTask(null, 0);
    }
  }

  const MaxInt64: int := 0x7fff_ffff_ffff_ffff

  // ----- the least loaded instance

  function Capped(load: int): int
  {
    if load < MaxInt64 then load else MaxInt64
  }

  // The first of the instances that have the least load.
  ghost predicate IsLeastLoaded(loads: seq<int>, instance: nat)
  {
    && instance < |loads|
    && (forall i :: 0 <= i < |loads| ==> Capped(loads[instance]) <= Capped(loads[i]))
    && (forall i :: 0 <= i < instance ==> Capped(loads[instance]) < Capped(loads[i]))
  }

  ghost predicate AreInstances(pools: seq<InstanceStats>)
  {
    pools != [] && forall i, k :: 0 <= i < k < |pools| ==> pools[i] != pools[k]
  }

  // The load of an instance as the thread's own task sees it, which does not count itself.
  function LoadSeen(stats: InstanceStats, current: RunningTask): int
    reads stats
  {
    stats.outstandingCost - if stats == current.stats then current.cost else 0
  }

  ghost function LoadsSeen(pools: seq<InstanceStats>, current: RunningTask): (loads: seq<int>)
    reads pools
    ensures |loads| == |pools| && forall i :: 0 <= i < |pools| ==> loads[i] == LoadSeen(pools[i], current)
  {
    seq(|pools|, i requires 0 <= i < |pools| reads pools => LoadSeen(pools[i], current))
  }

  // No instance has less to do, without what the thread's own task reserved, than the chosen one.
  ghost predicate IsLightest(pools: seq<InstanceStats>, current: RunningTask, instance: nat)
    reads pools
  {
    && instance < |pools|
    && forall i :: 0 <= i < |pools| ==>
         Capped(pools[instance].outstandingCost - if pools[instance] == current.stats then current.cost else 0)
           <= Capped(pools[i].outstandingCost - if pools[i] == current.stats then current.cost else 0)
  }

  ghost function Lightest(pools: seq<InstanceStats>, current: RunningTask): set<nat>
    reads pools
  {
    set instance: nat | instance < |pools| && IsLightest(pools, current, instance)
  }

  method Choose(pools: seq<InstanceStats>, current: RunningTask) returns (instance: nat)
    requires AreInstances(pools)
    ensures IsLeastLoaded(LoadsSeen(pools, current), instance) && IsLightest(pools, current, instance)
  {
    instance := 0;
    var least := MaxInt64;
    for i := 0 to |pools|
      invariant instance < |pools|
      invariant least == MaxInt64 ==> instance == 0 && forall k :: 0 <= k < i ==>
            LoadSeen(pools[k], current) >= MaxInt64
      invariant least < MaxInt64 ==> instance < i && least == LoadSeen(pools[instance], current)
      invariant least <= MaxInt64
      invariant forall k :: 0 <= k < i ==> least <= Capped(LoadSeen(pools[k], current))
      invariant forall k :: 0 <= k < instance ==> least < Capped(LoadSeen(pools[k], current))
    {
      var load := pools[i].outstandingCost;
      if pools[i] == current.stats {
        load := load - current.cost;
      }
      if load < least {
        instance := i;
        least := load;
      }
    }
    LeastIsLightest(pools, current, instance);
  }

  lemma LeastIsLightest(pools: seq<InstanceStats>, current: RunningTask, instance: nat)
    requires IsLeastLoaded(LoadsSeen(pools, current), instance)
    ensures IsLightest(pools, current, instance)
  {
    forall i | 0 <= i < |pools|
      ensures Capped(LoadSeen(pools[instance], current)) <= Capped(LoadSeen(pools[i], current))
    {
      assert LoadsSeen(pools, current)[i] == LoadSeen(pools[i], current);
    }
  }

  /** Chooses the least loaded instance, and reserves the cost of the task on it. */
  method Dispatch(pools: seq<InstanceStats>, thread: ThreadState, cost: int) returns (submission: Submission)
    requires AreInstances(pools)
    modifies pools
    ensures IsLeastLoaded(old(LoadsSeen(pools, thread.current)), submission.instance)
    ensures submission.instance in old(Lightest(pools, thread.current))
    ensures submission == Submission(submission.instance, pools[submission.instance], cost)
    ensures forall i :: 0 <= i < |pools| ==> pools[i].completed == old(pools[i].completed)
    ensures forall i :: 0 <= i < |pools| ==>
              && pools[i].outstandingCost
                    == old(pools[i].outstandingCost) + (if i == submission.instance then cost else 0)
              && pools[i].submitted == old(pools[i].submitted) + (if i == submission.instance then 1 else 0)
  {
    var instance := Choose(pools, thread.current);
    var stats := pools[instance];
    stats.outstandingCost := stats.outstandingCost + cost;
    stats.submitted := stats.submitted + 1;
    submission := Submission(instance, stats, cost);
  }

  // ----- running a task

  /** Measures a task from its construction until it is destroyed. */
  class TaskScope {
    const stats: InstanceStats?
    const cost: int
    const previous: RunningTask
    const thread: ThreadState

    constructor (submission: Submission, thread: ThreadState)
      modifies thread
      ensures stats == submission.stats && cost == submission.cost && this.thread == thread
      ensures previous == old(thread.current)
      ensures thread.current == if stats == null then old(thread.current) else RunningTask(stats, cost)
    {
      this.stats := submission.stats;
      this.cost := submission.cost;
      this.thread := thread;
      this.previous := thread.current;
      new;
      if stats != null {
        thread.current := RunningTask(stats, cost);
      }
    }

    method Destroy()
      modifies thread, stats
      ensures thread.current == if stats == null then old(thread.current) else previous
      ensures stats != null ==> stats.outstandingCost == old(stats.outstandingCost) - cost
      ensures stats != null ==> stats.completed == old(stats.completed) + 1 && stats.submitted == old(stats.submitted)
    {
      if stats == null {
        return;
      }
      thread.current := previous;
      stats.outstandingCost := stats.outstandingCost - cost;
      stats.completed := stats.completed + 1;
    }
  }

  // A task and those nested in it. Whether it fails makes no difference to its scope.
  datatype Invocation = Invocation(submission: Submission, nested: seq<Invocation>)

  // The cost of a task and all nested ones on an instance, and how many they are.
  ghost function CostOn(call: Invocation, stats: InstanceStats): int
  {
    CostsOn(call.nested, stats) + if call.submission.stats == stats then call.submission.cost else 0
  }

  ghost function CostsOn(calls: seq<Invocation>, stats: InstanceStats): int
  {
    if calls == [] then 0 else CostsOn(calls[..|calls| - 1], stats) + CostOn(calls[|calls| - 1], stats)
  }

  ghost function CountOn(call: Invocation, stats: InstanceStats): nat
  {
    CountsOn(call.nested, stats) + if call.submission.stats == stats then 1 else 0
  }

  ghost function CountsOn(calls: seq<Invocation>, stats: InstanceStats): nat
  {
    if calls == [] then 0 else CountsOn(calls[..|calls| - 1], stats) + CountOn(calls[|calls| - 1], stats)
  }

  ghost predicate RunsOn(call: Invocation, pools: set<InstanceStats>)
  {
    && (call.submission.stats == null || call.submission.stats in pools)
    && forall k :: 0 <= k < |call.nested| ==> RunsOn(call.nested[k], pools)
  }

  /**
   Runs a task with those nested in it. Every reservation is released exactly once, and
   the thread is left as it was found.
   */
  method Invoke(call: Invocation, thread: ThreadState, ghost pools: set<InstanceStats>)
    requires RunsOn(call, pools)
    modifies thread, pools
    ensures thread.current == old(thread.current)
    ensures forall stats :: stats in pools ==>
              && stats.outstandingCost == old(stats.outstandingCost) - CostOn(call, stats)
              && stats.completed == old(stats.completed) + CountOn(call, stats)
              && stats.submitted == old(stats.submitted)
    decreases call
  {
    var scope := new TaskScope(call.submission, thread);
    ghost var running := thread.current;
    for k := 0 to |call.nested|
      invariant thread.current == running
      invariant forall stats :: stats in pools ==>
                  && stats.outstandingCost == old(stats.outstandingCost) - CostsOn(call.nested[..k], stats)
                  && stats.completed == old(stats.completed) + CountsOn(call.nested[..k], stats)
                  && stats.submitted == old(stats.submitted)
    {
      assert call.nested[..k + 1][..k] == call.nested[..k];
      Invoke(call.nested[k], thread, pools);
    }
    assert call.nested[..|call.nested|] == call.nested;
    scope.Destroy();
  }

  // ----- balance

  ghost function WithTask(loads: seq<int>, instance: nat, cost: nat): seq<int>
    requires instance < |loads|
  {
    loads[instance := loads[instance] + cost]
  }

  // Tasks of the given costs are dispatched one after the other, none of them completing.
  ghost predicate IsDispatchRun(loads: seq<seq<int>>, costs: seq<nat>, chosen: seq<nat>, ninstances: nat)
  {
    && |loads| == |costs| + 1 && |chosen| == |costs|
    && loads[0] == seq(ninstances, _ => 0)
    && forall k :: 0 <= k < |costs| ==> IsDispatchStep(loads[k], chosen[k], costs[k], loads[k + 1])
  }

  ghost predicate IsDispatchStep(before: seq<int>, instance: nat, cost: nat, after: seq<int>)
  {
    IsLeastLoaded(before, instance) && after == WithTask(before, instance, cost)
  }

  ghost predicate Within(loads: seq<int>, spread: nat, total: nat)
  {
    && (forall i :: 0 <= i < |loads| ==> 0 <= loads[i] <= total)
    && forall i, k :: 0 <= i < |loads| && 0 <= k < |loads| ==> loads[i] - loads[k] <= spread
  }

  /**
   Tasks dispatched one after the other to idle instances stay balanced: the loads of two
   instances never differ by more than the largest cost.
   */
  lemma {:induction false} DispatchBalances(loads: seq<seq<int>>, costs: seq<nat>, chosen: seq<nat>, ninstances: nat,
                                            largest: nat, k: nat)
    requires IsDispatchRun(loads, costs, chosen, ninstances) && k <= |costs|
    requires forall i :: 0 <= i < |costs| ==> costs[i] <= largest
    requires SumTo(costs, k) < MaxInt64
    ensures |loads[k]| == ninstances && Within(loads[k], largest, SumTo(costs, k))
  {
    if k > 0 {
      DispatchBalances(loads, costs, chosen, ninstances, largest, k - 1);
      assert IsDispatchStep(loads[k - 1], chosen[k - 1], costs[k - 1], loads[k]);
      LeastTakesTask(loads[k - 1], chosen[k - 1], costs[k - 1], largest, SumTo(costs, k - 1));
    }
  }

  lemma LeastTakesTask(before: seq<int>, instance: nat, cost: nat, largest: nat, total: nat)
    requires IsLeastLoaded(before, instance) && Within(before, largest, total)
    requires cost <= largest && total + cost < MaxInt64
    ensures Within(WithTask(before, instance, cost), largest, total + cost)
  {
    forall i | 0 <= i < |before|
      ensures before[instance] <= before[i]
    {
      assert Capped(before[instance]) <= Capped(before[i]);
    }
  }

  ghost function Outstanding(pools: seq<InstanceStats>): (loads: seq<int>)
    reads pools
    ensures |loads| == |pools| && forall i :: 0 <= i < |pools| ==> loads[i] == pools[i].outstandingCost
  {
    seq(|pools|, i requires 0 <= i < |pools| reads pools => pools[i].outstandingCost)
  }

  // A thread without a task of its own sees all there is to do.
  lemma OutsiderSeesAll(pools: seq<InstanceStats>, current: RunningTask)
    requires current.stats == null
    ensures LoadsSeen(pools, current) == Outstanding(pools)
  {
    forall i | 0 <= i < |pools|
      ensures LoadsSeen(pools, current)[i] == Outstanding(pools)[i]
    {
    }
  }

  // One dispatch from an outside thread is a step of such a run.
  method DispatchOne(pools: seq<InstanceStats>, thread: ThreadState, cost: nat) returns (submission: Submission)
    requires AreInstances(pools) && thread.current.stats == null
    modifies pools
    ensures IsDispatchStep(old(Outstanding(pools)), submission.instance, cost, Outstanding(pools))
  {
    ghost var before := Outstanding(pools);
    OutsiderSeesAll(pools, thread.current);
    submission := Dispatch(pools, thread, cost);
    assert Outstanding(pools) == WithTask(before, submission.instance, cost);
  }

  /** The same of the program: an outside thread dispatches to idle instances. */
  method DispatchAll(pools: seq<InstanceStats>, thread: ThreadState, costs: seq<nat>, ghost largest: nat)
    requires AreInstances(pools) && thread.current.stats == null
    requires forall i :: 0 <= i < |pools| ==> pools[i].outstandingCost == 0
    requires forall i :: 0 <= i < |costs| ==> costs[i] <= largest
    requires Sum(costs) < MaxInt64
    modifies pools
    ensures Within(Outstanding(pools), largest, Sum(costs))
  {
    ghost var loads, chosen := [Outstanding(pools)], [];
    assert Outstanding(pools) == seq(|pools|, _ => 0);
    for k := 0 to |costs|
      invariant IsDispatchRun(loads, costs[..k], chosen, |pools|)
      invariant loads[k] == Outstanding(pools)
    {
      var submission := DispatchOne(pools, thread, costs[k]);
      ExtendRun(loads, costs, chosen, |pools|, k, submission.instance, Outstanding(pools));
      loads, chosen := loads + [Outstanding(pools)], chosen + [submission.instance];
    }
    assert costs[..|costs|] == costs;
    DispatchBalances(loads, costs, chosen, |pools|, largest, |costs|);
  }

  lemma ExtendRun(loads: seq<seq<int>>, costs: seq<nat>, chosen: seq<nat>, ninstances: nat, k: nat, instance: nat,
                  after: seq<int>)
    requires k < |costs| && IsDispatchRun(loads, costs[..k], chosen, ninstances)
    requires IsDispatchStep(loads[k], instance, costs[k], after)
    ensures IsDispatchRun(loads + [after], costs[..k + 1], chosen + [instance], ninstances)
  {
    assert costs[..k + 1] == costs[..k] + [costs[k]];
  }
}
