/**
 The reservations of tasks that are dispatched and run concurrently, as a system of steps:
 each atomic update of a counter is a step of its own (Dispatch, RunInPool and TaskScope).
 */
module Ledger {
  import opened Wrappers

  // Where a task is between its reservation and the end of its scope. It is dropped if
  // its pool was shut down before it could be queued.
  datatype Phase = Reserved | Counted | Queued | Dropped | Running | Released | Completed

  datatype Task = Task(instance: nat, cost: int, phase: Phase)

  // The counters of one instance, and the tasks whose scopes are open on its thread,
  // the innermost last.
  datatype Instance = Instance(submitted: int, outstandingCost: int, completed: int, scopes: seq<nat>)

  datatype State = State(instances: seq<Instance>, tasks: seq<Task>)

  datatype Step =
    | Reserve(instance: nat, cost: int) // chosen from loads that may have changed since they were looked at
    | Count(task: nat)
    | Enqueue(task: nat, accepted: bool)
    | Start(task: nat)
    | Release(task: nat)                // whether its functor failed or not
    | Complete(task: nat)

  ghost predicate At(s: State, k: nat, phase: Phase)
  {
    k < |s.tasks| && s.tasks[k].phase == phase && s.tasks[k].instance < |s.instances|
  }

  ghost predicate Enabled(s: State, step: Step)
  {
    match step
    case Reserve(i, _) => i < |s.instances|
    case Count(k) => At(s, k, Reserved)
    case Enqueue(k, _) => At(s, k, Counted)
    case Start(k) => At(s, k, Queued)
    case Release(k) => At(s, k, Running) && Innermost(s.instances[s.tasks[k].instance]) == Some(k)
    case Complete(k) => At(s, k, Released)
  }

  function Innermost(instance: Instance): Option<nat>
  {
    if instance.scopes == [] then None else Some(instance.scopes[|instance.scopes| - 1])
  }

  function Moved(s: State, k: nat, phase: Phase): State
    requires k < |s.tasks|
  {
    s.(tasks := s.tasks[k := s.tasks[k].(phase := phase)])
  }

  ghost function Apply(s: State, step: Step): State
    requires Enabled(s, step)
  {
    match step
    case Reserve(i, cost) =>
      var instance := s.instances[i];
      State(s.instances[i := instance.(outstandingCost := instance.outstandingCost + cost)],
          s.tasks + [Task(i, cost, Reserved)])
    case Count(k) =>
      var i := s.tasks[k].instance;
      var instance := s.instances[i];
      Moved(s, k, Counted).(instances := s.instances[i := instance.(submitted := instance.submitted + 1)])
    case Enqueue(k, accepted) => Moved(s, k, if accepted then Queued else Dropped)
    case Start(k) =>
      var i := s.tasks[k].instance;
      var instance := s.instances[i];
      Moved(s, k, Running).(instances := s.instances[i := instance.(scopes := instance.scopes + [k])])
    case Release(k) =>
      var i := s.tasks[k].instance;
      var instance := s.instances[i];
      Moved(s, k, Released).(instances := s.instances[i :=
        instance.(outstandingCost := instance.outstandingCost - s.tasks[k].cost,
            scopes := instance.scopes[..|instance.scopes| - 1])])
    case Complete(k) =>
      var i := s.tasks[k].instance;
      var instance := s.instances[i];
      Moved(s, k, Completed).(instances := s.instances[i := instance.(completed := instance.completed + 1)])
  }

  ghost predicate Init(s: State)
  {
    s.tasks == [] && forall i :: 0 <= i < |s.instances| ==> s.instances[i] == Instance(0, 0, 0, [])
  }

  // ----- what the counters should say

  predicate HoldsReservation(task: Task, i: nat)
  {
    task.instance == i && !task.phase.Released? && !task.phase.Completed?
  }

  // The cost of the tasks that hold a reservation, over the first n tasks.
  function ReservedCost(tasks: seq<Task>, i: nat, n: nat): int
    requires n <= |tasks|
  {
    if n == 0 then 0
    else ReservedCost(tasks, i, n - 1) + ReservedBy(tasks[n - 1], i)
  }

  // How many tasks were counted as submitted, and how many as completed.
  function SubmittedCount(tasks: seq<Task>, i: nat, n: nat): nat
    requires n <= |tasks|
  {
    if n == 0 then 0
    else SubmittedCount(tasks, i, n - 1) + SubmittedBy(tasks[n - 1], i)
  }

  function CompletedCount(tasks: seq<Task>, i: nat, n: nat): nat
    requires n <= |tasks|
  {
    if n == 0 then 0
    else CompletedCount(tasks, i, n - 1) + CompletedBy(tasks[n - 1], i)
  }

  ghost predicate Balanced(s: State, i: nat)
    requires i < |s.instances|
  {
    && s.instances[i].outstandingCost == ReservedCost(s.tasks, i, |s.tasks|)
    && s.instances[i].submitted == SubmittedCount(s.tasks, i, |s.tasks|)
    && s.instances[i].completed == CompletedCount(s.tasks, i, |s.tasks|)
  }

  // The scopes open on a thread are those of its running tasks.
  ghost predicate ScopesOpen(s: State, i: nat)
    requires i < |s.instances|
  {
    && (forall p :: 0 <= p < |s.instances[i].scopes| ==>
          s.instances[i].scopes[p] < |s.tasks| && s.tasks[s.instances[i].scopes[p]].instance == i
          && s.tasks[s.instances[i].scopes[p]].phase == Running)
    && (forall p, q :: 0 <= p < q < |s.instances[i].scopes| ==> s.instances[i].scopes[p] != s.instances[i].scopes[q])
    && (forall k :: 0 <= k < |s.tasks| && s.tasks[k].instance == i && s.tasks[k].phase == Running ==>
          k in s.instances[i].scopes)
  }

  ghost predicate Inv(s: State)
  {
    && (forall i :: 0 <= i < |s.instances| ==> Balanced(s, i) && ScopesOpen(s, i))
    && (forall k :: 0 <= k < |s.tasks| ==> s.tasks[k].instance < |s.instances|)
  }

  // ----- every step keeps the ledger

  lemma {:induction false} SameTasks(a: seq<Task>, b: seq<Task>, i: nat, n: nat)
    requires n <= |a| && n <= |b| && forall k :: 0 <= k < n ==> a[k] == b[k]
    ensures ReservedCost(a, i, n) == ReservedCost(b, i, n)
    ensures SubmittedCount(a, i, n) == SubmittedCount(b, i, n)
    ensures CompletedCount(a, i, n) == CompletedCount(b, i, n)
  {
    if n > 0 {
      SameTasks(a, b, i, n - 1);
    }
  }

  // What a task adds to each sum.
  function ReservedBy(task: Task, i: nat): int
  {
    if HoldsReservation(task, i) then task.cost else 0
  }

  function SubmittedBy(task: Task, i: nat): nat
  {
    if task.instance == i && !task.phase.Reserved? then 1 else 0
  }

  function CompletedBy(task: Task, i: nat): nat
  {
    if task.instance == i && task.phase.Completed? then 1 else 0
  }

  // Replacing one task changes each sum by what the two tasks add to it.
  lemma {:induction false} MovedTask(a: seq<Task>, b: seq<Task>, k: nat, i: nat, n: nat)
    requires k < n <= |a| == |b| && b == a[k := b[k]]
    ensures ReservedCost(b, i, n) - ReservedCost(a, i, n) == ReservedBy(b[k], i) - ReservedBy(a[k], i)
    ensures SubmittedCount(b, i, n) - SubmittedCount(a, i, n) == SubmittedBy(b[k], i) - SubmittedBy(a[k], i)
    ensures CompletedCount(b, i, n) - CompletedCount(a, i, n) == CompletedBy(b[k], i) - CompletedBy(a[k], i)
  {
    if k < n - 1 {
      MovedTask(a, b, k, i, n - 1);
    } else {
      SameTasks(a, b, i, n - 1);
    }
  }

  function TaskOf(step: Step): nat
    requires !step.Reserve?
  {
    match step
    case Count(k) => k
    case Enqueue(k, _) => k
    case Start(k) => k
    case Release(k) => k
    case Complete(k) => k
  }

  lemma BalancedStep(s: State, step: Step, i: nat)
    requires Inv(s) && Enabled(s, step) && i < |s.instances|
    ensures i < |Apply(s, step).instances| && Balanced(Apply(s, step), i)
  {
    var t := Apply(s, step);
    assert Balanced(s, i);
    if step.Reserve? {
      SameTasks(s.tasks, t.tasks, i, |s.tasks|);
    } else {
      var k := TaskOf(step);
      MovedTask(s.tasks, t.tasks, k, i, |s.tasks|);
    }
  }

  // A scope is opened by Start and closed by Release; other steps leave the scopes and running tasks alone.
  lemma ScopesUnchanged(s: State, t: State, i: nat)
    requires i < |s.instances| && i < |t.instances| && ScopesOpen(s, i)
    requires t.instances[i].scopes == s.instances[i].scopes && |t.tasks| >= |s.tasks|
    requires forall k :: 0 <= k < |s.tasks| ==>
               t.tasks[k].instance == s.tasks[k].instance
               && (s.tasks[k].instance == i ==> (t.tasks[k].phase == Running <==> s.tasks[k].phase == Running))
    requires forall k :: |s.tasks| <= k < |t.tasks| ==> t.tasks[k].phase != Running
    ensures ScopesOpen(t, i)
  {
  }

  lemma ScopeOpens(s: State, k: nat)
    requires Inv(s) && Enabled(s, Start(k))
    ensures ScopesOpen(Apply(s, Start(k)), s.tasks[k].instance)
  {
    assert ScopesOpen(s, s.tasks[k].instance);
  }

  lemma ScopeCloses(s: State, k: nat)
    requires Inv(s) && Enabled(s, Release(k))
    ensures ScopesOpen(Apply(s, Release(k)), s.tasks[k].instance)
  {
    assert ScopesOpen(s, s.tasks[k].instance);
  }

  lemma ScopesStep(s: State, step: Step, i: nat)
    requires Inv(s) && Enabled(s, step) && i < |s.instances|
    ensures i < |Apply(s, step).instances| && ScopesOpen(Apply(s, step), i)
  {
    assert ScopesOpen(s, i);
    if step.Start? && s.tasks[step.task].instance == i {
      ScopeOpens(s, step.task);
    } else if step.Release? && s.tasks[step.task].instance == i {
      ScopeCloses(s, step.task);
    } else {
      ScopesUnchanged(s, Apply(s, step), i);
    }
  }

  lemma InvStep(s: State, step: Step)
    requires Inv(s) && Enabled(s, step)
    ensures Inv(Apply(s, step))
  {
    forall i | 0 <= i < |s.instances|
      ensures Balanced(Apply(s, step), i) && ScopesOpen(Apply(s, step), i)
    {
      BalancedStep(s, step, i);
      ScopesStep(s, step, i);
    }
  }

  ghost predicate IsRun(states: seq<State>, steps: seq<Step>)
  {
    && |states| == |steps| + 1 && Init(states[0])
    && forall k :: 0 <= k < |steps| ==> IsStep(states[k], steps[k], states[k + 1])
  }

  ghost predicate IsStep(s: State, step: Step, t: State)
  {
    Enabled(s, step) && t == Apply(s, step)
  }

  lemma {:induction false} RunKeepsInv(states: seq<State>, steps: seq<Step>, k: nat)
    requires IsRun(states, steps) && k < |states|
    ensures Inv(states[k])
  {
    if k > 0 {
      RunKeepsInv(states, steps, k - 1);
      assert IsStep(states[k - 1], steps[k - 1], states[k]);
      InvStep(states[k - 1], steps[k - 1]);
    }
  }

  // ----- the ledger over whole runs

  ghost predicate Between(task: Task)
  {
    task.phase.Reserved? || task.phase.Released?
  }

  // The cost of the tasks submitted and not completed, and how many there are.
  function UnfinishedCost(tasks: seq<Task>, i: nat, n: nat): int
    requires n <= |tasks|
  {
    if n == 0 then 0
    else UnfinishedCost(tasks, i, n - 1) + if IsUnfinished(tasks[n - 1], i) then tasks[n - 1].cost else 0
  }

  function UnfinishedCount(tasks: seq<Task>, i: nat, n: nat): nat
    requires n <= |tasks|
  {
    if n == 0 then 0 else UnfinishedCount(tasks, i, n - 1) + if IsUnfinished(tasks[n - 1], i) then 1 else 0
  }

  predicate IsUnfinished(task: Task, i: nat)
  {
    task.instance == i && !task.phase.Reserved? && !task.phase.Completed?
  }

  lemma {:induction false} CountsUnfinished(tasks: seq<Task>, i: nat, n: nat)
    requires n <= |tasks|
    ensures SubmittedCount(tasks, i, n) - CompletedCount(tasks, i, n) == UnfinishedCount(tasks, i, n)
    ensures (forall k :: 0 <= k < n ==> !Between(tasks[k])) ==> ReservedCost(tasks, i, n) == UnfinishedCost(tasks, i, n)
  {
    if n > 0 {
      CountsUnfinished(tasks, i, n - 1);
    }
  }

  /**
   In every state of every run, submitted - completed counts the tasks of an instance that
   were dispatched and have not completed. Its outstanding cost is theirs, whenever no
   task is between the two updates of its dispatch or of its end.
   */
  lemma LedgerBalances(states: seq<State>, steps: seq<Step>, k: nat, i: nat)
    requires IsRun(states, steps) && k < |states| && i < |states[k].instances|
    ensures states[k].instances[i].submitted - states[k].instances[i].completed
         == UnfinishedCount(states[k].tasks, i, |states[k].tasks|)
    ensures states[k].instances[i].outstandingCost == ReservedCost(states[k].tasks, i, |states[k].tasks|)
    ensures (forall t :: 0 <= t < |states[k].tasks| ==> !Between(states[k].tasks[t])) ==>
              states[k].instances[i].outstandingCost == UnfinishedCost(states[k].tasks, i, |states[k].tasks|)
  {
    RunKeepsInv(states, steps, k);
    assert Balanced(states[k], i);
    CountsUnfinished(states[k].tasks, i, |states[k].tasks|);
  }

  lemma {:induction false} NothingReserved(tasks: seq<Task>, i: nat, n: nat)
    requires n <= |tasks| && forall k :: 0 <= k < n ==> tasks[k].phase.Completed?
    ensures ReservedCost(tasks, i, n) == 0 && UnfinishedCount(tasks, i, n) == 0
  {
    if n > 0 {
      NothingReserved(tasks, i, n - 1);
    }
  }

  /** When all tasks have completed, every instance is free again. */
  lemma LedgerClears(states: seq<State>, steps: seq<Step>, k: nat, i: nat)
    requires IsRun(states, steps) && k < |states| && i < |states[k].instances|
    requires forall t :: 0 <= t < |states[k].tasks| ==> states[k].tasks[t].phase.Completed?
    ensures states[k].instances[i].outstandingCost == 0
    ensures states[k].instances[i].submitted == states[k].instances[i].completed
  {
    LedgerBalances(states, steps, k, i);
    NothingReserved(states[k].tasks, i, |states[k].tasks|);
  }

  // The cost reserved by all tasks but one.
  function ReservedByOthers(tasks: seq<Task>, i: nat, own: nat, n: nat): int
    requires n <= |tasks|
  {
    if n == 0 then 0
    else ReservedByOthers(tasks, i, own, n - 1)
         + if HoldsReservation(tasks[n - 1], i) && n - 1 != own then tasks[n - 1].cost else 0
  }

  lemma {:induction false} LeaveOut(tasks: seq<Task>, i: nat, own: nat, n: nat)
    requires n <= |tasks| && own < |tasks| && HoldsReservation(tasks[own], i)
    ensures ReservedCost(tasks, i, n) == ReservedByOthers(tasks, i, own, n) + if own < n then tasks[own].cost else 0
  {
    if n > 0 {
      LeaveOut(tasks, i, own, n - 1);
    }
  }

  /**
   A task that dispatches work sees on its own instance the load of all other tasks: the
   reservation that it takes off is part of the load.
   */
  lemma OwnTaskIsPartOfLoad(states: seq<State>, steps: seq<Step>, k: nat, i: nat, own: nat)
    requires IsRun(states, steps) && k < |states| && i < |states[k].instances|
    requires Innermost(states[k].instances[i]) == Some(own)
    ensures own < |states[k].tasks| && HoldsReservation(states[k].tasks[own], i)
    ensures states[k].instances[i].outstandingCost - states[k].tasks[own].cost
         == ReservedByOthers(states[k].tasks, i, own, |states[k].tasks|)
  {
    RunKeepsInv(states, steps, k);
    assert ScopesOpen(states[k], i) && Balanced(states[k], i);
    LeaveOut(states[k].tasks, i, own, |states[k].tasks|);
  }
}
