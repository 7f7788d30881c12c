/**
 Closing a proxy while tasks are dispatched to its instances (IsolatedTableProxy::Close,
 CheckClosed, RunAsync and InvokeOnInstance), as a system of steps.

 Each instance has a queue served in order by one worker. Callers look at the closed flag
 first and queue a task later, so that a task may be queued behind the close. One thread
 closes: either an outside one, or a worker from within a task. Every step is one of the
 program's: looking at the flag, at the table, queueing, starting and ending a task.
 */
module CloseProtocol {
  import opened Wrappers

  datatype Task = Functor(id: nat) | CloseTask

  // What the worker of an instance does: it has taken a task from the queue, or has also
  // found its table open, or runs it.
  datatype Phase = Idle | Taken(id: nat) | Checked(id: nat) | Running(id: nat)

  // The closer submits the close of one instance after the other, then waits. Its own
  // instance, if it is a worker, it closes itself.
  datatype Closer = NotStarted | Submitting(next: nat, own: Option<nat>) | Waiting(own: Option<nat>) | Done

  datatype State = State(
    flag: bool,                 // is_closed_
    open: seq<bool>,            // whether the table of an instance is open
    queues: seq<seq<Task>>,
    phases: seq<Phase>,
    closeRan: seq<bool>,        // whether the close of an instance ran, successfully or not
    closer: Closer,
    callers: nat,               // callers that found the flag unset, and have not queued their task
    nextId: nat,                // tasks are numbered as they are queued
    started: set<nat>)          // tasks whose functor was started

  datatype Step =
    | LookAtFlag
    | Queue(i: nat)
    | BeginClose(own: Option<nat>)
    | SubmitClose(leavesOpen: bool)
    | StartWaiting
    | EndClose
    | Take(i: nat)
    | RunClose(i: nat, leavesOpen: bool)
    | LookAtTable(i: nat)
    | Start(i: nat)
    | Finish(i: nat)

  // The instance whose worker is closing, if any.
  function Own(closer: Closer): Option<nat>
  {
    match closer
    case Submitting(_, own) => own
    case Waiting(own) => own
    case _ => None
  }

  ghost predicate WellFormed(s: State)
  {
    |s.open| == |s.queues| == |s.phases| == |s.closeRan|
  }

  function NInstances(s: State): nat
  {
    |s.queues|
  }

  // A worker that is closing does nothing else.
  predicate IsFree(s: State, i: nat)
  {
    i < NInstances(s) && Own(s.closer) != Some(i)
  }

  ghost predicate Enabled(s: State, step: Step)
    requires WellFormed(s)
  {
    match step
    case LookAtFlag => true
    case Queue(i) => i < NInstances(s) && s.callers > 0
    case BeginClose(own) =>
      s.closer.NotStarted? && (own.Some? ==> own.value < NInstances(s) && s.phases[own.value].Running?)
    case SubmitClose(_) => s.closer.Submitting? && s.closer.next < NInstances(s)
    case StartWaiting => s.closer.Submitting? && s.closer.next == NInstances(s)
    case EndClose => s.closer.Waiting? && forall i :: 0 <= i < NInstances(s) ==> s.closeRan[i]
    case Take(i) => IsFree(s, i) && s.phases[i].Idle? && s.queues[i] != [] && s.queues[i][0].Functor?
    case RunClose(i, _) => IsFree(s, i) && s.phases[i].Idle? && s.queues[i] != [] && s.queues[i][0].CloseTask?
    case LookAtTable(i) => IsFree(s, i) && s.phases[i].Taken?
    case Start(i) => IsFree(s, i) && s.phases[i].Checked?
    case Finish(i) => IsFree(s, i) && s.phases[i].Running?
  }

  // Closes a table. If this throws, it may or may not leave the table open.
  function Closed(s: State, i: nat, leavesOpen: bool): State
    requires i < |s.open| && i < |s.closeRan|
  {
    s.(open := s.open[i := s.open[i] && leavesOpen], closeRan := s.closeRan[i := true])
  }

  ghost function Apply(s: State, step: Step): (t: State)
    requires WellFormed(s) && Enabled(s, step)
    ensures WellFormed(t) && NInstances(t) == NInstances(s)
  {
    match step
    case LookAtFlag => if s.flag then s else s.(callers := s.callers + 1)
    case Queue(i) =>
      s.(callers := s.callers - 1, nextId := s.nextId + 1, queues := s.queues[i := s.queues[i] + [Functor(s.nextId)]])
    case BeginClose(own) => if s.flag then s else s.(closer := Submitting(0, own))
    case SubmitClose(leavesOpen) =>
      var i := s.closer.next;
      var after := s.(closer := Submitting(i + 1, s.closer.own));
      if s.closer.own == Some(i) then Closed(after, i, leavesOpen)
      else after.(queues := s.queues[i := s.queues[i] + [CloseTask]])
    case StartWaiting => s.(closer := Waiting(s.closer.own))
    case EndClose => s.(closer := Done, flag := true)
    case Take(i) => s.(phases := s.phases[i := Taken(s.queues[i][0].id)], queues := s.queues[i := s.queues[i][1..]])
    case RunClose(i, leavesOpen) => Closed(s.(queues := s.queues[i := s.queues[i][1..]]), i, leavesOpen)
    case LookAtTable(i) => s.(phases := s.phases[i := if s.open[i] then Checked(s.phases[i].id) else Idle])
    case Start(i) => s.(phases := s.phases[i := Running(s.phases[i].id)], started := s.started + {s.phases[i].id})
    case Finish(i) => s.(phases := s.phases[i := Idle])
  }

  // A proxy that was just made, with all its tables open.
  ghost predicate Init(s: State)
  {
    && WellFormed(s) && !s.flag && s.closer.NotStarted? && s.callers == 0 && s.started == {}
    && forall i :: 0 <= i < NInstances(s) ==> s.open[i] && s.queues[i] == [] && s.phases[i].Idle? && !s.closeRan[i]
  }

  // ----- what every step keeps

  // The closes in a queue from position k on.
  function CloseTasks(queue: seq<Task>): nat
  {
    if queue == [] then 0 else (if queue[0].CloseTask? then 1 else 0) + CloseTasks(queue[1..])
  }

  lemma {:induction false} CloseTasksAppend(queue: seq<Task>, task: Task)
    ensures CloseTasks(queue + [task]) == CloseTasks(queue) + if task.CloseTask? then 1 else 0
  {
    if queue != [] {
      assert (queue + [task])[1..] == queue[1..] + [task];
      CloseTasksAppend(queue[1..], task);
    } else {
      assert (queue + [task])[1..] == [];
    }
  }

  // Has the closer submitted the close of an instance, or run it itself?
  function IsSubmitted(closer: Closer, i: nat): bool
  {
    match closer
    case NotStarted => false
    case Submitting(next, _) => i < next
    case Waiting(_) => true
    case Done => true
  }

  // Between a look at the table and the start of the functor the table stays open, and
  // the close of an instance waits in its queue exactly until it has run.
  ghost predicate InstanceInv(s: State, i: nat)
    requires WellFormed(s) && i < NInstances(s)
  {
    && (s.phases[i].Checked? ==> s.open[i])
    && (!s.open[i] ==> s.closeRan[i])
    && (s.closeRan[i] ==> IsSubmitted(s.closer, i))
    && CloseTasks(s.queues[i]) == (if IsSubmitted(s.closer, i) && !s.closeRan[i] then 1 else 0)
    && (Own(s.closer) == Some(i) ==> s.phases[i].Running? && (IsSubmitted(s.closer, i) ==> s.closeRan[i]))
  }

  ghost predicate Inv(s: State)
  {
    && WellFormed(s)
    && (s.flag <==> s.closer.Done?)
    && (s.closer.Submitting? ==> s.closer.next <= NInstances(s))
    && (s.flag ==> forall i :: 0 <= i < NInstances(s) ==> s.closeRan[i])
    && forall i :: 0 <= i < NInstances(s) ==> InstanceInv(s, i)
  }

  lemma InitInv(s: State)
    requires Init(s)
    ensures Inv(s)
  {
  }

  lemma InstanceStep(s: State, step: Step, i: nat)
    requires Inv(s) && Enabled(s, step) && i < NInstances(s)
    ensures InstanceInv(Apply(s, step), i)
  {
    assert InstanceInv(s, i);
    if step.Queue? && step.i == i {
      CloseTasksAppend(s.queues[i], Functor(s.nextId));
    } else if step.SubmitClose? && s.closer.next == i && s.closer.own != Some(i) {
      CloseTasksAppend(s.queues[i], CloseTask);
    }
  }

  lemma InvStep(s: State, step: Step)
    requires Inv(s) && Enabled(s, step)
    ensures Inv(Apply(s, step))
  {
    forall i | 0 <= i < NInstances(s)
      ensures InstanceInv(Apply(s, step), i)
    {
      InstanceStep(s, step, i);
    }
  }

  // ----- over whole runs

  ghost predicate IsRun(states: seq<State>, steps: seq<Step>)
  {
    && |states| == |steps| + 1 && Init(states[0])
    && forall k :: 0 <= k < |steps| ==> IsStep(states[k], steps[k], states[k + 1])
  }

  ghost predicate IsStep(s: State, step: Step, t: State)
  {
    WellFormed(s) && Enabled(s, step) && t == Apply(s, step)
  }

  lemma {:induction false} RunKeepsInv(states: seq<State>, steps: seq<Step>, k: nat)
    requires IsRun(states, steps) && k < |states|
    ensures Inv(states[k])
  {
    if k == 0 {
      InitInv(states[0]);
    } else {
      RunKeepsInv(states, steps, k - 1);
      assert IsStep(states[k - 1], steps[k - 1], states[k]);
      InvStep(states[k - 1], steps[k - 1]);
    }
  }

  /** No functor is started on a closed table. */
  lemma StartsOnOpenTable(states: seq<State>, steps: seq<Step>, k: nat)
    requires IsRun(states, steps) && k < |steps| && steps[k].Start?
    ensures steps[k].i < |states[k].open| && states[k].open[steps[k].i]
  {
    RunKeepsInv(states, steps, k);
    assert IsStep(states[k], steps[k], states[k + 1]);
    assert InstanceInv(states[k], steps[k].i);
  }

  /** The proxy is marked as closed only once the close of every instance has run. */
  lemma FlagFollowsCloses(states: seq<State>, steps: seq<Step>, k: nat)
    requires IsRun(states, steps) && k < |states| && states[k].flag
    ensures WellFormed(states[k]) && forall i :: 0 <= i < NInstances(states[k]) ==> states[k].closeRan[i]
  {
    RunKeepsInv(states, steps, k);
  }

  // The tasks queued in the steps from m to k.
  ghost function TasksQueued(steps: seq<Step>, m: nat, k: nat): nat
    requires m <= k <= |steps|
  {
    if m == k then 0 else TasksQueued(steps, m, k - 1) + if steps[k - 1].Queue? then 1 else 0
  }

  /**
   Once the proxy is marked as closed it stays so, and no caller gets past the flag: only the
   tasks of callers that had looked before are still queued, each at most once.
   */
  lemma {:induction false} FlagStopsCallers(states: seq<State>, steps: seq<Step>, m: nat, k: nat)
    requires IsRun(states, steps) && m <= k < |states| && states[m].flag
    ensures states[k].flag && TasksQueued(steps, m, k) + states[k].callers == states[m].callers
  {
    if m < k {
      FlagStopsCallers(states, steps, m, k - 1);
      RunKeepsInv(states, steps, k - 1);
      assert IsStep(states[k - 1], steps[k - 1], states[k]);
    }
  }

  // The task is in a queue, taken by a worker, or was started.
  ghost predicate IsKept(s: State, id: nat)
    requires WellFormed(s)
  {
    id in s.started || exists i :: 0 <= i < NInstances(s) && IsWith(s, i, id)
  }

  ghost predicate IsWith(s: State, i: nat, id: nat)
    requires WellFormed(s) && i < NInstances(s)
  {
    Functor(id) in s.queues[i] || s.phases[i] == Taken(id) || s.phases[i] == Checked(id)
  }

  ghost predicate AllOpen(s: State)
  {
    forall i :: 0 <= i < |s.open| ==> s.open[i]
  }

  lemma KeptAt(s: State, step: Step, i: nat, id: nat)
    requires WellFormed(s) && Enabled(s, step) && AllOpen(Apply(s, step)) && i < NInstances(s) && IsWith(s, i, id)
    ensures IsWith(Apply(s, step), i, id) || id in Apply(s, step).started
  {
    var t := Apply(s, step);
    if Functor(id) in s.queues[i] && (step == Take(i) || (step.RunClose? && step.i == i)) {
      assert s.queues[i] == [s.queues[i][0]] + s.queues[i][1..];
    }
    if step == LookAtTable(i) {
      assert t.open[i];
    }
  }

  lemma KeptStep(s: State, step: Step, id: nat)
    requires WellFormed(s) && Enabled(s, step) && AllOpen(Apply(s, step)) && id < Apply(s, step).nextId
    requires id < s.nextId ==> IsKept(s, id)
    ensures IsKept(Apply(s, step), id)
  {
    var t := Apply(s, step);
    if id < s.nextId && id !in s.started {
      var i :| 0 <= i < NInstances(s) && IsWith(s, i, id);
      KeptAt(s, step, i, id);
      assert IsWith(t, i, id) || id in t.started;
    } else if id >= s.nextId {
      assert t.queues[step.i] == s.queues[step.i] + [Functor(id)];
      assert IsWith(t, step.i, id);
    }
  }

  /** While no table is closed no task is lost: each is queued, at a worker, or was started. */
  lemma {:induction false} NoTaskIsLost(states: seq<State>, steps: seq<Step>, k: nat, id: nat)
    requires IsRun(states, steps) && k < |states| && states[0].nextId <= id < states[k].nextId && AllOpen(states[k])
    ensures WellFormed(states[k]) && IsKept(states[k], id)
  {
    if k > 0 {
      assert IsStep(states[k - 1], steps[k - 1], states[k]);
      assert AllOpen(states[k - 1]);
      if id < states[k - 1].nextId {
        NoTaskIsLost(states, steps, k - 1, id);
      }
      KeptStep(states[k - 1], steps[k - 1], id);
    }
  }

  lemma {:induction false} ClosedStays(states: seq<State>, steps: seq<Step>, m: nat, k: nat, i: nat)
    requires IsRun(states, steps) && m <= k < |states|
    requires i < |states[m].open| && !states[m].open[i]
    ensures i < |states[k].open| && !states[k].open[i]
  {
    if m < k {
      ClosedStays(states, steps, m, k - 1, i);
      assert IsStep(states[k - 1], steps[k - 1], states[k]);
    }
  }

  /** Once the table of an instance is closed, the instance starts nothing any more. */
  lemma NothingStartsOnceClosed(states: seq<State>, steps: seq<Step>, m: nat, k: nat, i: nat)
    requires IsRun(states, steps) && m <= k < |steps|
    requires i < |states[m].open| && !states[m].open[i]
    ensures steps[k] != Start(i)
  {
    ClosedStays(states, steps, m, k, i);
    if steps[k] == Start(i) {
      StartsOnOpenTable(states, steps, k);
    }
  }

  // ----- tasks that are queued behind the close

  ghost predicate IsPending(phase: Phase, id: nat)
  {
    phase == Taken(id) || phase == Checked(id)
  }

  ghost predicate IdsInv(s: State)
    requires WellFormed(s)
  {
    && (forall i, t :: 0 <= i < NInstances(s) && t in s.queues[i] && t.Functor? ==> t.id < s.nextId)
    && (forall i :: 0 <= i < NInstances(s) && (s.phases[i].Taken? || s.phases[i].Checked?) ==>
          s.phases[i].id < s.nextId)
    && (forall id :: id in s.started ==> id < s.nextId)
  }

  lemma {:induction false} RunKeepsIds(states: seq<State>, steps: seq<Step>, k: nat)
    requires IsRun(states, steps) && k < |states|
    ensures WellFormed(states[k]) && IdsInv(states[k])
  {
    if k > 0 {
      RunKeepsIds(states, steps, k - 1);
      assert IsStep(states[k - 1], steps[k - 1], states[k]);
    }
  }

  // The task waits behind a close in the queue.
  ghost predicate IsBehindClose(queue: seq<Task>, id: nat)
  {
    exists p :: 0 <= p < |queue| && queue[p].CloseTask? && Functor(id) !in queue[..p + 1]
  }

  // A task of instance i that can never be started, unless the close there leaves the table open.
  ghost predicate IsDoomed(s: State, i: nat, id: nat)
    requires WellFormed(s) && i < NInstances(s)
  {
    && id < s.nextId && id !in s.started
    && (forall k :: 0 <= k < NInstances(s) && k != i ==> Functor(id) !in s.queues[k] && !IsPending(s.phases[k], id))
    && ((IsBehindClose(s.queues[i], id) && !IsPending(s.phases[i], id)) || (!s.open[i] && s.phases[i] != Checked(id)))
  }

  lemma DequeueBehind(queue: seq<Task>, id: nat)
    requires IsBehindClose(queue, id) && queue[0].Functor?
    ensures queue[0] != Functor(id) && IsBehindClose(queue[1..], id)
  {
    var p :| 0 <= p < |queue| && queue[p].CloseTask? && Functor(id) !in queue[..p + 1];
    assert queue[..p + 1][0] == queue[0];
    assert queue[1..][p - 1] == queue[p] && queue[..p + 1] == [queue[0]] + queue[1..][..p];
  }

  lemma EnqueueBehind(queue: seq<Task>, id: nat, task: Task)
    requires IsBehindClose(queue, id)
    ensures IsBehindClose(queue + [task], id)
  {
    var p :| 0 <= p < |queue| && queue[p].CloseTask? && Functor(id) !in queue[..p + 1];
    assert (queue + [task])[..p + 1] == queue[..p + 1];
  }

  lemma DoomedStep(s: State, step: Step, i: nat, id: nat)
    requires Inv(s) && Enabled(s, step) && i < NInstances(s) && IsDoomed(s, i, id)
    requires step != RunClose(i, true)
    ensures IsDoomed(Apply(s, step), i, id)
  {
    assert InstanceInv(s, i);
    var t := Apply(s, step);
    if IsBehindClose(s.queues[i], id) && !IsPending(s.phases[i], id) {
      if step == Take(i) {
        DequeueBehind(s.queues[i], id);
      } else if t.queues[i] == s.queues[i] + [Functor(s.nextId)] {
        EnqueueBehind(s.queues[i], id, Functor(s.nextId));
      } else if t.queues[i] == s.queues[i] + [CloseTask] {
        EnqueueBehind(s.queues[i], id, CloseTask);
      }
    }
    forall k | 0 <= k < NInstances(s) && k != i
      ensures Functor(id) !in t.queues[k] && !IsPending(t.phases[k], id)
    {
      DoomedElsewhere(s, step, k, id);
    }
  }

  lemma DoomedElsewhere(s: State, step: Step, k: nat, id: nat)
    requires Inv(s) && Enabled(s, step) && k < NInstances(s) && id < s.nextId
    requires Functor(id) !in s.queues[k] && !IsPending(s.phases[k], id)
    ensures Functor(id) !in Apply(s, step).queues[k] && !IsPending(Apply(s, step).phases[k], id)
  {
  }

  ghost predicate CloseSucceeds(steps: seq<Step>, i: nat)
  {
    forall k :: 0 <= k < |steps| ==> steps[k] != RunClose(i, true)
  }

  lemma {:induction false} DoomedStays(states: seq<State>, steps: seq<Step>, m: nat, k: nat, i: nat, id: nat)
    requires IsRun(states, steps) && m <= k < |states| && CloseSucceeds(steps, i)
    requires WellFormed(states[m]) && i < NInstances(states[m]) && IsDoomed(states[m], i, id)
    ensures WellFormed(states[k]) && i < NInstances(states[k]) && IsDoomed(states[k], i, id)
  {
    if m < k {
      DoomedStays(states, steps, m, k - 1, i, id);
      RunKeepsInv(states, steps, k - 1);
      assert IsStep(states[k - 1], steps[k - 1], states[k]);
      DoomedStep(states[k - 1], steps[k - 1], i, id);
    }
  }

  /** A task queued behind a close that does not leave its table open is never started. */
  lemma QueuedBehindCloseFails(states: seq<State>, steps: seq<Step>, m: nat, k: nat)
    requires IsRun(states, steps) && m < |steps| && m < k < |states|
    requires steps[m].Queue? && CloseSucceeds(steps, steps[m].i)
    requires steps[m].i < |states[m].queues| && CloseTask in states[m].queues[steps[m].i]
    ensures states[m].nextId !in states[k].started
  {
    var i, id := steps[m].i, states[m].nextId;
    RunKeepsIds(states, steps, m);
    assert IsStep(states[m], steps[m], states[m + 1]);
    QueuedIsBehind(states, steps, m);
    DoomedStays(states, steps, m + 1, k, i, id);
  }

  // ----- what becomes of those tasks depends on the table alone

  // The step is the close of instance i, by its own worker or by the closer itself.
  ghost predicate IsCloseOf(s: State, step: Step, i: nat, leavesOpen: bool)
  {
    || step == RunClose(i, leavesOpen)
    || (step == SubmitClose(leavesOpen) && s.closer == Submitting(i, Some(i)))
  }

  lemma CloseSets(s: State, step: Step, i: nat, leavesOpen: bool)
    requires Inv(s) && Enabled(s, step) && IsCloseOf(s, step, i, leavesOpen) && i < NInstances(s)
    ensures Apply(s, step).closeRan[i] && (Apply(s, step).open[i] <==> leavesOpen)
  {
    assert InstanceInv(s, i);
  }

  lemma ClosePersists(s: State, step: Step, i: nat)
    requires Inv(s) && Enabled(s, step) && i < NInstances(s) && s.closeRan[i]
    ensures Apply(s, step).closeRan[i] && Apply(s, step).open[i] == s.open[i]
  {
    assert InstanceInv(s, i);
  }

  /** Each table is closed once: from then on it is open exactly if that close left it so. */
  lemma {:induction false} CloseDecides(states: seq<State>, steps: seq<Step>, r: nat, k: nat, i: nat, leavesOpen: bool)
    requires IsRun(states, steps) && r < k < |states| && IsCloseOf(states[r], steps[r], i, leavesOpen)
    ensures i < |states[k].closeRan| && i < |states[k].open|
    ensures states[k].closeRan[i] && (states[k].open[i] <==> leavesOpen)
  {
    RunKeepsInv(states, steps, k - 1);
    assert IsStep(states[k - 1], steps[k - 1], states[k]);
    if r < k - 1 {
      CloseDecides(states, steps, r, k - 1, i, leavesOpen);
      ClosePersists(states[k - 1], steps[k - 1], i);
    } else {
      CloseSets(states[r], steps[r], i, leavesOpen);
    }
  }

  // From its queueing on the task waits behind the close, until that has run.
  lemma {:induction false} WaitsUntilClosed(states: seq<State>, steps: seq<Step>, m: nat, k: nat, i: nat, id: nat)
    requires IsRun(states, steps) && m <= k < |states| && WellFormed(states[m]) && i < NInstances(states[m])
    requires id < states[m].nextId && IsBehindClose(states[m].queues[i], id) && !IsPending(states[m].phases[i], id)
    ensures WellFormed(states[k]) && i < NInstances(states[k]) && id < states[k].nextId
    ensures (exists r :: m <= r < k && IsCloseStep(steps[r], i))
         || (IsBehindClose(states[k].queues[i], id) && !IsPending(states[k].phases[i], id))
  {
    if m < k {
      WaitsUntilClosed(states, steps, m, k - 1, i, id);
      assert IsStep(states[k - 1], steps[k - 1], states[k]);
      if IsCloseStep(steps[k - 1], i) {
      } else if forall r :: m <= r < k - 1 ==> !IsCloseStep(steps[r], i) {
        WaitingStep(states[k - 1], steps[k - 1], i, id);
      }
    }
  }

  ghost predicate IsCloseStep(step: Step, i: nat)
  {
    step.RunClose? && step.i == i
  }

  lemma WaitingStep(s: State, step: Step, i: nat, id: nat)
    requires WellFormed(s) && Enabled(s, step) && i < NInstances(s) && id < s.nextId && !IsCloseStep(step, i)
    requires IsBehindClose(s.queues[i], id) && !IsPending(s.phases[i], id)
    ensures IsBehindClose(Apply(s, step).queues[i], id) && !IsPending(Apply(s, step).phases[i], id)
  {
    var t := Apply(s, step);
    if step == Take(i) {
      DequeueBehind(s.queues[i], id);
    } else if t.queues[i] == s.queues[i] + [Functor(s.nextId)] {
      EnqueueBehind(s.queues[i], id, Functor(s.nextId));
    } else if t.queues[i] == s.queues[i] + [CloseTask] {
      EnqueueBehind(s.queues[i], id, CloseTask);
    }
  }

  lemma QueuedIsBehind(states: seq<State>, steps: seq<Step>, m: nat)
    requires IsRun(states, steps) && m < |steps| && steps[m].Queue?
    requires steps[m].i < |states[m].queues| && CloseTask in states[m].queues[steps[m].i]
    ensures WellFormed(states[m + 1]) && steps[m].i < NInstances(states[m + 1])
    ensures IsBehindClose(states[m + 1].queues[steps[m].i], states[m].nextId)
    ensures !IsPending(states[m + 1].phases[steps[m].i], states[m].nextId) && states[m].nextId < states[m + 1].nextId
  {
    var i, id := steps[m].i, states[m].nextId;
    RunKeepsIds(states, steps, m);
    assert IsStep(states[m], steps[m], states[m + 1]);
    var queue := states[m].queues[i];
    var p :| 0 <= p < |queue| && queue[p] == CloseTask;
    assert (queue + [Functor(id)])[..p + 1] == queue[..p + 1];
    assert Functor(id) !in queue;
  }

  /**
   A task queued behind the close of its instance gets to look at the table only after that
   close has run, and is let through exactly if the close left the table open.
   */
  lemma QueuedBehindCloseIsLetThrough(states: seq<State>, steps: seq<Step>, m: nat, k: nat) returns (r: nat)
    requires IsRun(states, steps) && m < k < |steps| && steps[m].Queue?
    requires steps[m].i < |states[m].queues| && CloseTask in states[m].queues[steps[m].i]
    requires steps[k] == LookAtTable(steps[m].i) && steps[m].i < |states[k].phases|
    requires states[k].phases[steps[m].i] == Taken(states[m].nextId)
    ensures m < r < k && IsCloseStep(steps[r], steps[m].i)
    ensures steps[m].i < |states[k + 1].phases|
    ensures states[k + 1].phases[steps[m].i] == Checked(states[m].nextId) <==> steps[r].leavesOpen
  {
    var i, id := steps[m].i, states[m].nextId;
    QueuedIsBehind(states, steps, m);
    WaitsUntilClosed(states, steps, m + 1, k, i, id);
    r :| m + 1 <= r < k && IsCloseStep(steps[r], i);
    CloseDecides(states, steps, r, k, i, steps[r].leavesOpen);
    assert IsStep(states[k], steps[k], states[k + 1]);
  }

  lemma Extend(states: seq<State>, steps: seq<Step>, step: Step, t: State)
    requires IsRun(states, steps) && IsStep(states[|steps|], step, t)
    ensures IsRun(states + [t], steps + [step])
  {
  }

  // One instance, with a task queued behind its close.
  lemma QueueBehindClose() returns (states: seq<State>, steps: seq<Step>)
    ensures IsRun(states, steps) && |steps| == 5
    ensures steps[4] == Queue(0) && states[4].queues == [[CloseTask]] && states[4].nextId == 0
    ensures states[5] == State(false, [true], [[CloseTask, Functor(0)]], [Idle], [false], Waiting(None), 0, 1, {})
  {
    var s0 := State(false, [true], [[]], [Idle], [false], NotStarted, 0, 0, {});
    var s1 := s0.(callers := 1);
    var s2 := s1.(closer := Submitting(0, None));
    var s3 := s2.(closer := Submitting(1, None), queues := [[CloseTask]]);
    var s4 := s3.(closer := Waiting(None));
    var s5 := s4.(callers := 0, nextId := 1, queues := [[CloseTask, Functor(0)]]);
    assert s2.queues[0] + [CloseTask] == [CloseTask];
    assert s4.queues[0] + [Functor(0)] == [CloseTask, Functor(0)];
    assert IsRun([s0], []);
    Extend([s0], [], LookAtFlag, s1);
    Extend([s0] + [s1], [] + [LookAtFlag], BeginClose(None), s2);
    states, steps := [s0] + [s1] + [s2], [] + [LookAtFlag] + [BeginClose(None)];
    Extend(states, steps, SubmitClose(false), s3);
    states, steps := states + [s3], steps + [SubmitClose(false)];
    Extend(states, steps, StartWaiting, s4);
    states, steps := states + [s4], steps + [StartWaiting];
    Extend(states, steps, Queue(0), s5);
    states, steps := states + [s5], steps + [Queue(0)];
  }

  // Once the close has run without closing the table, the task is taken.
  lemma TakeBehindClose() returns (states: seq<State>, steps: seq<Step>)
    ensures IsRun(states, steps) && |steps| == 7
    ensures steps[4] == Queue(0) && states[4].queues == [[CloseTask]] && states[4].nextId == 0
    ensures states[7] == State(false, [true], [[]], [Taken(0)], [true], Waiting(None), 0, 1, {})
  {
    states, steps := QueueBehindClose();
    var s6 := states[5].(queues := [[Functor(0)]], closeRan := [true]);
    var s7 := s6.(queues := [[]], phases := [Taken(0)]);
    assert [CloseTask, Functor(0)][1..] == [Functor(0)] && [Functor(0)][1..] == [];
    Extend(states, steps, RunClose(0, true), s6);
    states, steps := states + [s6], steps + [RunClose(0, true)];
    Extend(states, steps, Take(0), s7);
    states, steps := states + [s7], steps + [Take(0)];
  }

  /** A run in which the close leaves the table open, and a task queued behind it starts. */
  lemma QueuedBehindOpenTableMayStart() returns (states: seq<State>, steps: seq<Step>)
    ensures IsRun(states, steps) && |steps| == 9
    ensures steps[4] == Queue(0) && 0 < |states[4].queues| && CloseTask in states[4].queues[0]
    ensures states[4].nextId in states[9].started
  {
    states, steps := TakeBehindClose();
    assert states[4].queues[0] == [CloseTask] && CloseTask in [CloseTask];
    var s8 := states[7].(phases := [Checked(0)]);
    var s9 := s8.(phases := [Running(0)], started := {0});
    Extend(states, steps, LookAtTable(0), s8);
    states, steps := states + [s8], steps + [LookAtTable(0)];
    Extend(states, steps, Start(0), s9);
    states, steps := states + [s9], steps + [Start(0)];
  }

  // ----- the close finishes

  // The steps until the close at the head of the queue has run, once nothing is queued behind it.
  function StepsAhead(queue: seq<Task>): nat
  {
    if queue == [] then 0
    else if queue[0].CloseTask? then 1
    else 4 + StepsAhead(queue[1..])
  }

  function StepsLeft(phase: Phase): nat
  {
    match phase
    case Idle => 0
    case Running(_) => 1
    case Checked(_) => 2
    case Taken(_) => 3
  }

  // The most steps that the worker of instance i takes until its close has run.
  function Rank(s: State, i: nat): nat
    requires i < |s.closeRan| && i < |s.phases| && i < |s.queues|
  {
    if s.closeRan[i] then 0 else StepsLeft(s.phases[i]) + StepsAhead(s.queues[i])
  }

  function TotalRank(s: State, n: nat): nat
    requires n <= |s.closeRan| && n <= |s.phases| && n <= |s.queues|
  {
    if n == 0 then 0 else TotalRank(s, n - 1) + Rank(s, n - 1)
  }

  lemma {:induction false} AheadAppend(queue: seq<Task>, task: Task)
    requires CloseTasks(queue) > 0
    ensures StepsAhead(queue + [task]) == StepsAhead(queue)
  {
    assert (queue + [task])[1..] == queue[1..] + [task];
    if queue[0].Functor? {
      AheadAppend(queue[1..], task);
    }
  }

  // The worker that takes a step, for an instance whose close has not run.
  ghost predicate WorksTowardsClose(s: State, step: Step)
    requires WellFormed(s) && Enabled(s, step)
  {
    match step
    case Take(i) => !s.closeRan[i]
    case RunClose(i, _) => !s.closeRan[i]
    case LookAtTable(i) => !s.closeRan[i]
    case Start(i) => !s.closeRan[i]
    case Finish(i) => !s.closeRan[i]
    case _ => false
  }

  function WorkerOf(step: Step): Option<nat>
  {
    match step
    case Take(i) => Some(i)
    case RunClose(i, _) => Some(i)
    case LookAtTable(i) => Some(i)
    case Start(i) => Some(i)
    case Finish(i) => Some(i)
    case _ => None
  }

  lemma RankStep(s: State, step: Step, i: nat)
    requires Inv(s) && s.closer.Waiting? && Enabled(s, step) && i < NInstances(s)
    ensures Rank(Apply(s, step), i) <= Rank(s, i)
    ensures WorksTowardsClose(s, step) && WorkerOf(step) == Some(i) ==> Rank(Apply(s, step), i) < Rank(s, i)
  {
    assert InstanceInv(s, i);
    if step.Queue? && step.i == i && !s.closeRan[i] {
      AheadAppend(s.queues[i], Functor(s.nextId));
    }
  }

  lemma {:induction false} TotalRankStep(s: State, step: Step, n: nat)
    requires Inv(s) && s.closer.Waiting? && Enabled(s, step) && n <= NInstances(s)
    ensures TotalRank(Apply(s, step), n) + (if WorksTowardsClose(s, step) && WorkerOf(step).value < n then 1 else 0)
          <= TotalRank(s, n)
  {
    if n > 0 {
      TotalRankStep(s, step, n - 1);
      RankStep(s, step, n - 1);
    }
  }

  // How many of the steps from m on work towards a close.
  ghost function WorkDone(states: seq<State>, steps: seq<Step>, m: nat, k: nat): nat
    requires IsRun(states, steps) && m <= k <= |steps|
  {
    if m == k then 0
    else
      assert IsStep(states[k - 1], steps[k - 1], states[k]);
      WorkDone(states, steps, m, k - 1) + if WorksTowardsClose(states[k - 1], steps[k - 1]) then 1 else 0
  }

  /**
   While the closer waits, the workers take no more steps towards the closes than their
   rank at its start: those queued tasks cannot be overtaken.
   */
  lemma {:induction false} WaitIsBounded(states: seq<State>, steps: seq<Step>, m: nat, k: nat)
    requires IsRun(states, steps) && m <= k <= |steps|
    requires forall q :: m <= q < k ==> states[q].closer.Waiting?
    ensures WellFormed(states[m]) && WellFormed(states[k])
    ensures WorkDone(states, steps, m, k) + TotalRank(states[k], NInstances(states[k]))
          <= TotalRank(states[m], NInstances(states[m]))
  {
    RunKeepsInv(states, steps, m);
    if m < k {
      WaitIsBounded(states, steps, m, k - 1);
      RunKeepsInv(states, steps, k - 1);
      assert IsStep(states[k - 1], steps[k - 1], states[k]);
      TotalRankStep(states[k - 1], steps[k - 1], NInstances(states[k - 1]));
    }
  }

  // The step that the worker of instance i can take.
  function NextOf(s: State, i: nat): Step
    requires i < |s.phases| && i < |s.queues| && (s.phases[i].Idle? ==> s.queues[i] != [])
  {
    match s.phases[i]
    case Idle => if s.queues[i][0].CloseTask? then RunClose(i, false) else Take(i)
    case Taken(_) => LookAtTable(i)
    case Checked(_) => Start(i)
    case Running(_) => Finish(i)
  }

  /**
   The close never gets stuck: the closer can always submit the next close, and when it
   waits, it either can end or every instance whose close has not run has a worker that
   can take a step towards it.
   */
  lemma CloseProgresses(states: seq<State>, steps: seq<Step>, k: nat)
    requires IsRun(states, steps) && k < |states|
    ensures WellFormed(states[k])
    ensures states[k].closer.Submitting? ==> Enabled(states[k], SubmitClose(false)) || Enabled(states[k], StartWaiting)
    ensures states[k].closer.Waiting? ==> Enabled(states[k], EndClose) || AllCanWork(states[k])
  {
    var s := states[k];
    RunKeepsInv(states, steps, k);
    if s.closer.Waiting? {
      forall i | 0 <= i < NInstances(s) && !s.closeRan[i]
        ensures CanWork(s, i)
      {
        assert InstanceInv(s, i);
      }
    }
  }

  // Every instance whose close has not run has a worker that can take a step towards it.
  ghost predicate AllCanWork(s: State)
    requires WellFormed(s)
  {
    forall i :: 0 <= i < NInstances(s) && !s.closeRan[i] ==> CanWork(s, i)
  }

  ghost predicate CanWork(s: State, i: nat)
    requires WellFormed(s) && i < NInstances(s)
  {
    && (s.phases[i].Idle? ==> s.queues[i] != [])
    && Enabled(s, NextOf(s, i)) && WorksTowardsClose(s, NextOf(s, i))
  }

  lemma {:induction false} RankOfUnclosed(s: State, i: nat, n: nat)
    requires Inv(s) && s.closer.Waiting? && i < n <= NInstances(s) && !s.closeRan[i]
    ensures TotalRank(s, n) > 0
  {
    if i < n - 1 {
      RankOfUnclosed(s, i, n - 1);
    } else {
      assert InstanceInv(s, i);
      AheadOfClose(s.queues[i]);
    }
  }

  lemma {:induction false} AheadOfClose(queue: seq<Task>)
    requires CloseTasks(queue) > 0
    ensures StepsAhead(queue) > 0
  {
    if queue[0].Functor? {
      AheadOfClose(queue[1..]);
    }
  }

  /** Once the workers have taken that many steps, however they were interleaved with others, the close ends. */
  lemma WaitEnds(states: seq<State>, steps: seq<Step>, m: nat, k: nat)
    requires IsRun(states, steps) && m <= k <= |steps| && WellFormed(states[m])
    requires forall q :: m <= q <= k ==> states[q].closer.Waiting?
    requires WorkDone(states, steps, m, k) >= TotalRank(states[m], NInstances(states[m]))
    ensures WellFormed(states[k]) && Enabled(states[k], EndClose)
  {
    var s := states[k];
    WaitIsBounded(states, steps, m, k);
    RunKeepsInv(states, steps, k);
    forall i | 0 <= i < NInstances(s)
      ensures s.closeRan[i]
    {
      if !s.closeRan[i] {
        RankOfUnclosed(s, i, NInstances(s));
      }
    }
  }
}
