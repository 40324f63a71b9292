/** Whole runs of the scheduler: safety in every reachable state, deadlock freedom, and a bound on
    the number of calls. */
module SchedulerRuns {
  import opened Deque
  import opened DependencyGraph
  import opened CycleDetection
  import opened SchedulerState
  import opened Multisets
  import opened SchedulerInvariant

  /** Every step of the run is one its callers may take. */
  ghost predicate Allowed(c: Config, s: State, steps: seq<Step>)
    decreases |steps|, 0
  {
    steps == [] ||
    (Allowed(c, s, steps[..|steps| - 1]) &&
     Enabled(c, After(c, s, steps[..|steps| - 1]), steps[|steps| - 1]))
  }

  ghost function After(c: Config, s: State, steps: seq<Step>): State
    requires Allowed(c, s, steps)
    decreases |steps|, 1
  {
    if steps == [] then s
    else Do(c, After(c, s, steps[..|steps| - 1]), steps[|steps| - 1])
  }

  // ---------------------------------------------------------------- safety

  /** In every state of every run from an empty scheduler, whatever the aborts name, each task is
      in exactly one place and nothing is scheduled before its dependencies completed. */
  lemma {:induction false} RunsKeepCore(c: Config, s: State, steps: seq<Step>)
    requires Core(c, s) && Allowed(c, s, steps)
    ensures Core(c, After(c, s, steps))
  {
    if steps != [] {
      RunsKeepCore(c, s, steps[..|steps| - 1]);
      StepKeeps(c, After(c, s, steps[..|steps| - 1]), steps[|steps| - 1]);
    }
  }

  /** A step forgets no dependency and undoes no completion. */
  ghost predicate Extends(s: State, s': State) {
    && (forall x | IsCompleted(s, x) :: IsCompleted(s', x))
    && (forall x, d | x in s.status && Edge(s.deps, x, d) :: x in s'.status && Edge(s'.deps, x, d))
  }

  lemma ScheduledExtends(s: State, s': State, xs: seq<Id>)
    requires Scheduled(s, s', xs)
    requires forall x | x in xs :: HasStatus(s, x, Pending)
    ensures Extends(s, s')
  {
    ScheduledStatus(s, s', xs);
  }

  lemma RegistersExtends(s: State, s': State, xs: set<Id>)
    requires Registers(s, s', xs) && s.status.Keys == s.tasks.Keys
    ensures Extends(s, s')
  {}

  lemma NewOnesPending(s: State, s': State, xs: set<Id>, x: Id)
    requires Registers(s, s', xs) && x in xs
    ensures HasStatus(s', x, Pending)
  {}

  lemma FoundPending(s: State, ts: seq<Task>)
    requires Distinct(Ids(ts)) && Registers(s, RegisterAll(s, ts), IdsOf(ts))
    ensures var s1 := RegisterAll(s, ts);
      forall x | x in FindReady(s1, ts) :: HasStatus(s1, x, Pending)
  {
    var s1 := RegisterAll(s, ts);
    FindReadyFinds(s1, ts);
    hide RegisterAll, FindReady;
    forall x | x in FindReady(s1, ts) ensures HasStatus(s1, x, Pending) {
      assert multiset(FindReady(s1, ts))[x] > 0;
      NewOnesPending(s, s1, IdsOf(ts), x);
    }
  }

  lemma AddExtends(c: Config, s: State, ts: seq<Task>)
    requires Core(c, s) && Submittable(c, s, ts)
    ensures Extends(s, AddTasks(c, s, ts))
  {
    hide AddTasks, FindReady, RegisterAll, Scheduled, Registers, WorkersOk, PlacedOnce, Reversed;
    hide ScheduledAfterDeps, Rejects;
    var s1 := RegisterAll(s, ts);
    AddKeeps(c, s, ts);
    RegistersExtends(s, s1, IdsOf(ts));
    if !Rejects(c, s, ts) {
      FoundPending(s, ts);
      ScheduledExtends(s1, AddTasks(c, s, ts), FindReady(s1, ts));
    }
  }

  lemma CompleteExtends(c: Config, s: State, x: Id, order: seq<nat>)
    requires Core(c, s) && HasStatus(s, x, Running) && order != []
    ensures Extends(s, Complete(c, s, x, order))
  {
    hide Core, Complete, Woken, Scheduled;
    var s1 := MarkCompleted(s, x);
    CompleteKeeps(c, s, x, order);
    WokenExactly(c, s, x);
    forall y | y in Woken(s1, x) ensures HasStatus(s1, y, Pending) {
      assert multiset(Woken(s1, x))[y] > 0;
    }
    assert Extends(s, s1);
    ScheduledExtends(s1, Complete(c, s, x, order), Woken(s1, x));
  }

  lemma AbortExtends(s: State, x: Id, d: Id)
    requires HasStatus(s, x, Running)
    ensures Extends(s, Abort(s, x, d))
  {}

  lemma StepExtends(c: Config, s: State, step: Step)
    requires Core(c, s) && Enabled(c, s, step)
    ensures Extends(s, Do(c, s, step))
  {
    if step.SetRunningStep? { CarriedIsReady(c, s, step.w); }
    hide Core, AddTasks, Complete, Abort, Submittable;
    match step
    case Add(ts) => AddExtends(c, s, ts);
    case CompleteStep(x, order) => CompleteExtends(c, s, x, order);
    case AbortStep(x, d) => AbortExtends(s, x, d);
    case _ =>
  }

  /** Completed for good, and dependencies only grow. */
  lemma {:induction false} RunsExtend(c: Config, s: State, steps: seq<Step>)
    requires Core(c, s) && Allowed(c, s, steps)
    ensures Extends(s, After(c, s, steps))
  {
    if steps != [] {
      var front := steps[..|steps| - 1];
      RunsExtend(c, s, front);
      RunsKeepCore(c, s, front);
      StepExtends(c, After(c, s, front), steps[|steps| - 1]);
    }
  }

  // ---------------------------------------------------------------- liveness

  ghost predicate Known(s: State) {
    forall x, d | Edge(s.deps, x, d) :: d in s.status
  }

  /** Everything waited for is a known task, and nothing waits for itself. */
  ghost predicate Live(c: Config, s: State) {
    Inv(c, s) && Acyclic(s.deps) && Known(s)
  }

  /** AddTasks is given known dependencies and closes no cycle, which it checks itself when
      dependency analysis is on; an abort names an incomplete task that does not depend on the
      aborted one. */
  ghost predicate Diligent(c: Config, s: State, step: Step) {
    match step
    case Add(ts) =>
      !CycleReachable(RegisterAll(s, ts).deps, Ids(ts)) && KnownDeps(s, ts)
    case AbortStep(x, d) => d in s.status && !IsCompleted(s, d) && d != x && !Reaches(s.deps, d, x)
    case _ => true
  }

  ghost predicate KnownDeps(s: State, ts: seq<Task>) {
    forall i, d | 0 <= i < |ts| && d in ts[i].deps :: d in s.status || d in IdsOf(ts)
  }

  lemma {:induction false} DepsOfRegistered(s: State, ts: seq<Task>)
    requires Distinct(Ids(ts))
    ensures forall i | 0 <= i < |ts| :: DepsOf(RegisterAll(s, ts).deps, ts[i].id) == ts[i].deps
  {
    if ts != [] {
      var front, t := ts[..|ts| - 1], ts[|ts| - 1];
      FrontIds(ts);
      DepsOfRegistered(s, front);
      forall i | 0 <= i < |ts| ensures DepsOf(RegisterAll(s, ts).deps, ts[i].id) == ts[i].deps {
        if i < |front| { assert front[i].id in IdsOf(front); }
      }
    }
  }

  /** AddTasks of new tasks to an acyclic graph leaves the whole graph acyclic exactly when no
      cycle is reachable from them; so it does whenever it succeeds with dependency analysis on. */
  lemma AcceptedKeepsAcyclic(c: Config, s: State, ts: seq<Task>)
    requires Core(c, s) && Acyclic(s.deps) && Submittable(c, s, ts)
    ensures Acyclic(AddTasks(c, s, ts).deps) <==> !CycleReachable(RegisterAll(s, ts).deps, Ids(ts))
    ensures c.dependencyAnalysis ==> (Acyclic(AddTasks(c, s, ts).deps) <==> !Rejects(c, s, ts))
  {
    AddKeeps(c, s, ts);
    var g' := RegisterAll(s, ts).deps;
    hide Core, RegisterAll, Scheduled, AddTasks;
    assert forall i | 0 <= i < |ts| :: Ids(ts)[i] == ts[i].id;
    AcyclicAfterAdding(s.deps, g', Ids(ts));
    if !Rejects(c, s, ts) {
      ScheduledDeps(RegisterAll(s, ts), AddTasks(c, s, ts), FindReady(RegisterAll(s, ts), ts));
    }
  }

  lemma ScheduledDeps(s: State, s': State, xs: seq<Id>)
    requires Scheduled(s, s', xs)
    ensures s'.deps == s.deps
  {}

  lemma AddStatusKeys(c: Config, s: State, ts: seq<Task>)
    requires Core(c, s) && Submittable(c, s, ts) && !Rejects(c, s, ts)
    ensures AddTasks(c, s, ts).deps == RegisterAll(s, ts).deps
    ensures AddTasks(c, s, ts).status.Keys == s.status.Keys + IdsOf(ts)
  {
    hide AddTasks, FindReady, RegisterAll, Scheduled, Registers, Core, Rejects;
    var s1 := RegisterAll(s, ts);
    AddKeeps(c, s, ts);
    FoundPending(s, ts);
    ScheduledGraph(s1, AddTasks(c, s, ts), FindReady(s1, ts));
    RegisteredKeys(s, s1, IdsOf(ts));
  }

  lemma RegisteredKeys(s: State, s': State, xs: set<Id>)
    requires Registers(s, s', xs)
    ensures s'.status.Keys == s.status.Keys + xs
  {}

  lemma AddKnown(c: Config, s: State, ts: seq<Task>)
    requires Core(c, s) && Known(s) && Addable(c, s, ts)
    ensures Known(AddTasks(c, s, ts)) <==> KnownDeps(s, ts)
  {
    AddKeeps(c, s, ts);
    DepsOfRegistered(s, ts);
    AddStatusKeys(c, s, ts);
    var s1, s' := RegisterAll(s, ts), AddTasks(c, s, ts);
    hide Core, RegisterAll, AddTasks, Rejects;
    if KnownDeps(s, ts) {
      forall x, d | Edge(s'.deps, x, d) ensures d in s'.status {
        if x in IdsOf(ts) {
          var i :| 0 <= i < |ts| && ts[i].id == x;
          assert d in ts[i].deps;
        } else {
          assert Edge(s.deps, x, d);
        }
      }
    } else {
      var i, d :| 0 <= i < |ts| && d in ts[i].deps && d !in s.status && d !in IdsOf(ts);
      assert Edge(s'.deps, ts[i].id, d);
    }
  }

  /** Steps other than AddTasks and AbortTask leave the dependencies and the set of tasks alone. */
  lemma GraphUnchanged(c: Config, s: State, step: Step)
    requires Core(c, s) && Enabled(c, s, step) && !step.Add? && !step.AbortStep?
    ensures Do(c, s, step).deps == s.deps && Do(c, s, step).status.Keys == s.status.Keys
  {
    match step
    case SetRunningStep(w) => CarriedIsReady(c, s, w);
    case CompleteStep(x, order) =>
      CompleteKeeps(c, s, x, order);
      WokenExactly(c, s, x);
      var s1 := MarkCompleted(s, x);
      hide Core, Complete, Woken, Scheduled;
      forall y | y in Woken(s1, x) ensures HasStatus(s1, y, Pending) {
        assert multiset(Woken(s1, x))[y] > 0;
      }
      ScheduledGraph(s1, Complete(c, s, x, order), Woken(s1, x));
    case _ =>
  }

  lemma ScheduledGraph(s: State, s': State, xs: seq<Id>)
    requires Scheduled(s, s', xs) && forall x | x in xs :: HasStatus(s, x, Pending)
    ensures s'.deps == s.deps && s'.status.Keys == s.status.Keys
  {
    ScheduledStatus(s, s', xs);
  }

  lemma AbortDeps(c: Config, s: State, x: Id, d: Id)
    requires Core(c, s) && HasStatus(s, x, Running) && !IsCompleted(s, d)
    ensures d !in DepsOf(s.deps, x)
    ensures Abort(s, x, d).deps == AddEdge(s.deps, x, d) && Abort(s, x, d).status == s.status[x := Pending]
  {
    assert Edge(s.deps, x, d) ==> IsCompleted(s, d);
  }

  lemma AddStaysLive(c: Config, s: State, ts: seq<Task>)
    requires Live(c, s) && Submittable(c, s, ts)
    ensures Live(c, AddTasks(c, s, ts)) <==> Diligent(c, s, Add(ts))
  {
    AcceptedKeepsAcyclic(c, s, ts);
    AddKeeps(c, s, ts);
    if !Rejects(c, s, ts) { AddKnown(c, s, ts); }
    hide Core, PendingWaits, AddTasks, Submittable, RegisterAll, Known;
  }

  lemma AbortWakes(c: Config, s: State, x: Id, d: Id)
    requires Inv(c, s) && HasStatus(s, x, Running)
    ensures Inv(c, Abort(s, x, d)) <==> !IsCompleted(s, d)
  {
    AbortKeepsCore(c, s, x, d);
    AbortWaits(c, s, x, d);
    hide Core, PendingWaits, Abort;
  }

  /** AbortTask checks nothing: waiting stays live exactly when the named dependency is known,
      incomplete, another task, and does not depend on the aborted one. */
  lemma AbortStaysLive(c: Config, s: State, x: Id, d: Id)
    requires Live(c, s) && HasStatus(s, x, Running)
    ensures Live(c, Abort(s, x, d)) <==> Diligent(c, s, AbortStep(x, d))
  {
    AbortWakes(c, s, x, d);
    if !IsCompleted(s, d) {
      AbortDeps(c, s, x, d);
      AddEdgeKeepsAcyclic(s.deps, x, d);
      var s' := Abort(s, x, d);
      hide Core, PendingWaits, Abort, Acyclic, Reaches;
      assert Edge(s'.deps, x, d);
      if d in s.status {
        forall y, e | Edge(s'.deps, y, e) ensures e in s'.status {
          if !(y == x && e == d) { assert Edge(s.deps, y, e); }
        }
      }
    }
  }

  /** A step leaves the scheduler live exactly when its caller was diligent. */
  lemma StepStaysLive(c: Config, s: State, step: Step)
    requires Live(c, s) && Enabled(c, s, step)
    ensures Live(c, Do(c, s, step)) <==> Diligent(c, s, step)
  {
    hide Core, PendingWaits, AddTasks, Complete, Abort, Submittable, Rejects;
    StepKeeps(c, s, step);
    match step
    case Add(ts) => AddStaysLive(c, s, ts);
    case AbortStep(x, d) => AbortStaysLive(c, s, x, d);
    case _ => GraphUnchanged(c, s, step);
  }

  ghost predicate AllDiligent(c: Config, s: State, steps: seq<Step>)
    requires Allowed(c, s, steps)
  {
    steps == [] ||
    (AllDiligent(c, s, steps[..|steps| - 1]) &&
     Diligent(c, After(c, s, steps[..|steps| - 1]), steps[|steps| - 1]))
  }

  lemma {:induction false} RunsStayLive(c: Config, s: State, steps: seq<Step>)
    requires Live(c, s) && Allowed(c, s, steps) && AllDiligent(c, s, steps)
    ensures Live(c, After(c, s, steps))
  {
    if steps != [] {
      RunsStayLive(c, s, steps[..|steps| - 1]);
      StepStaysLive(c, After(c, s, steps[..|steps| - 1]), steps[|steps| - 1]);
    }
  }

  ghost predicate Unfinished(s: State, x: Id) {
    x in s.status && !IsCompleted(s, x)
  }

  /** A state with an unfinished task has one that is Ready or Running. */
  lemma DeadlockFree(c: Config, s: State) returns (x: Id)
    requires Live(c, s) && exists y :: Unfinished(s, y)
    ensures HasStatus(s, x, Ready) || HasStatus(s, x, Running)
  {
    var unfinished := set y | y in s.status && !IsCompleted(s, y);
    var y :| Unfinished(s, y);
    assert y in unfinished;
    MinimalExists(s.deps, unfinished);
    x :| Minimal(s.deps, unfinished, x);
    forall d | d in DepsOf(s.deps, x) ensures IsCompleted(s, d) {
      assert Edge(s.deps, x, d);
    }
    assert DepsCompleted(s, x);
    assert !HasStatus(s, x, Pending);
  }

  // ---------------------------------------------------------------- progress

  lemma PlacedSomewhere(c: Config, s: State, x: Id)
    requires Core(c, s) && HasStatus(s, x, Ready)
    ensures x in s.ready || (exists v :: 0 <= v < |s.queues| && x in s.queues[v])
         || (exists w :: 0 <= w < |s.hands| && s.hands[w] == Some(x))
  {
    assert Placed(s)[x] == 1;
    if multiset(s.ready)[x] == 0 {
      if Sum(Queued(s.queues))[x] > 0 {
        var v := SumHasPart(Queued(s.queues), x);
        assert x in s.queues[v];
      } else {
        var w := SumHasPart(Carried(s.hands), x);
        assert s.hands[w] == Some(x);
      }
    }
  }

  predicate IsWork(step: Step) {
    !step.Add? && !step.AbortStep?
  }

  /** A worker that is not free has a step to take: finish its NextTask call, or complete its task. */
  lemma BusyWorkerSteps(c: Config, s: State, w: nat) returns (step: Step)
    requires Core(c, s) && w < c.numWorkers && !Free(s, w)
    ensures Enabled(c, s, step) && IsWork(step)
  {
    if s.hands[w].Some? {
      step := if s.current[w] == IDLE then SetCurrentStep(w) else SetRunningStep(w);
    } else {
      step := CompleteStep(s.current[w], LoadOrder(s.queues));
    }
  }

  /** While a task is unfinished some worker can take a task, start it or complete it; so a run
      that cannot be extended has completed every task. */
  lemma Progress(c: Config, s: State) returns (step: Step)
    requires Live(c, s) && c.numWorkers > 0 && exists y :: Unfinished(s, y)
    ensures Enabled(c, s, step) && IsWork(step)
  {
    var x := DeadlockFree(c, s);
    if HasStatus(s, x, Running) {
      step := CompleteStep(x, LoadOrder(s.queues));
    } else {
      PlacedSomewhere(c, s, x);
      if w :| 0 <= w < |s.hands| && s.hands[w] == Some(x) {
        step := BusyWorkerSteps(c, s, w);
      } else if x in s.ready {
        if Free(s, 0) { step := TakeReadyStep(0, 0); } else { step := BusyWorkerSteps(c, s, 0); }
      } else {
        var v :| 0 <= v < |s.queues| && x in s.queues[v];
        if Free(s, v) { step := TakeOwnStep(v); } else { step := BusyWorkerSteps(c, s, v); }
      }
    }
  }

  // ---------------------------------------------------------------- the bound

  /** NextTask (counted when it marks the task Running), CompleteTask and AbortTask. */
  function Calls(steps: seq<Step>): nat {
    if steps == [] then 0
    else
      var last := steps[|steps| - 1];
      Calls(steps[..|steps| - 1]) + if last.SetRunningStep? || last.CompleteStep? || last.AbortStep? then 1 else 0
  }

  ghost function WithStatus(s: State, st: Status): set<Id> {
    set x | x in s.status && s.status[x] == st
  }

  /** Every call moves this up by exactly one. */
  ghost function Credit(s: State): nat {
    2 * |EdgeSet(s.deps)| + 2 * |WithStatus(s, Completed)| + |WithStatus(s, Running)|
  }

  predicate NoAdds(steps: seq<Step>) {
    forall i | 0 <= i < |steps| :: !steps[i].Add?
  }

  lemma ScheduledCredit(s: State, s': State, xs: seq<Id>)
    requires Scheduled(s, s', xs) && forall x | x in xs :: HasStatus(s, x, Pending)
    ensures Credit(s') == Credit(s)
  {
    ScheduledStatus(s, s', xs);
    assert WithStatus(s', Completed) == WithStatus(s, Completed) by {
      forall x ensures x in WithStatus(s', Completed) <==> x in WithStatus(s, Completed) {
        assert IsCompleted(s', x) <==> IsCompleted(s, x);
      }
    }
    assert WithStatus(s', Running) == WithStatus(s, Running) by {
      forall x ensures x in WithStatus(s', Running) <==> x in WithStatus(s, Running) {
        assert HasStatus(s', x, Running) <==> HasStatus(s, x, Running);
      }
    }
  }

  lemma MarkCompletedCredit(s: State, x: Id)
    requires HasStatus(s, x, Running)
    ensures Credit(MarkCompleted(s, x)) == Credit(s) + 1
  {
    var s1 := MarkCompleted(s, x);
    assert WithStatus(s1, Completed) == WithStatus(s, Completed) + {x};
    assert WithStatus(s1, Running) == WithStatus(s, Running) - {x};
  }

  lemma CompleteCredit(c: Config, s: State, x: Id, order: seq<nat>)
    requires Core(c, s) && HasStatus(s, x, Running) && order != []
    ensures Credit(Complete(c, s, x, order)) == Credit(s) + 1
  {
    hide Core, Complete, Woken, Scheduled, Credit;
    var s1 := MarkCompleted(s, x);
    CompleteKeeps(c, s, x, order);
    WokenExactly(c, s, x);
    forall y | y in Woken(s1, x) ensures HasStatus(s1, y, Pending) {
      assert multiset(Woken(s1, x))[y] > 0;
    }
    MarkCompletedCredit(s, x);
    ScheduledCredit(s1, Complete(c, s, x, order), Woken(s1, x));
  }

  lemma AbortCredit(c: Config, s: State, x: Id, d: Id)
    requires Core(c, s) && HasStatus(s, x, Running) && !IsCompleted(s, d)
    ensures Credit(Abort(s, x, d)) == Credit(s) + 1
  {
    AbortDeps(c, s, x, d);
    hide Abort;
    var s' := Abort(s, x, d);
    assert WithStatus(s', Completed) == WithStatus(s, Completed);
    assert WithStatus(s', Running) == WithStatus(s, Running) - {x};
    forall e: (Id, Id) ensures e in EdgeSet(s'.deps) <==> e in EdgeSet(s.deps) + {(x, d)} {
      InEdgeSet(s'.deps, e.0, e.1);
      InEdgeSet(s.deps, e.0, e.1);
    }
    assert EdgeSet(s'.deps) == EdgeSet(s.deps) + {(x, d)};
    InEdgeSet(s.deps, x, d);
  }

  lemma SameStatusCredit(s: State, s': State)
    requires s'.status == s.status && s'.deps == s.deps
    ensures Credit(s') == Credit(s)
  {
    assert WithStatus(s', Completed) == WithStatus(s, Completed);
    assert WithStatus(s', Running) == WithStatus(s, Running);
  }

  lemma StepCredit(c: Config, s: State, step: Step)
    requires Core(c, s) && Enabled(c, s, step) && Diligent(c, s, step) && !step.Add?
    ensures Credit(Do(c, s, step)) == Credit(s) + Calls([step])
  {
    var s' := Do(c, s, step);
    match step
    case SetRunningStep(w) =>
      CarriedIsReady(c, s, w);
      assert WithStatus(s', Completed) == WithStatus(s, Completed);
      assert WithStatus(s', Running) == WithStatus(s, Running) + {s.hands[w].value};
    case CompleteStep(x, order) => CompleteCredit(c, s, x, order);
    case AbortStep(x, d) => AbortCredit(c, s, x, d);
    case TakeOwnStep(_) => SameStatusCredit(s, s');
    case StealStep(_, _) => SameStatusCredit(s, s');
    case TakeReadyStep(_, _) => SameStatusCredit(s, s');
    case SetCurrentStep(_) => SameStatusCredit(s, s');
  }

  /** AddTasks completes and stops nothing, and forgets no dependency. */
  lemma AddCredit(c: Config, s: State, ts: seq<Task>)
    requires Core(c, s) && Submittable(c, s, ts)
    ensures Credit(AddTasks(c, s, ts)) >= Credit(s)
  {
    var s' := AddTasks(c, s, ts);
    AddExtends(c, s, ts);
    AddKeepsRunning(c, s, ts);
    CoreKeys(c, s);
    hide Core, AddTasks, Submittable;
    forall e | e in EdgeSet(s.deps) ensures e in EdgeSet(s'.deps) {
      InEdgeSet(s.deps, e.0, e.1);
      InEdgeSet(s'.deps, e.0, e.1);
    }
    SubsetSize(EdgeSet(s.deps), EdgeSet(s'.deps));
    forall x | x in WithStatus(s, Completed) ensures x in WithStatus(s', Completed) { assert IsCompleted(s, x); }
    SubsetSize(WithStatus(s, Completed), WithStatus(s', Completed));
    forall x | x in WithStatus(s, Running) ensures x in WithStatus(s', Running) { assert HasStatus(s, x, Running); }
    SubsetSize(WithStatus(s, Running), WithStatus(s', Running));
  }

  lemma CoreKeys(c: Config, s: State)
    requires Core(c, s)
    ensures s.status.Keys == s.tasks.Keys == s.deps.Keys
  {}

  lemma AddKeepsRunning(c: Config, s: State, ts: seq<Task>)
    requires Core(c, s) && Submittable(c, s, ts)
    ensures forall x | HasStatus(s, x, Running) :: HasStatus(AddTasks(c, s, ts), x, Running)
  {
    var s1 := RegisterAll(s, ts);
    AddKeeps(c, s, ts);
    CoreKeys(c, s);
    hide Core, AddTasks, RegisterAll, Rejects, FindReady, Scheduled;
    forall x | HasStatus(s, x, Running) ensures HasStatus(AddTasks(c, s, ts), x, Running) {
      assert HasStatus(s1, x, Running);
      if !Rejects(c, s, ts) {
        FoundPending(s, ts);
        ScheduledKeepsStatus(s1, AddTasks(c, s, ts), FindReady(s1, ts), x);
      }
    }
  }

  lemma ScheduledKeepsStatus(s: State, s': State, xs: seq<Id>, x: Id)
    requires Scheduled(s, s', xs) && HasStatus(s, x, Running) && forall y | y in xs :: HasStatus(s, y, Pending)
    ensures HasStatus(s', x, Running)
  {
    ScheduledStatus(s, s', xs);
  }

  lemma {:induction false} RunCredit(c: Config, s: State, steps: seq<Step>)
    requires Live(c, s) && Allowed(c, s, steps) && AllDiligent(c, s, steps)
    ensures Credit(After(c, s, steps)) >= Credit(s) + Calls(steps)
    ensures NoAdds(steps) ==> Credit(After(c, s, steps)) == Credit(s) + Calls(steps)
    ensures NoAdds(steps) ==> After(c, s, steps).status.Keys == s.status.Keys
  {
    if steps != [] {
      var front, last := steps[..|steps| - 1], steps[|steps| - 1];
      hide Core, PendingWaits, Enabled, Do, Credit, Acyclic, Known, Diligent;
      RunCredit(c, s, front);
      RunsStayLive(c, s, front);
      OneMoreCall(c, After(c, s, front), last);
      assert Calls(steps) == Calls(front) + Calls([last]) by { assert [last][..0] == []; }
    }
  }

  lemma OneMoreCall(c: Config, s: State, step: Step)
    requires Core(c, s) && Enabled(c, s, step) && Diligent(c, s, step)
    ensures Credit(Do(c, s, step)) >= Credit(s) + Calls([step])
    ensures !step.Add? ==> Credit(Do(c, s, step)) == Credit(s) + Calls([step])
    ensures !step.Add? ==> Do(c, s, step).status.Keys == s.status.Keys
  {
    if step.Add? { AddCredit(c, s, step.ts); } else { StepCredit(c, s, step); }
    hide Core, Credit, AddTasks;
    match step
    case Add(_) =>
    case AbortStep(x, d) => AbortDeps(c, s, x, d);
    case _ => GraphUnchanged(c, s, step);
  }

  lemma CreditBound(c: Config, s: State)
    requires Live(c, s)
    ensures Credit(s) <= |s.status| * |s.status| + |s.status|
  {
    var nodes := s.status.Keys;
    AcyclicEdgeBound(s.deps, nodes);
    var done, running := WithStatus(s, Completed), WithStatus(s, Running);
    assert done + running <= nodes && done !! running;
    SubsetSize(done + running, nodes);
    assert |nodes| == |s.status|;
  }

  /** A run that ends with n tasks has made at most n*n + n calls, whenever the tasks were added. */
  lemma CallBound(c: Config, s: State, steps: seq<Step>)
    requires Live(c, s) && Allowed(c, s, steps) && AllDiligent(c, s, steps)
    ensures var n := |After(c, s, steps).status|;
      Calls(steps) <= n * n + n && (NoAdds(steps) ==> n == |s.status|)
  {
    RunCredit(c, s, steps);
    RunsStayLive(c, s, steps);
    CreditBound(c, After(c, s, steps));
    hide Live, Allowed, After, AllDiligent;
    assert |After(c, s, steps).status| == |After(c, s, steps).status.Keys| && |s.status| == |s.status.Keys|;
  }
}
