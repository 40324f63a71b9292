/** Where the scheduler needs its callers' care, stated exactly: an abort on a completed dependency
    or one that closes a cycle, a rejected AddTasks, a dependency listed twice, a task submitted
    again. */
module SchedulerLimits {
  import opened Deque
  import opened DependencyGraph
  import opened Multisets
  import opened SchedulerState
  import opened SchedulerInvariant
  import opened SchedulerRuns

  /** Pending although everything it waits for has completed: nobody is left to wake it. */
  ghost predicate Stranded(s: State, x: Id) {
    HasStatus(s, x, Pending) && DepsCompleted(s, x)
  }

  lemma AddKeepsStranded(c: Config, s: State, ts: seq<Task>, x: Id)
    requires Core(c, s) && Submittable(c, s, ts) && Stranded(s, x)
    ensures Stranded(AddTasks(c, s, ts), x)
  {
    hide AddTasks, FindReady, RegisterAll, Core, Submittable, Rejects, Scheduled, Registers, Extends;
    var s1 := RegisterAll(s, ts);
    AddKeeps(c, s, ts);
    AddExtends(c, s, ts);
    StrandedIsOld(c, s, ts, x);
    if !Rejects(c, s, ts) { ScheduledGraphAt(s1, AddTasks(c, s, ts), FindReady(s1, ts), x); }
    StaysCompleted(s, AddTasks(c, s, ts), x);
  }

  /** AddTasks neither registers nor schedules a stranded task. */
  lemma StrandedIsOld(c: Config, s: State, ts: seq<Task>, x: Id)
    requires Core(c, s) && Submittable(c, s, ts) && Stranded(s, x)
    ensures var s1 := RegisterAll(s, ts);
      && x !in FindReady(s1, ts) && x in s1.status && s1.status[x] == s.status[x]
      && DepsOf(s1.deps, x) == DepsOf(s.deps, x)
  {
    var s1 := RegisterAll(s, ts);
    AddKeeps(c, s, ts);
    FindReadyFinds(s1, ts);
    hide AddTasks, FindReady, RegisterAll, Scheduled, Rejects;
    assert x !in IdsOf(ts);
    assert multiset(FindReady(s1, ts))[x] == 0;
  }

  lemma StaysCompleted(s: State, s': State, x: Id)
    requires Stranded(s, x) && Extends(s, s') && HasStatus(s', x, Pending) && DepsOf(s'.deps, x) == DepsOf(s.deps, x)
    ensures Stranded(s', x)
  {}

  lemma ScheduledGraphAt(s: State, s': State, xs: seq<Id>, x: Id)
    requires Scheduled(s, s', xs) && x !in xs && x in s.status
    ensures s'.deps == s.deps && x in s'.status && s'.status[x] == s.status[x]
  {}

  lemma NotWoken(c: Config, s: State, y: Id, x: Id)
    requires Core(c, s) && HasStatus(s, y, Running) && Stranded(s, x)
    ensures x !in Woken(MarkCompleted(s, y), y)
  {
    var s1 := MarkCompleted(s, y);
    WokenAmongCounts(s1, DepsOf(s.dependents, y));
    assert y !in DepsOf(s.deps, x) by { assert !IsCompleted(s, y); }
    assert Listed(s.dependents, y, x) == Listed(s.deps, x, y) == 0;
    assert multiset(Woken(s1, y))[x] == 0;
  }

  /** It could be woken only by a dependency completing, and they all have. */
  lemma CompleteKeepsStranded(c: Config, s: State, y: Id, order: seq<nat>, x: Id)
    requires Core(c, s) && HasStatus(s, y, Running) && order != [] && Stranded(s, x)
    ensures Stranded(Complete(c, s, y, order), x)
  {
    hide Core, Complete, Woken, Scheduled;
    var s1 := MarkCompleted(s, y);
    CompleteKeeps(c, s, y, order);
    CompleteExtends(c, s, y, order);
    NotWoken(c, s, y, x);
    ScheduledGraphAt(s1, Complete(c, s, y, order), Woken(s1, y), x);
  }

  lemma AbortKeepsStranded(s: State, y: Id, d: Id, x: Id)
    requires HasStatus(s, y, Running) && Stranded(s, x)
    ensures Stranded(Abort(s, y, d), x)
  {
    var s' := Abort(s, y, d);
    AbortExtends(s, y, d);
    assert DepsOf(s'.deps, x) == DepsOf(s.deps, x);
  }

  lemma StepKeepsStranded(c: Config, s: State, step: Step, x: Id)
    requires Core(c, s) && Enabled(c, s, step) && Stranded(s, x)
    ensures Stranded(Do(c, s, step), x)
  {
    if step.SetRunningStep? { CarriedIsReady(c, s, step.w); }
    hide Core, AddTasks, Complete, Submittable, Abort;
    match step
    case Add(ts) => AddKeepsStranded(c, s, ts, x);
    case CompleteStep(y, order) => CompleteKeepsStranded(c, s, y, order, x);
    case AbortStep(y, d) => AbortKeepsStranded(s, y, d, x);
    case _ =>
      var s' := Do(c, s, step);
      assert s'.deps == s.deps && HasStatus(s', x, Pending);
      forall d | d in DepsOf(s.deps, x) ensures IsCompleted(s', d) { assert IsCompleted(s, d); }
  }

  /** A stranded task is never scheduled again, whatever is completed, aborted or newly submitted. */
  lemma {:induction false} StrandedForever(c: Config, s: State, steps: seq<Step>, x: Id)
    requires Core(c, s) && Allowed(c, s, steps) && Stranded(s, x)
    ensures Stranded(After(c, s, steps), x)
  {
    if steps != [] {
      var front := steps[..|steps| - 1];
      StrandedForever(c, s, front, x);
      RunsKeepCore(c, s, front);
      StepKeepsStranded(c, After(c, s, front), steps[|steps| - 1], x);
    }
  }

  /** AbortTask strands its task exactly when the named dependency has already completed, and
      leaves every other task stranded or not as it was. */
  lemma AbortStrands(c: Config, s: State, x: Id, d: Id)
    requires Core(c, s) && HasStatus(s, x, Running)
    ensures Stranded(Abort(s, x, d), x) <==> IsCompleted(s, d)
    ensures forall y | y != x :: Stranded(Abort(s, x, d), y) <==> Stranded(s, y)
  {
    var s' := Abort(s, x, d);
    forall e ensures IsCompleted(s', e) <==> IsCompleted(s, e) {}
    if IsCompleted(s, d) {
      forall e | e in DepsOf(s'.deps, x) ensures IsCompleted(s', e) {
        if e != d { assert Edge(s.deps, x, e); }
      }
    } else {
      assert d in DepsOf(s'.deps, x);
    }
    forall y | y != x ensures Stranded(s', y) <==> Stranded(s, y) {
      assert DepsOf(s'.deps, y) == DepsOf(s.deps, y);
    }
  }

  /** Submitting a stranded id again rescues the task exactly when the call is accepted and the
      new list names completed tasks only. */
  lemma ResubmissionRescues(c: Config, s: State, t: Task)
    requires Core(c, s) && Stranded(s, t.id)
    ensures var s' := AddTasks(c, s, [t]);
      && (HasStatus(s', t.id, Ready) <==> !Rejects(c, s, [t]) && forall d | d in t.deps :: IsCompleted(s, d))
      && (HasStatus(s', t.id, Ready) ==> Placed(s')[t.id] == 1)
  {
    hide *;
    var s1 := Register(s, t);
    OneRegistered(s, t);
    StrandedRegistered(c, s, t);
    AcceptedOne(c, s, t);
    StatusAfterPush(c, s1, t.id);
  }

  lemma AcceptedOne(c: Config, s: State, t: Task)
    ensures var s1 := Register(s, t);
      AddTasks(c, s, [t]) ==
        if !Rejects(c, s, [t]) && DepsCompleted(s1, t.id) then PushReady(c, s1, t.id) else s1
  {
    hide Rejects, Register, DepsCompleted;
    OneRegistered(s, t);
    assert [t.id][..0] == [];
    assert Enqueue(c, Register(s, t), []) == Register(s, t);
  }

  lemma StrandedRegistered(c: Config, s: State, t: Task)
    requires Core(c, s) && Stranded(s, t.id)
    ensures var s1 := Register(s, t);
      && HasStatus(s1, t.id, Pending) && Placed(s1)[t.id] == 0 && |s1.ready| < c.readySize
      && (DepsCompleted(s1, t.id) <==> forall d | d in t.deps :: IsCompleted(s, d))
  {
    var s1 := Register(s, t);
    forall d ensures IsCompleted(s1, d) <==> IsCompleted(s, d) {}
    assert Placed(s)[t.id] == 0 && Placed(s1) == Placed(s);
    hide Placed, Reversed, WorkersOk, ScheduledAfterDeps, AddReverse;
    forall x ensures multiset([t.id])[x] <= if HasStatus(s, x, Pending) then 1 else 0 {}
    ReadyHasRoom(c, s, [t.id]);
  }

  lemma StatusAfterPush(c: Config, s: State, x: Id)
    requires |s.ready| < c.readySize && Placed(s)[x] == 0 && HasStatus(s, x, Pending)
    ensures HasStatus(PushReady(c, s, x), x, Ready) && Placed(PushReady(c, s, x))[x] == 1
    ensures !HasStatus(s, x, Ready)
  {
    PushReadyAdds(c, s, x);
  }

  lemma OneRegistered(s: State, t: Task)
    ensures RegisterAll(s, [t]) == Register(s, t)
    ensures FindReady(Register(s, t), [t]) == if DepsCompleted(Register(s, t), t.id) then [t.id] else []
  {
    assert [t][..0] == [];
    assert FindReady(Register(s, t), []) == [];
  }

  const EXAMPLE_CONFIG := Config(1, 1, 2, true, true, true)

  /** One worker, task 0 completed and task 1 running. */
  function ExampleState(): State {
    State(map[0 := Task(0, []), 1 := Task(1, [])], map[0 := Completed, 1 := Running],
          map[0 := [], 1 := []], map[], [[]], [], [1], [None])
  }

  lemma ExamplePlaced()
    ensures PlacedOnce(ExampleState())
  {
    var s := ExampleState();
    SumOfEmpty(Queued(s.queues));
    SumOfEmpty(Carried(s.hands));
  }

  lemma ExampleWorkers()
    ensures WorkersOk(ExampleState())
  {
    assert RunsOn(ExampleState(), 0, 1);
  }

  lemma ExampleShape()
    ensures Shape(EXAMPLE_CONFIG, ExampleState())
  {
    var s := ExampleState();
    assert s.status.Keys == {0, 1} && |s.status| == |s.status.Keys|;
  }

  lemma ExampleGraph()
    ensures Reversed(ExampleState()) && ScheduledAfterDeps(ExampleState()) && PendingWaits(ExampleState())
  {}

  /** Aborting task 1 on task 0 loses it. */
  lemma AbortStrandsExample()
    ensures Inv(EXAMPLE_CONFIG, ExampleState()) && Stranded(Abort(ExampleState(), 1, 0), 1)
  {
    ExampleShape();
    ExamplePlaced();
    ExampleWorkers();
    ExampleGraph();
    AbortStrands(EXAMPLE_CONFIG, ExampleState(), 1, 0);
  }

  /** A rejected AddTasks leaves its tasks Pending and in no queue; those it strands are exactly
      the ones whose dependencies had all completed. */
  lemma RejectedStrands(c: Config, s: State, ts: seq<Task>, i: nat)
    requires Core(c, s) && Submittable(c, s, ts) && Rejects(c, s, ts) && i < |ts|
    ensures var s' := AddTasks(c, s, ts);
      && Core(c, s') && HasStatus(s', ts[i].id, Pending) && Placed(s')[ts[i].id] == 0
      && (Stranded(s', ts[i].id) <==> forall d | d in ts[i].deps :: IsCompleted(s, d))
  {
    var s', x := AddTasks(c, s, ts), ts[i].id;
    AddKeeps(c, s, ts);
    DepsOfRegistered(s, ts);
    hide AddTasks, RegisterAll, Rejects;
    assert x in IdsOf(ts);
    NewOnesPending(s, s', IdsOf(ts), x);
    forall d ensures IsCompleted(s', d) <==> IsCompleted(s, d) {
      if d in IdsOf(ts) { NewOnesPending(s, s', IdsOf(ts), d); }
    }
    assert DepsOf(s'.deps, x) == ts[i].deps;
  }

  // ---------------------------------------------------------------- an abort that closes a cycle

  /** One worker runs task 0, and task 1 waits for it. */
  function WaitingState(): State {
    State(map[0 := Task(0, []), 1 := Task(1, [0])], map[0 := Running, 1 := Pending],
          map[0 := [], 1 := [0]], map[0 := [1]], [[]], [], [0], [None])
  }

  lemma WaitingPlaced()
    ensures PlacedOnce(WaitingState())
  {
    var s := WaitingState();
    SumOfEmpty(Queued(s.queues));
    SumOfEmpty(Carried(s.hands));
  }

  lemma WaitingWorkers()
    ensures WorkersOk(WaitingState())
  {
    assert RunsOn(WaitingState(), 0, 0);
  }

  lemma WaitingShape()
    ensures Shape(EXAMPLE_CONFIG, WaitingState())
  {
    var s := WaitingState();
    assert s.status.Keys == {0, 1} && |s.status| == |s.status.Keys|;
  }

  lemma WaitingGraph()
    ensures ScheduledAfterDeps(WaitingState()) && PendingWaits(WaitingState())
  {
    assert 0 in DepsOf(WaitingState().deps, 1);
  }

  lemma WaitingReversed()
    ensures Reversed(WaitingState())
  {
    var s := WaitingState();
    forall x, d ensures Listed(s.dependents, d, x) == Listed(s.deps, x, d) <= 1 {
      assert DepsOf(s.deps, x) == if x == 1 then [0] else [];
      assert DepsOf(s.dependents, d) == if d == 0 then [1] else [];
    }
  }

  lemma WaitingAcyclic()
    ensures Acyclic(WaitingState().deps) && Known(WaitingState()) && Reaches(WaitingState().deps, 1, 0)
  {
    var g: Graph := map[0 := [], 1 := []];
    NoEdgesAcyclic(g);
    NoEdgesReach(g, 0, 1);
    AddEdgeKeepsAcyclic(g, 1, 0);
    hide Acyclic, Reaches;
    assert DepsOf(g, 1) + [0] == [0];
    assert AddEdge(g, 1, 0) == WaitingState().deps;
    assert Edge(WaitingState().deps, 1, 0);
    EdgeReaches(WaitingState().deps, 1, 0);
  }

  lemma WaitingLive()
    ensures Live(EXAMPLE_CONFIG, WaitingState()) && Reaches(WaitingState().deps, 1, 0)
  {
    WaitingShape();
    WaitingPlaced();
    WaitingWorkers();
    WaitingGraph();
    WaitingReversed();
    WaitingAcyclic();
    hide WaitingState, Acyclic, Known, Reaches, Shape, PlacedOnce, WorkersOk, Reversed,
      ScheduledAfterDeps, PendingWaits;
  }

  /** Aborting task 0 on task 1 leaves the two waiting for each other, and nothing else to run. */
  lemma AbortDeadlocks()
    ensures Live(EXAMPLE_CONFIG, WaitingState()) && HasStatus(WaitingState(), 0, Running)
    ensures var s' := Abort(WaitingState(), 0, 1);
      !Live(EXAMPLE_CONFIG, s') && Unfinished(s', 0)
      && forall x :: !HasStatus(s', x, Ready) && !HasStatus(s', x, Running)
  {
    var s := WaitingState();
    hide Live, Reaches;
    WaitingLive();
    AbortStaysLive(EXAMPLE_CONFIG, s, 0, 1);
  }

  // ---------------------------------------------------------------- duplicates

  /** CompleteTask wakes a task as often as the task lists the completed one. */
  lemma WokenAsOftenAsListed(s: State, x: Id, y: Id)
    requires forall d, z :: Listed(s.dependents, d, z) == Listed(s.deps, z, d)
    requires Wakes(MarkCompleted(s, x), y)
    ensures multiset(Woken(MarkCompleted(s, x), x))[y] == Listed(s.deps, y, x)
  {
    WokenAmongCounts(MarkCompleted(s, x), DepsOf(s.dependents, x));
    assert Listed(s.dependents, x, y) == Listed(s.deps, y, x);
  }

  /** After a completion each task is still in one place exactly when every task it woke lists the
      completed one once: a repeated dependency is queued twice as soon as its last one completes. */
  lemma CompletePlacesOnceExactly(c: Config, s: State, x: Id, order: seq<nat>)
    requires PlacedOnce(s) && HasStatus(s, x, Running) && order != []
    requires forall d, z :: Listed(s.dependents, d, z) == Listed(s.deps, z, d)
    requires |s.ready| + |Woken(MarkCompleted(s, x), x)| <= c.readySize
    ensures PlacedOnce(Complete(c, s, x, order)) <==>
              forall y | Wakes(MarkCompleted(s, x), y) :: Listed(s.deps, y, x) <= 1
  {
    hide *;
    var s1, s' := MarkCompleted(s, x), Complete(c, s, x, order);
    var xs := Woken(s1, x);
    CompleteSchedules(c, s, x, order);
    forall y | y in xs ensures HasStatus(s1, y, Pending) { WokenIsPending(s1, x, y); }
    ScheduledOnceExactly(s1, s', xs);
    forall y ensures multiset(xs)[y] == if Wakes(s1, y) then Listed(s.deps, y, x) else 0 {
      if Wakes(s1, y) {
        WokenAsOftenAsListed(s, x, y);
      } else if y in xs {
        WokenIsPending(s1, x, y);
      }
    }
  }

  lemma CompleteSchedules(c: Config, s: State, x: Id, order: seq<nat>)
    requires PlacedOnce(s) && HasStatus(s, x, Running) && order != []
    requires |s.ready| + |Woken(MarkCompleted(s, x), x)| <= c.readySize
    ensures var s1 := MarkCompleted(s, x);
      PlacedOnce(s1) && Scheduled(s1, Complete(c, s, x, order), Woken(s1, x))
  {
    var s1 := MarkCompleted(s, x);
    StopsRunningPlaced(s, s1, x);
    ScheduleSchedules(c, s1, Woken(s1, x), order);
    hide Woken, Schedule, Placed, Scheduled, PlacedOnce;
  }

  /** Pending tasks that are all put in a queue are in one place each exactly when none is repeated. */
  lemma ScheduledOnceExactly(s: State, s': State, xs: seq<Id>)
    requires PlacedOnce(s) && Scheduled(s, s', xs) && forall x | x in xs :: HasStatus(s, x, Pending)
    ensures PlacedOnce(s') <==> forall x :: multiset(xs)[x] <= 1
  {
    hide Placed;
    if forall x :: multiset(xs)[x] <= 1 {
      ScheduledPlaced(s, s', xs);
    } else {
      var x :| multiset(xs)[x] > 1;
      assert Placed(s')[x] > 1;
    }
  }

  lemma WokenIsPending(s: State, x: Id, y: Id)
    requires y in Woken(s, x)
    ensures Wakes(s, y) && HasStatus(s, y, Pending)
  {
    WokenAmongCounts(s, DepsOf(s.dependents, x));
    assert multiset(Woken(s, x))[y] > 0;
  }

  /** Registering a task, perhaps again as after a rejected AddTasks, keeps dependents the reverse
      of dependencies exactly when the scheduler held no dependencies of it and the new list has no
      repetition. */
  lemma RegisteredAgain(s: State, t: Task)
    requires Reversed(s)
    ensures Reversed(Register(s, t)) <==> DepsOf(s.deps, t.id) == [] && Distinct(t.deps)
  {
    AddReverseLists(s.dependents, t.deps, t.id);
    var s', was := Register(s, t), DepsOf(s.deps, t.id);
    if was == [] && Distinct(t.deps) {
      DistinctListedOnce(t.deps);
      forall x, d ensures Listed(s'.dependents, d, x) == Listed(s'.deps, x, d) <= 1 {
        assert Listed(s.dependents, d, x) == Listed(s.deps, x, d) <= 1;
      }
    } else if was != [] {
      var d := was[0];
      assert Listed(s.dependents, d, t.id) == Listed(s.deps, t.id, d) >= 1;
      assert Listed(s'.dependents, d, t.id) != Listed(s'.deps, t.id, d);
    } else {
      var d := RepeatedEntry(t.deps);
      assert Listed(s'.deps, t.id, d) >= 2;
    }
  }

  lemma RepeatedEntry(ds: seq<Id>) returns (d: Id)
    requires !Distinct(ds)
    ensures multiset(ds)[d] >= 2
  {
    var i, j :| 0 <= i < j < |ds| && ds[i] == ds[j];
    d := ds[i];
    var front, back := ds[..j], ds[j..];
    assert ds == front + back && front[i] == d && back[0] == d;
    assert multiset(ds)[d] == multiset(front)[d] + multiset(back)[d];
    assert d in front && d in back;
    assert multiset(front)[d] >= 1 && multiset(back)[d] >= 1;
  }
}
