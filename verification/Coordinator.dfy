/** Coordinator.Prepare, plan then add, and what the two components guarantee together. */
module Coordinator {
  import opened DependencyGraph
  import opened CycleDetection
  import opened SchedulerState
  import opened SchedulerInvariant
  import opened SchedulerRuns
  import opened ConflictColouring
  import opened ConflictPlanner
  import opened PlanAcceptance
  import WorkStealingScheduler

  /** An error yields no partitions; after a shutdown nothing happens, and a rejected batch leaves
      its registrations in the scheduler. */
  method Prepare<K>(scheduler: WorkStealingScheduler.WorkStealingScheduler, tasks: seq<Task>,
                    keysFor: Task -> seq<K>, hash: K -> nat)
    returns (parts: seq<seq<Id>>, err: WorkStealingScheduler.Error,
             ghost planned: seq<seq<Id>>, ghost wrapped: seq<Task>, ghost adj: Adjacency, ghost colours: Colours)
    requires scheduler.Valid()
    modifies scheduler
    ensures scheduler.Valid() && scheduler.shutdown == old(scheduler.shutdown)
    ensures IsPlan(tasks, Hashed(keysFor, hash), adj, colours, planned, wrapped)
    ensures parts == if err.NoError? then planned else []
    ensures err.EngineShutdown? <==> old(scheduler.shutdown)
    ensures err.CircularDependency? <==>
              !old(scheduler.shutdown) && Rejects(scheduler.config, old(scheduler.Abs()), wrapped)
    ensures scheduler.Abs() == if old(scheduler.shutdown) then old(scheduler.Abs())
                               else AddTasks(scheduler.config, old(scheduler.Abs()), wrapped)
    ensures err.CircularDependency? ==> scheduler.Abs() == RegisterAll(old(scheduler.Abs()), wrapped)
  {
    var batches, w, g, col := Plan(tasks, keysFor, hash);
    planned, wrapped, adj, colours := batches, w, g, col;
    err := scheduler.AddTasks(w);
    parts := if err.NoError? then batches else [];
  }

  /** A plan submitted to a scheduler in a good state, which may accept or reject it. */
  ghost predicate Submitted(c: Config, s: State, tasks: seq<Task>, touch: Touch, adj: Adjacency, colours: Colours,
                            parts: seq<seq<Id>>, wrapped: seq<Task>) {
    && Core(c, s)
    && Distinct(Ids(tasks))
    && IsPlan(tasks, touch, adj, colours, parts, wrapped)
    && Submittable(c, s, wrapped)
  }

  ghost predicate Accepted(c: Config, s: State, tasks: seq<Task>, touch: Touch, adj: Adjacency, colours: Colours,
                           parts: seq<seq<Id>>, wrapped: seq<Task>) {
    Submitted(c, s, tasks, touch, adj, colours, parts, wrapped) && !Rejects(c, s, wrapped)
  }

  /** In every reachable state, of two conflicting tasks the one in the later batch has not been
      scheduled until the one in the earlier batch has completed, also when the plan was rejected. */
  lemma BatchOrder(c: Config, s: State, tasks: seq<Task>, touch: Touch, adj: Adjacency, colours: Colours,
                   parts: seq<seq<Id>>, wrapped: seq<Task>, steps: seq<Step>, x: Id, y: Id)
    requires Submitted(c, s, tasks, touch, adj, colours, parts, wrapped)
    requires Allowed(c, AddTasks(c, s, wrapped), steps)
    requires Conflict(tasks, touch, x, y) && x in colours && y in colours && colours[x] < colours[y]
    ensures var s' := After(c, AddTasks(c, s, wrapped), steps);
      y in s'.status && (!HasStatus(s', y, Pending) ==> IsCompleted(s', x))
  {
    var s1 := AddTasks(c, s, wrapped);
    AddKeeps(c, s, wrapped);
    DepsOfRegistered(s, wrapped);
    RunsExtend(c, s1, steps);
    RunsKeepCore(c, s1, steps);
    ConflictSymmetric(tasks, touch, adj);
    var i := IndexOf(tasks, y);
    assert Wraps(adj, colours, tasks[i], wrapped[i]);
    assert Conflict(tasks, touch, y, x) by {
      var h :| Owner(tasks, touch, x, h) && Owner(tasks, touch, y, h);
    }
    assert x in Earlier(adj, colours, y);
    assert x in wrapped[i].deps;
    SubmittedDeps(c, s, wrapped);
    hide Core, Submitted, Submittable, Rejects, AddTasks, RegisterAll, After;
    assert Edge(s1.deps, y, x);
    assert y in IdsOf(wrapped);
    RegisteredStays(c, s, wrapped, y);
    assert Edge(After(c, s1, steps).deps, y, x);
    AfterDeps(c, After(c, s1, steps), y, x);
  }

  lemma RegisteredStays(c: Config, s: State, ts: seq<Task>, y: Id)
    requires Core(c, s) && Submittable(c, s, ts) && y in IdsOf(ts)
    ensures y in AddTasks(c, s, ts).status
  {
    AddKeeps(c, s, ts);
    hide AddTasks, RegisterAll, Rejects;
  }

  lemma SubmittedDeps(c: Config, s: State, ts: seq<Task>)
    requires Core(c, s) && Submittable(c, s, ts)
    ensures AddTasks(c, s, ts).deps == RegisterAll(s, ts).deps
  {
    AddKeeps(c, s, ts);
    hide AddTasks, RegisterAll, Rejects, Core;
    if !Rejects(c, s, ts) {
      ScheduledDeps(RegisterAll(s, ts), AddTasks(c, s, ts), FindReady(RegisterAll(s, ts), ts));
    }
  }

  lemma AfterDeps(c: Config, s: State, y: Id, x: Id)
    requires Core(c, s) && y in s.status && Edge(s.deps, y, x)
    ensures !HasStatus(s, y, Pending) ==> IsCompleted(s, x)
  {}

  /** End to end: two tasks that access a common key never run at the same time, in any state
      reachable after their plan was submitted, for any hash function and any run. */
  lemma NeverRunTogether<K>(c: Config, s: State, tasks: seq<Task>, keysFor: Task -> seq<K>, hash: K -> nat,
                            adj: Adjacency, colours: Colours, parts: seq<seq<Id>>, wrapped: seq<Task>,
                            steps: seq<Step>, i: nat, j: nat, key: K)
    requires Submitted(c, s, tasks, Hashed(keysFor, hash), adj, colours, parts, wrapped)
    requires Allowed(c, AddTasks(c, s, wrapped), steps)
    requires i < |tasks| && j < |tasks| && i != j && key in keysFor(tasks[i]) && key in keysFor(tasks[j])
    ensures var s' := After(c, AddTasks(c, s, wrapped), steps);
      !(HasStatus(s', tasks[i].id, Running) && HasStatus(s', tasks[j].id, Running))
  {
    var touch := Hashed(keysFor, hash);
    var x, y := tasks[i].id, tasks[j].id;
    assert Ids(tasks)[i] == x && Ids(tasks)[j] == y;
    SharedKeyConflicts(tasks, keysFor, hash, i, j, key);
    SharedKeyConflicts(tasks, keysFor, hash, j, i, key);
    ConflictSymmetric(tasks, touch, adj);
    assert x in IdsOf(tasks) && y in IdsOf(tasks);
    Proper(tasks, adj, colours, x, y);
    hide Core, Submitted, Submittable, AddTasks, After, Conflict, Hashed;
    if colours[x] < colours[y] {
      BatchOrder(c, s, tasks, touch, adj, colours, parts, wrapped, steps, x, y);
    } else {
      BatchOrder(c, s, tasks, touch, adj, colours, parts, wrapped, steps, y, x);
    }
  }

  /** A plan submitted to a live scheduler keeps it live, so that its run cannot deadlock and ends
      within the call bound, exactly when the tasks depend on known or planned tasks only and no
      cycle is reachable from them; with dependency analysis on, when the plan is accepted. */
  lemma PlannedRunIsLive(c: Config, s: State, tasks: seq<Task>, touch: Touch, adj: Adjacency, colours: Colours,
                         parts: seq<seq<Id>>, wrapped: seq<Task>)
    requires Live(c, s) && Submitted(c, s, tasks, touch, adj, colours, parts, wrapped)
    ensures Live(c, AddTasks(c, s, wrapped)) <==>
              KnownDeps(s, tasks) && !CycleReachable(RegisterAll(s, wrapped).deps, Ids(tasks))
    ensures c.dependencyAnalysis ==>
              (Live(c, AddTasks(c, s, wrapped)) <==> KnownDeps(s, tasks) && !Rejects(c, s, wrapped))
  {
    SameIds(adj, colours, tasks, wrapped);
    WrappedKnown(s, tasks, touch, adj, colours, wrapped);
    AddStaysLive(c, s, wrapped);
    hide Core, Live, IsPlan, RegisterAll, CycleReachable, KnownDeps, Submittable, AddTasks;
  }

  /** Injected dependencies are planned tasks. */
  lemma WrappedKnown(s: State, tasks: seq<Task>, touch: Touch, adj: Adjacency, colours: Colours, wrapped: seq<Task>)
    requires IsConflictGraph(tasks, touch, adj) && AllWrapped(adj, colours, tasks, wrapped)
    ensures KnownDeps(s, wrapped) <==> KnownDeps(s, tasks)
  {
    SameIds(adj, colours, tasks, wrapped);
    forall i, d | 0 <= i < |tasks|
      ensures d in wrapped[i].deps <==> d in tasks[i].deps || d in Earlier(adj, colours, tasks[i].id)
      ensures d in Earlier(adj, colours, tasks[i].id) ==> d in IdsOf(tasks)
    {
      assert Wraps(adj, colours, tasks[i], wrapped[i]);
      assert d in Neighbours(adj, tasks[i].id) ==> Conflict(tasks, touch, tasks[i].id, d);
    }
    hide Earlier, Conflict, Neighbours, AllWrapped, IsConflictGraph;
  }

  // ---------------------------------------------------------------- conditions on the block

  /** An accepted plan comes from a block none of whose tasks depends on one it conflicts with. */
  lemma AcceptedHasNoOwnConflict(c: Config, s: State, tasks: seq<Task>, touch: Touch, adj: Adjacency, colours: Colours,
                                 parts: seq<seq<Id>>, wrapped: seq<Task>)
    requires Accepted(c, s, tasks, touch, adj, colours, parts, wrapped) && c.dependencyAnalysis
    ensures NoOwnConflict(tasks, touch)
  {
    hide Core, Rejects;
    PlanSubmittableExactly(c, s, tasks, adj, colours, wrapped);
    SameIds(adj, colours, tasks, wrapped);
    var g := RegisterAll(s, wrapped).deps;
    forall i, d | 0 <= i < |tasks| && d in tasks[i].deps ensures !Conflict(tasks, touch, tasks[i].id, d) {
      if Conflict(tasks, touch, tasks[i].id, d) {
        OwnConflictClashes(s, tasks, touch, adj, colours, parts, wrapped, i, d);
        var x := tasks[i].id;
        WrappedEdge(s, tasks, adj, colours, wrapped, x, d);
        OwnEdge(s, tasks, i, d);
        EdgeReaches(g, x, d);
        ReachesTransitive(g, x, d, x);
        assert Ids(wrapped)[i] == Ids(tasks)[i] == x;
        SelfReachRejected(c, s, wrapped, i);
        assert false;
      }
    }
  }

  /** A scheduler accepts the plan of any block that it would accept and that nobody waits for,
      provided no task depends on one it conflicts with or on one of a later batch. */
  lemma BlockAccepted(c: Config, s: State, tasks: seq<Task>, touch: Touch, adj: Adjacency, colours: Colours,
                      parts: seq<seq<Id>>, wrapped: seq<Task>)
    requires Core(c, s) && Addable(c, s, tasks) && (c.dependencyAnalysis ==> NoneWaitFor(s, tasks))
    requires IsPlan(tasks, touch, adj, colours, parts, wrapped)
    requires NoOwnConflict(tasks, touch) && NoClimb(tasks, colours)
    ensures Accepted(c, s, tasks, touch, adj, colours, parts, wrapped)
  {
    PlanAddable(c, s, tasks, touch, adj, colours, parts, wrapped);
    hide Rejects, IsPlan, Core, NoOwnConflict, NoClimb;
  }

  /** For such a block no two tasks with a common key ever run together. */
  lemma BlockNeverRunsTogether<K>(c: Config, s: State, tasks: seq<Task>, keysFor: Task -> seq<K>, hash: K -> nat,
                                  adj: Adjacency, colours: Colours, parts: seq<seq<Id>>, wrapped: seq<Task>,
                                  steps: seq<Step>, i: nat, j: nat, key: K)
    requires Core(c, s) && Submittable(c, s, tasks)
    requires IsPlan(tasks, Hashed(keysFor, hash), adj, colours, parts, wrapped)
    requires NoOwnConflict(tasks, Hashed(keysFor, hash))
    requires Allowed(c, AddTasks(c, s, wrapped), steps)
    requires i < |tasks| && j < |tasks| && i != j && key in keysFor(tasks[i]) && key in keysFor(tasks[j])
    ensures var s' := After(c, AddTasks(c, s, wrapped), steps);
      !(HasStatus(s', tasks[i].id, Running) && HasStatus(s', tasks[j].id, Running))
  {
    NoOwnConflictSubmittable(c, s, tasks, Hashed(keysFor, hash), adj, colours, wrapped);
    hide AddTasks, After, NoOwnConflict, Core, IsPlan;
    NeverRunTogether(c, s, tasks, keysFor, hash, adj, colours, parts, wrapped, steps, i, j, key);
  }

  /** Where no task depends on one it conflicts with, wrapping repeats no dependency. */
  lemma NoOwnConflictSubmittable(c: Config, s: State, tasks: seq<Task>, touch: Touch, adj: Adjacency,
          colours: Colours, wrapped: seq<Task>)
    requires IsConflictGraph(tasks, touch, adj) && AllWrapped(adj, colours, tasks, wrapped)
    requires Submittable(c, s, tasks) && NoOwnConflict(tasks, touch)
    ensures Submittable(c, s, wrapped)
  {
    PlanSubmittableExactly(c, s, tasks, adj, colours, wrapped);
    hide AllWrapped, Submittable;
    forall i, d | 0 <= i < |tasks| && d in tasks[i].deps ensures d !in Earlier(adj, colours, tasks[i].id) {
      assert !Conflict(tasks, touch, tasks[i].id, d);
    }
  }

  /** In particular tasks without dependencies of their own. */
  lemma IndependentBlockAccepted(c: Config, s: State, tasks: seq<Task>, touch: Touch, adj: Adjacency, colours: Colours,
                                 parts: seq<seq<Id>>, wrapped: seq<Task>)
    requires Core(c, s) && Submittable(c, s, tasks) && (c.dependencyAnalysis ==> NoneWaitFor(s, tasks))
    requires IsPlan(tasks, touch, adj, colours, parts, wrapped)
    requires forall i | 0 <= i < |tasks| :: tasks[i].deps == []
    ensures Accepted(c, s, tasks, touch, adj, colours, parts, wrapped)
  {
    DepsOfRegistered(s, tasks);
    var g := RegisterAll(s, tasks).deps;
    hide Core, IsPlan, RegisterAll, AllWrapped;
    forall r, x | r in Ids(tasks) && ReachesOrIs(g, r, x) ensures !Reaches(g, x, x) {
      InIds(tasks, r);
      var i := IndexOf(tasks, r);
      assert DepsOf(g, r) == [];
      NoWayOut(g, r, x);
      NoWayOut(g, r, r);
    }
    BlockAccepted(c, s, tasks, touch, adj, colours, parts, wrapped);
  }

  lemma NoWayOut(g: Graph, x: Id, y: Id)
    requires DepsOf(g, x) == []
    ensures !Reaches(g, x, y)
  {
    forall p ensures !PathFromTo(g, p, x, y) {
      if |p| >= 2 && p[0] == x { assert !Edge(g, p[0], p[1]); }
    }
  }
}
