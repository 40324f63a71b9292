/** Blocks outside the conditions of Coordinator: one that planning makes cyclic, and one whose
    conflicting tasks do run together. */
module CoordinatorLimits {
  import opened Deque
  import opened DependencyGraph
  import opened SchedulerState
  import opened SchedulerRuns
  import opened ConflictColouring
  import opened ConflictPlanner
  import opened PlanAcceptance

  /** Task 0 depends on task 1, and both touch one key. */
  function CyclicBlock(): seq<Task> {
    [Task(0, [1]), Task(1, [])]
  }

  lemma CyclicBlockConflicts(touch: Touch)
    requires forall t :: touch(t) == [7]
    ensures Conflict(CyclicBlock(), touch, 0, 1) && Conflict(CyclicBlock(), touch, 1, 0)
    ensures IdsOf(CyclicBlock()) == {0, 1} && IdsOf(CyclicBlock()[..0]) == {}
  {
    var tasks := CyclicBlock();
    assert tasks[0].id == 0 && tasks[1].id == 1;
    assert 7 in touch(tasks[0]) && 7 in touch(tasks[1]);
    assert Owner(tasks, touch, 0, 7) && Owner(tasks, touch, 1, 7);
  }

  lemma FirstColour(tasks: seq<Task>, adj: Adjacency, colours: Colours)
    requires Greedy(tasks, adj, colours) && tasks != []
    ensures tasks[0].id in colours && colours[tasks[0].id] == 0
  {
    assert tasks[0].id in IdsOf(tasks);
    assert IdsOf(tasks[..0]) == {};
    var used := UsedColours(colours, Neighbours(adj, tasks[0].id) * IdsOf(tasks[..0]));
    assert used == {};
    assert LeastFree(colours[tasks[0].id], used);
    assert 0 !in used;
  }

  lemma CyclicBlockAccepted(c: Config)
    ensures !Rejects(c, Empty(c), CyclicBlock())
  {
    var ts, s := CyclicBlock(), Empty(c);
    var g := RegisterAll(s, ts).deps;
    forall x, y ensures Edge(g, x, y) ==> x == 0 && y == 1 {
      if x in IdsOf(ts) { DepsOfRegistered(s, ts); } else { OthersKeepDeps(s, ts, x); }
    }
    NoEdgesAcyclic(s.deps);
    RejectsWhenCyclic(c, s, ts);
    OneEdgeAcyclic(g, 0, 1);
  }

  lemma OneEdgeAcyclic(g: Graph, a: Id, b: Id)
    requires a != b && forall x, y :: Edge(g, x, y) ==> x == a && y == b
    ensures Acyclic(g)
  {
    forall x, p ensures !PathFromTo(g, p, x, x) {
      if |p| >= 2 { assert Edge(g, p[0], p[1]) ==> p[0] == a && p[1] == b; }
      if |p| >= 3 { assert Edge(g, p[1], p[2]) ==> p[1] == a; }
    }
  }

  lemma CyclicBlockShape()
    ensures Distinct(Ids(CyclicBlock())) && |CyclicBlock()| == 2 && CyclicBlock()[0].id == 0
  {}

  lemma ConflictsDiffer(tasks: seq<Task>, touch: Touch, adj: Adjacency, colours: Colours, x: Id, y: Id)
    requires IsConflictGraph(tasks, touch, adj) && ProperColouring(adj, colours)
    requires Conflict(tasks, touch, x, y) && x in colours && y in colours
    ensures colours[x] != colours[y]
  {
    hide Conflict;
  }

  lemma CyclicBlockClimbs(touch: Touch, adj: Adjacency, colours: Colours, parts: seq<seq<Id>>, wrapped: seq<Task>)
    requires forall t :: touch(t) == [7]
    requires IsPlan(CyclicBlock(), touch, adj, colours, parts, wrapped)
    ensures Climbs(colours, 0, 1) && Conflict(CyclicBlock(), touch, 0, 1)
    ensures Distinct(Ids(CyclicBlock())) && |wrapped| == 2 && wrapped[0].id == 0
  {
    hide Greedy, Batches, Conflict, CyclicBlock, IsConflictGraph, ProperColouring;
    var tasks := CyclicBlock();
    CyclicBlockConflicts(touch);
    CyclicBlockShape();
    FirstColour(tasks, adj, colours);
    ConflictsDiffer(tasks, touch, adj, colours, 0, 1);
    assert Wraps(adj, colours, tasks[0], wrapped[0]);
  }

  /** Injected dependencies follow the colours, not the tasks' own dependencies: the scheduler would
      accept this block, but planning makes it cyclic and AddTasks rejects it. */
  lemma PlanCanCloseCycle(c: Config, touch: Touch, adj: Adjacency, colours: Colours,
                          parts: seq<seq<Id>>, wrapped: seq<Task>)
    requires c.dependencyAnalysis && forall t :: touch(t) == [7]
    requires IsPlan(CyclicBlock(), touch, adj, colours, parts, wrapped)
    ensures !Rejects(c, Empty(c), CyclicBlock()) && Rejects(c, Empty(c), wrapped)
  {
    var tasks, s := CyclicBlock(), Empty(c);
    assert tasks[0].id == 0 && 1 in tasks[0].deps;
    CyclicBlockAccepted(c);
    CyclicBlockClimbs(touch, adj, colours, parts, wrapped);
    hide Rejects, RegisterAll, IsPlan, Conflict, Climbs, CyclicBlock;
    ConflictLeadsBack(s, tasks, touch, adj, colours, parts, wrapped, 0, 1);
    EdgeReaches(RegisterAll(s, wrapped).deps, 0, 1);
    ReachesTransitive(RegisterAll(s, wrapped).deps, 0, 1, 0);
    SelfReachRejected(c, s, wrapped, 0);
  }

  // ---------------------------------------------------------------- a dependency on a conflicting task

  /** Three tasks on one key; task 1 declares the dependency on task 0 that planning injects too. */
  function RepeatingBlock(): seq<Task> {
    [Task(0, []), Task(1, [0]), Task(2, [])]
  }

  function RepeatingWrapped(): seq<Task> {
    [Task(0, []), Task(1, [0, 0]), Task(2, [0, 1])]
  }

  function OneKey(t: Task): seq<nat> {
    [7]
  }

  const REPEATING_ADJ: Adjacency := map[0 := {1, 2}, 1 := {0, 2}, 2 := {0, 1}]
  const REPEATING_COLOURS: Colours := map[0 := 0, 1 := 1, 2 := 2]
  const REPEATING_PARTS: seq<seq<Id>> := [[0], [1], [2]]

  lemma RepeatingOwners(x: Id, h: nat)
    ensures Owner(RepeatingBlock(), OneKey, x, h) <==> x in {0, 1, 2} && h == 7
  {
    var b := RepeatingBlock();
    assert b[0].id == 0 && b[1].id == 1 && b[2].id == 2;
  }

  lemma RepeatingConflicts(x: Id, y: Id)
    ensures Conflict(RepeatingBlock(), OneKey, x, y) <==> x != y && x in {0, 1, 2} && y in {0, 1, 2}
  {
    RepeatingOwners(x, 7);
    RepeatingOwners(y, 7);
    if Conflict(RepeatingBlock(), OneKey, x, y) {
      var h :| Owner(RepeatingBlock(), OneKey, x, h) && Owner(RepeatingBlock(), OneKey, y, h);
      RepeatingOwners(x, h);
      RepeatingOwners(y, h);
    }
  }

  lemma RepeatingGraph()
    ensures IsConflictGraph(RepeatingBlock(), OneKey, REPEATING_ADJ)
  {
    hide Conflict;
    forall x, y
      ensures y in Neighbours(REPEATING_ADJ, x) <==> Conflict(RepeatingBlock(), OneKey, x, y)
    {
      RepeatingConflicts(x, y);
    }
  }

  lemma RepeatingIds()
    ensures IdsOf(RepeatingBlock()) == {0, 1, 2}
    ensures IdsOf(RepeatingBlock()[..0]) == {} && IdsOf(RepeatingBlock()[..1]) == {0}
      && IdsOf(RepeatingBlock()[..2]) == {0, 1}
  {
    var b := RepeatingBlock();
    IdsOfMore([], b[0]);
    IdsOfMore([b[0]], b[1]);
    IdsOfMore([b[0], b[1]], b[2]);
    assert b[..0] == [] && IdsOf([]) == {};
    assert b[..1] == [] + [b[0]] && b[..2] == [b[0]] + [b[1]] && b == [b[0], b[1]] + [b[2]];
  }

  lemma RepeatingProper()
    ensures REPEATING_COLOURS.Keys == IdsOf(RepeatingBlock())
    ensures ProperColouring(REPEATING_ADJ, REPEATING_COLOURS)
  {
    RepeatingIds();
    hide RepeatingBlock, IdsOf;
  }

  lemma ColoursBelow(i: nat, nodes: set<Id>)
    requires i <= 3 && forall n :: n in nodes <==> 0 <= n < i
    ensures LeastFree(i, UsedColours(REPEATING_COLOURS, nodes))
  {
    forall n | 0 <= n < 3 ensures n in REPEATING_COLOURS && REPEATING_COLOURS[n] == n {}
    forall k: nat | k < i ensures k in UsedColours(REPEATING_COLOURS, nodes) {
      assert k in nodes && k in REPEATING_COLOURS;
    }
  }

  lemma RepeatingUsed(i: nat)
    requires i < 3
    ensures RepeatingBlock()[i].id == i && REPEATING_COLOURS[i] == i
    ensures LeastFree(i, UsedColours(REPEATING_COLOURS, Neighbours(REPEATING_ADJ, i) * IdsOf(RepeatingBlock()[..i])))
  {
    hide IdsOf, LeastFree, UsedColours;
    RepeatingIds();
    ColoursBelow(i, Neighbours(REPEATING_ADJ, i) * IdsOf(RepeatingBlock()[..i]));
  }

  lemma RepeatingGreedy()
    ensures Greedy(RepeatingBlock(), REPEATING_ADJ, REPEATING_COLOURS)
  {
    RepeatingProper();
    hide LeastFree, UsedColours, Neighbours, IdsOf, ProperColouring;
    forall i | 0 <= i < |RepeatingBlock()|
      ensures var x := RepeatingBlock()[i].id;
        LeastFree(REPEATING_COLOURS[x],
                  UsedColours(REPEATING_COLOURS, Neighbours(REPEATING_ADJ, x) * IdsOf(RepeatingBlock()[..i])))
    {
      RepeatingUsed(i);
    }
  }

  lemma RepeatingBatches()
    ensures Batches(RepeatingBlock(), REPEATING_COLOURS, REPEATING_PARTS)
  {
    var b := RepeatingBlock();
    assert b[..2][..1] == b[..1] && b[..1][..0] == [];
    forall c | 0 <= c < 3 ensures REPEATING_PARTS[c] == Batch(b, REPEATING_COLOURS, c) {
      assert Batch(b[..1], REPEATING_COLOURS, c) == if c == 0 then [0] else [];
      assert Batch(b[..2], REPEATING_COLOURS, c) == if c == 0 then [0] else if c == 1 then [1] else [];
    }
    assert REPEATING_COLOURS[2] == 2;
  }

  lemma RepeatingWraps()
    ensures AllWrapped(REPEATING_ADJ, REPEATING_COLOURS, RepeatingBlock(), RepeatingWrapped())
  {
    var b, w := RepeatingBlock(), RepeatingWrapped();
    assert Extra(b[0], w[0]) == [] && Extra(b[1], w[1]) == [0] && Extra(b[2], w[2]) == [0, 1];
  }

  lemma RepeatingPlan()
    ensures IsPlan(RepeatingBlock(), OneKey, REPEATING_ADJ, REPEATING_COLOURS, REPEATING_PARTS, RepeatingWrapped())
  {
    RepeatingGraph();
    RepeatingProper();
    RepeatingGreedy();
    GreedyBounded(RepeatingBlock(), REPEATING_ADJ, REPEATING_COLOURS);
    RepeatingBatches();
    RepeatingWraps();
    hide IsConflictGraph, Greedy, ProperColouring, BoundedColouring, Batches, AllWrapped, RepeatingBlock;
    hide RepeatingWrapped;
  }

  // ---------------------------------------------------------------- its run

  const REPEATING_CONFIG := Config(2, 4, 8, true, false, true)

  function RepeatingDeps(): Graph {
    map[0 := [], 1 := [0, 0], 2 := [0, 1]]
  }

  function RepeatingState(status: map<Id, Status>, ready: seq<Id>, current: seq<int>): State {
    State(map[0 := Task(0, []), 1 := Task(1, [0, 0]), 2 := Task(2, [0, 1])], status, RepeatingDeps(),
          map[0 := [1, 1, 2], 1 := [2]], [[], []], ready, current, [None, None])
  }

  lemma Extend(c: Config, s: State, steps: seq<Step>, step: Step)
    requires Allowed(c, s, steps) && Enabled(c, After(c, s, steps), step)
    ensures Allowed(c, s, steps + [step])
    ensures After(c, s, steps + [step]) == Do(c, After(c, s, steps), step)
  {
    assert (steps + [step])[..|steps|] == steps;
  }

  function StartFirst(s: State, w: nat): State
    requires w < |s.current| && s.ready != []
  {
    s.(ready := s.ready[1..], current := s.current[w := s.ready[0]], status := s.status[s.ready[0] := Running])
  }

  /** Worker w takes the first task of the ready queue and starts it. */
  lemma Starts(c: Config, s: State, steps: seq<Step>, w: nat) returns (more: seq<Step>)
    requires Allowed(c, s, steps) && Free(After(c, s, steps), w) && After(c, s, steps).ready != []
    ensures Allowed(c, s, more)
    ensures After(c, s, more) == StartFirst(After(c, s, steps), w)
  {
    var mid := After(c, s, steps);
    hide Allowed, After;
    Extend(c, s, steps, TakeReadyStep(w, 0));
    var taken := TakeReady(mid, w, 0);
    Extend(c, s, steps + [TakeReadyStep(w, 0)], SetCurrentStep(w));
    var current := SetCurrent(taken, w);
    more := steps + [TakeReadyStep(w, 0)] + [SetCurrentStep(w)] + [SetRunningStep(w)];
    Extend(c, s, steps + [TakeReadyStep(w, 0)] + [SetCurrentStep(w)], SetRunningStep(w));
    assert taken.hands[w := None] == mid.hands;
  }

  lemma ReverseMore(rev: Graph, ds: seq<Id>, d: Id, x: Id)
    ensures AddReverse(rev, ds + [d], x) == AddEdge(AddReverse(rev, ds, x), d, x)
  {
    assert (ds + [d])[..|ds|] == ds;
  }

  lemma NoReverse(rev: Graph, x: Id)
    ensures AddReverse(rev, [], x) == rev
  {}

  lemma FirstReverse()
    ensures AddReverse(map[], [0, 0], 1) == map[0 := [1, 1]]
  {
    hide AddReverse;
    assert AddReverse(map[], [], 1) == map[] by { NoReverse(map[], 1); }
    assert [0] == [] + [0] && [0, 0] == [0] + [0] && [1] == [] + [1] && [1, 1] == [1] + [1];
    ReverseMore(map[], [], 0, 1);
    ReverseMore(map[], [0], 0, 1);
  }

  lemma SecondReverse()
    ensures AddReverse(map[0 := [1, 1]], [0, 1], 2) == map[0 := [1, 1, 2], 1 := [2]]
  {
    hide AddReverse;
    NoReverse(map[0 := [1, 1]], 2);
    assert [0] == [] + [0] && [0, 1] == [0] + [1] && [1, 1, 2] == [1, 1] + [2] && [2] == [] + [2];
    ReverseMore(map[0 := [1, 1]], [], 0, 2);
    ReverseMore(map[0 := [1, 1]], [0], 1, 2);
  }

  lemma RepeatingRegistered()
    ensures RegisterAll(Empty(REPEATING_CONFIG), RepeatingWrapped()) ==
              RepeatingState(map[0 := Pending, 1 := Pending, 2 := Pending], [], [IDLE, IDLE])
  {
    var w, s := RepeatingWrapped(), Empty(REPEATING_CONFIG);
    assert w[..2][..1] == w[..1] && w[..1][..0] == [] && w[..2][1] == w[1] && w[..1][0] == w[0];
    FirstReverse();
    SecondReverse();
    assert RegisterAll(s, w[..1]) == Register(s, w[0]);
    assert RegisterAll(s, w[..2]) == Register(Register(s, w[0]), w[1]);
  }

  lemma RepeatingBlockAccepted()
    ensures !Rejects(REPEATING_CONFIG, Empty(REPEATING_CONFIG), RepeatingBlock())
  {
    var s, ts := Empty(REPEATING_CONFIG), RepeatingBlock();
    var g := RegisterAll(s, ts).deps;
    forall x, y ensures Edge(g, x, y) ==> x == 1 && y == 0 {
      if x in IdsOf(ts) { DepsOfRegistered(s, ts); } else { OthersKeepDeps(s, ts, x); }
    }
    hide RegisterAll;
    OneEdgeAcyclic(g, 1, 0);
    NoEdgesAcyclic(s.deps);
    RejectsWhenCyclic(REPEATING_CONFIG, s, ts);
  }

  lemma RepeatingShape()
    ensures Distinct(Ids(RepeatingBlock())) && NoClimb(RepeatingBlock(), REPEATING_COLOURS)
    ensures NoneWaitFor(Empty(REPEATING_CONFIG), RepeatingBlock()) && Acyclic(Empty(REPEATING_CONFIG).deps)
  {
    hide Reaches, Acyclic;
    NoEdgesAcyclic(Empty(REPEATING_CONFIG).deps);
  }

  lemma RepeatingAccepted()
    ensures !Rejects(REPEATING_CONFIG, Empty(REPEATING_CONFIG), RepeatingWrapped())
  {
    hide *;
    RepeatingBlockAccepted();
    RepeatingShape();
    RepeatingPlan();
    NoClimbKeepsBlock(REPEATING_CONFIG, Empty(REPEATING_CONFIG), RepeatingBlock(), OneKey,
                      REPEATING_ADJ, REPEATING_COLOURS, REPEATING_PARTS, RepeatingWrapped());
  }

  lemma RepeatingFound()
    ensures FindReady(RepeatingState(map[0 := Pending, 1 := Pending, 2 := Pending], [], [IDLE, IDLE]),
      RepeatingWrapped()) == [0]
  {
    var s1 := RepeatingState(map[0 := Pending, 1 := Pending, 2 := Pending], [], [IDLE, IDLE]);
    var w := RepeatingWrapped();
    assert w[..2][..1] == w[..1] && w[..1][..0] == [] && w[..2][1] == w[1] && w[..1][0] == w[0];
    assert 0 in DepsOf(s1.deps, 1) && 0 in DepsOf(s1.deps, 2);
    assert FindReady(s1, w[..1]) == [0] && FindReady(s1, w[..2]) == [0];
  }

  lemma RepeatingAdded()
    ensures AddTasks(REPEATING_CONFIG, Empty(REPEATING_CONFIG), RepeatingWrapped()) ==
              RepeatingState(map[0 := Ready, 1 := Pending, 2 := Pending], [0], [IDLE, IDLE])
  {
    hide RegisterAll, Rejects, FindReady, RepeatingWrapped;
    var c := REPEATING_CONFIG;
    var s1 := RepeatingState(map[0 := Pending, 1 := Pending, 2 := Pending], [], [IDLE, IDLE]);
    RepeatingRegistered();
    RepeatingAccepted();
    RepeatingFound();
    assert [0][..0] == [] && Enqueue(c, s1, []) == s1;
    assert Enqueue(c, s1, [0]) == PushReady(c, s1, 0);
  }

  /** Completing task 0 queues task 1 twice. */
  lemma FirstCompletion(order: seq<nat>)
    requires order != []
    ensures Complete(REPEATING_CONFIG, RepeatingState(map[0 := Running, 1 := Pending, 2 := Pending], [], [0, IDLE]),
      0, order) ==
              RepeatingState(map[0 := Completed, 1 := Ready, 2 := Pending], [1, 1], [IDLE, IDLE])
  {
    var c := REPEATING_CONFIG;
    var s := RepeatingState(map[0 := Running, 1 := Pending, 2 := Pending], [], [0, IDLE]);
    var s1 := RepeatingState(map[0 := Completed, 1 := Pending, 2 := Pending], [], [IDLE, IDLE]);
    assert MarkCompleted(s, 0) == s1;
    assert 1 in DepsOf(s1.deps, 2) && !Wakes(s1, 2) && Wakes(s1, 1);
    assert [1, 1, 2][..2] == [1, 1] && [1, 1][..1] == [1] && [1][..0] == [];
    assert WokenAmong(s1, [1]) == [1] && WokenAmong(s1, [1, 1]) == [1, 1] && WokenAmong(s1, [1, 1, 2]) == [1, 1];
    assert Enqueue(c, s1, []) == s1 && Enqueue(c, s1, [1]) == PushReady(c, s1, 1);
    assert Enqueue(c, s1, [1, 1]) == PushReady(c, PushReady(c, s1, 1), 1);
  }

  /** Completing task 1 once queues task 2 behind the second copy of task 1. */
  lemma SecondCompletion(order: seq<nat>)
    requires order != []
    ensures Complete(REPEATING_CONFIG, RepeatingState(map[0 := Completed, 1 := Running, 2 := Pending], [1], [1, IDLE]),
      1, order) ==
              RepeatingState(map[0 := Completed, 1 := Completed, 2 := Ready], [1, 2], [IDLE, IDLE])
  {
    var c := REPEATING_CONFIG;
    var s := RepeatingState(map[0 := Completed, 1 := Running, 2 := Pending], [1], [1, IDLE]);
    var s1 := RepeatingState(map[0 := Completed, 1 := Completed, 2 := Pending], [1], [IDLE, IDLE]);
    assert MarkCompleted(s, 1) == s1;
    assert Wakes(s1, 2) && [2][..0] == [] && WokenAmong(s1, [2]) == [2];
    assert Enqueue(c, s1, []) == s1 && Enqueue(c, s1, [2]) == PushReady(c, s1, 2);
  }

  lemma Completes(c: Config, s: State, steps: seq<Step>, x: Id) returns (more: seq<Step>, order: seq<nat>)
    requires Allowed(c, s, steps) && HasStatus(After(c, s, steps), x, Running) && After(c, s, steps).queues != []
    ensures Allowed(c, s, more) && order != []
    ensures After(c, s, more) == Complete(c, After(c, s, steps), x, order)
  {
    order := LoadOrder(After(c, s, steps).queues);
    hide Allowed, After;
    Extend(c, s, steps, CompleteStep(x, order));
    more := steps + [CompleteStep(x, order)];
  }

  ghost function RepeatingStart(): State {
    AddTasks(REPEATING_CONFIG, Empty(REPEATING_CONFIG), RepeatingWrapped())
  }

  /** Worker 0 runs the first task of the ready queue to its completion. */
  lemma RunsFirst(c: Config, s: State, steps: seq<Step>) returns (more: seq<Step>, order: seq<nat>)
    requires Allowed(c, s, steps) && Free(After(c, s, steps), 0) && After(c, s, steps).ready != []
    ensures Allowed(c, s, more) && order != []
    ensures var mid := After(c, s, steps);
      After(c, s, more) == Complete(c, StartFirst(mid, 0), mid.ready[0], order)
  {
    var mid := After(c, s, steps);
    hide Allowed, After, Complete;
    more := Starts(c, s, steps, 0);
    more, order := Completes(c, s, more, mid.ready[0]);
  }

  lemma StartRepeating(status: map<Id, Status>, ready: seq<Id>)
    requires ready != []
    ensures var s := RepeatingState(status, ready, [IDLE, IDLE]);
      && Free(s, 0) && s.ready == ready
      && StartFirst(s, 0) == RepeatingState(status[ready[0] := Running], ready[1..], [ready[0], IDLE])
  {
    assert [IDLE, IDLE][0 := ready[0]] == [ready[0], IDLE];
  }

  lemma AfterNothing(c: Config, s: State)
    ensures Allowed(c, s, []) && After(c, s, []) == s
  {}

  /** Task 0 runs and completes, then the first copy of task 1. */
  lemma RunsToSecondCopy() returns (steps: seq<Step>)
    ensures Allowed(REPEATING_CONFIG, RepeatingStart(), steps)
    ensures After(REPEATING_CONFIG, RepeatingStart(), steps) ==
              RepeatingState(map[0 := Completed, 1 := Completed, 2 := Ready], [1, 2], [IDLE, IDLE])
  {
    hide Allowed, After, AddTasks, Complete, RepeatingDeps, RepeatingState, Free, StartFirst;
    RepeatingAdded();
    var c, s := REPEATING_CONFIG, RepeatingStart();
    var order: seq<nat>;
    AfterNothing(c, s);
    assert s == RepeatingState(map[0 := Ready, 1 := Pending, 2 := Pending], [0], [IDLE, IDLE]);
    StartRepeating(map[0 := Ready, 1 := Pending, 2 := Pending], [0]);
    steps, order := RunsFirst(c, s, []);
    assert map[0 := Ready, 1 := Pending, 2 := Pending][0 := Running] == map[0 := Running, 1 := Pending, 2 := Pending];
    assert [0][1..] == [];
    FirstCompletion(order);
    StartRepeating(map[0 := Completed, 1 := Ready, 2 := Pending], [1, 1]);
    steps, order := RunsFirst(c, s, steps);
    assert map[0 := Completed, 1 := Ready, 2 := Pending][1 := Running] ==
      map[0 := Completed, 1 := Running, 2 := Pending];
    assert [1, 1][1..] == [1];
    SecondCompletion(order);
  }

  lemma SecondCopyRuns() returns (steps: seq<Step>)
    ensures var c, s := REPEATING_CONFIG, RepeatingStart();
      && Allowed(c, s, steps)
      && HasStatus(After(c, s, steps), 1, Running) && HasStatus(After(c, s, steps), 2, Running)
  {
    var c, s := REPEATING_CONFIG, RepeatingStart();
    steps := RunsToSecondCopy();
    hide Allowed, After, AddTasks, RepeatingStart, RepeatingDeps;
    steps := Starts(c, s, steps, 0);
    assert After(c, s, steps) == RepeatingState(map[0 := Completed, 1 := Running, 2 := Ready], [2], [1, IDLE]);
    steps := Starts(c, s, steps, 1);
  }

  /** The scheduler accepts the plan of this block, and conflicting tasks 1 and 2 run together. */
  lemma RepeatedDependencyRunsTogether() returns (steps: seq<Step>)
    ensures IsPlan(RepeatingBlock(), OneKey, REPEATING_ADJ, REPEATING_COLOURS, REPEATING_PARTS, RepeatingWrapped())
    ensures Conflict(RepeatingBlock(), OneKey, 1, 2)
    ensures var c, s := REPEATING_CONFIG, Empty(REPEATING_CONFIG);
      var s1 := AddTasks(c, s, RepeatingWrapped());
      && !Rejects(c, s, RepeatingWrapped()) && Allowed(c, s1, steps)
      && HasStatus(After(c, s1, steps), 1, Running) && HasStatus(After(c, s1, steps), 2, Running)
  {
    RepeatingPlan();
    RepeatingConflicts(1, 2);
    RepeatingAccepted();
    hide IsPlan, Conflict, Rejects, AddTasks, Allowed, After;
    steps := SecondCopyRuns();
  }
}
