/** When the scheduler accepts a planned block: exactly which dependencies of the tasks' own the
    injected ones turn into cycles or repetitions. */
module PlanAcceptance {
  import opened DependencyGraph
  import opened CycleDetection
  import opened SchedulerState
  import opened SchedulerRuns
  import opened ConflictColouring
  import opened ConflictPlanner

  /** A dependency on a task of a later batch. */
  ghost predicate Climbs(colours: Colours, x: Id, d: Id) {
    x in colours && d in colours && colours[x] < colours[d]
  }

  /** No task of the block depends on a task of a later batch. */
  ghost predicate NoClimb(tasks: seq<Task>, colours: Colours) {
    forall i, d | 0 <= i < |tasks| && d in tasks[i].deps :: !Climbs(colours, tasks[i].id, d)
  }

  /** No task of the block depends on one it conflicts with. */
  ghost predicate NoOwnConflict(tasks: seq<Task>, touch: Touch) {
    forall i, d | 0 <= i < |tasks| && d in tasks[i].deps :: !Conflict(tasks, touch, tasks[i].id, d)
  }

  /** No registered task waits for a task of the block. */
  ghost predicate NoneWaitFor(s: State, tasks: seq<Task>) {
    forall x, d | Edge(s.deps, x, d) :: d !in IdsOf(tasks)
  }

  /** The i-th task depends on a later batch's task d, which leads back to it. */
  ghost predicate ClosesAt(tasks: seq<Task>, colours: Colours, g: Graph, i: int, d: Id) {
    0 <= i < |tasks| && d in tasks[i].deps && Climbs(colours, tasks[i].id, d) && Reaches(g, d, tasks[i].id)
  }

  ghost predicate ClosesBack(tasks: seq<Task>, colours: Colours, g: Graph) {
    exists i, d :: ClosesAt(tasks, colours, g, i, d)
  }

  // ---------------------------------------------------------------- the edges of a wrapped block

  lemma {:induction false} OthersKeepDeps(s: State, ts: seq<Task>, x: Id)
    requires x !in IdsOf(ts)
    ensures DepsOf(RegisterAll(s, ts).deps, x) == DepsOf(s.deps, x)
  {
    if ts != [] {
      var front := ts[..|ts| - 1];
      assert forall i | 0 <= i < |front| :: front[i] == ts[i];
      OthersKeepDeps(s, front, x);
    }
  }

  lemma SameIds(adj: Adjacency, colours: Colours, tasks: seq<Task>, wrapped: seq<Task>)
    requires AllWrapped(adj, colours, tasks, wrapped)
    ensures Ids(wrapped) == Ids(tasks) && IdsOf(wrapped) == IdsOf(tasks) == IdsOf(tasks)
  {
    forall i | 0 <= i < |tasks| ensures wrapped[i].id == tasks[i].id {
      assert Wraps(adj, colours, tasks[i], wrapped[i]);
    }
  }

  /** An edge of the wrapped block is one of the block itself or an injected one. */
  lemma WrappedEdge(s: State, tasks: seq<Task>, adj: Adjacency, colours: Colours, wrapped: seq<Task>, x: Id, y: Id)
    requires Distinct(Ids(tasks)) && AllWrapped(adj, colours, tasks, wrapped)
    ensures Edge(RegisterAll(s, wrapped).deps, x, y)
       <==> Edge(RegisterAll(s, tasks).deps, x, y) || (x in IdsOf(tasks) && y in Earlier(adj, colours, x))
  {
    SameIds(adj, colours, tasks, wrapped);
    if x in IdsOf(tasks) {
      var i := IndexOf(tasks, x);
      DepsOfRegistered(s, tasks);
      DepsOfRegistered(s, wrapped);
      assert Wraps(adj, colours, tasks[i], wrapped[i]);
      hide RegisterAll;
      assert y in wrapped[i].deps <==> y in tasks[i].deps || y in Extra(tasks[i], wrapped[i]);
    } else {
      OthersKeepDeps(s, tasks, x);
      OthersKeepDeps(s, wrapped, x);
    }
  }

  lemma OwnEdge(s: State, tasks: seq<Task>, i: nat, d: Id)
    requires Distinct(Ids(tasks)) && i < |tasks|
    ensures Edge(RegisterAll(s, tasks).deps, tasks[i].id, d) <==> d in tasks[i].deps
  {
    DepsOfRegistered(s, tasks);
  }

  // ---------------------------------------------------------------- cycles

  ghost predicate StepsDown(colours: Colours, x: Id, y: Id) {
    y in colours ==> x in colours && colours[y] <= colours[x]
  }

  lemma {:induction false} DownPath(colours: Colours, p: seq<Id>)
    requires p != [] && p[|p| - 1] in colours
    requires forall i, j | 0 <= i && j == i + 1 && j < |p| :: StepsDown(colours, p[i], p[j])
    ensures forall i | 0 <= i < |p| :: p[i] in colours && colours[p[|p| - 1]] <= colours[p[i]]
    decreases |p|
  {
    if |p| > 1 {
      var rest := p[1..];
      DownPath(colours, rest);
      assert StepsDown(colours, p[0], p[1]);
      forall i | 0 <= i < |p| ensures p[i] in colours && colours[p[|p| - 1]] <= colours[p[i]] {
        if i > 0 { assert p[i] == rest[i - 1]; } else { assert p[1] == rest[0]; }
      }
    }
  }

  /** A cycle that never climbs stays in one batch or outside the block. */
  lemma FlatCycle(colours: Colours, p: seq<Id>, k: nat)
    requires k < |p| && p[0] == p[|p| - 1]
    requires forall i, j | 0 <= i && j == i + 1 && j < |p| :: StepsDown(colours, p[i], p[j])
    ensures p[k] in colours <==> p[0] in colours
    ensures p[k] in colours ==> colours[p[k]] == colours[p[0]]
  {
    var front := p[..k + 1];
    if p[0] in colours { DownPath(colours, p); }
    if p[k] in colours {
      DownPath(colours, front);
      assert front[0] == p[0];
    }
  }

  lemma CycleLeadsBack(g: Graph, p: seq<Id>, k: nat)
    requires k + 1 < |p| && PathFromTo(g, p, p[0], p[0]) && p[k] != p[k + 1]
    ensures Reaches(g, p[k + 1], p[k])
  {
    var x := p[0];
    if k + 2 < |p| {
      SubPath(g, p, k + 1, |p|);
      assert PathFromTo(g, p[k + 1..|p|], p[k + 1], x);
    }
    if k > 0 {
      SubPath(g, p, 0, k + 1);
      assert PathFromTo(g, p[0..k + 1], x, p[k]);
    }
    if k + 2 < |p| && k > 0 { ReachesTransitive(g, p[k + 1], x, p[k]); }
  }

  lemma EdgeStepsDown(s: State, tasks: seq<Task>, adj: Adjacency, colours: Colours, wrapped: seq<Task>, x: Id, y: Id)
    requires Distinct(Ids(tasks)) && AllWrapped(adj, colours, tasks, wrapped) && colours.Keys == IdsOf(tasks)
    requires NoneWaitFor(s, tasks) && Edge(RegisterAll(s, wrapped).deps, x, y) && !Climbs(colours, x, y)
    ensures StepsDown(colours, x, y)
  {
    if x !in colours {
      SameIds(adj, colours, tasks, wrapped);
      OthersKeepDeps(s, wrapped, x);
      assert Edge(s.deps, x, y);
    }
  }

  lemma ClimbIsOwn(s: State, tasks: seq<Task>, adj: Adjacency, colours: Colours, wrapped: seq<Task>, x: Id, y: Id)
    returns (i: nat)
    requires Distinct(Ids(tasks)) && AllWrapped(adj, colours, tasks, wrapped) && colours.Keys == IdsOf(tasks)
    requires Edge(RegisterAll(s, wrapped).deps, x, y) && Climbs(colours, x, y)
    ensures i < |tasks| && tasks[i].id == x && y in tasks[i].deps
  {
    i := IndexOf(tasks, x);
    WrappedEdge(s, tasks, adj, colours, wrapped, x, y);
    OwnEdge(s, tasks, i, y);
  }

  /** A cycle of the wrapped block that never climbs was there before wrapping. */
  lemma FlatCycleIsOld(s: State, tasks: seq<Task>, adj: Adjacency, colours: Colours, wrapped: seq<Task>, p: seq<Id>)
    requires Distinct(Ids(tasks)) && AllWrapped(adj, colours, tasks, wrapped) && colours.Keys == IdsOf(tasks)
    requires NoneWaitFor(s, tasks) && |p| >= 2 && PathFromTo(RegisterAll(s, wrapped).deps, p, p[0], p[0])
    requires forall i, j | 0 <= i && j == i + 1 && j < |p| :: !Climbs(colours, p[i], p[j])
    ensures Reaches(RegisterAll(s, tasks).deps, p[0], p[0])
  {
    var g, h := RegisterAll(s, wrapped).deps, RegisterAll(s, tasks).deps;
    forall i, j | 0 <= i && j == i + 1 && j < |p| ensures StepsDown(colours, p[i], p[j]) {
      assert Edge(g, p[i], p[i + 1]);
      EdgeStepsDown(s, tasks, adj, colours, wrapped, p[i], p[j]);
    }
    hide RegisterAll, StepsDown, Climbs;
    forall i | 0 <= i < |p| - 1 ensures Edge(h, p[i], p[i + 1]) {
      FlatCycle(colours, p, i);
      FlatCycle(colours, p, i + 1);
      assert Edge(g, p[i], p[i + 1]);
      WrappedEdge(s, tasks, adj, colours, wrapped, p[i], p[i + 1]);
    }
    assert PathFromTo(h, p, p[0], p[0]);
  }

  lemma CycleClosesBack(s: State, tasks: seq<Task>, adj: Adjacency, colours: Colours, wrapped: seq<Task>, x: Id)
    requires Distinct(Ids(tasks)) && AllWrapped(adj, colours, tasks, wrapped) && colours.Keys == IdsOf(tasks)
    requires NoneWaitFor(s, tasks) && Reaches(RegisterAll(s, wrapped).deps, x, x)
    ensures Reaches(RegisterAll(s, tasks).deps, x, x) || ClosesBack(tasks, colours, RegisterAll(s, wrapped).deps)
  {
    var g := RegisterAll(s, wrapped).deps;
    var p :| PathFromTo(g, p, x, x);
    if k, j :| 0 <= k && j == k + 1 && j < |p| && Climbs(colours, p[k], p[j]) {
      assert Edge(g, p[k], p[k + 1]);
      var i := ClimbIsOwn(s, tasks, adj, colours, wrapped, p[k], p[j]);
      CycleLeadsBack(g, p, k);
      assert ClosesAt(tasks, colours, g, i, p[j]);
    } else {
      FlatCycleIsOld(s, tasks, adj, colours, wrapped, p);
    }
  }

  /** From a task outside the block the wrapped block's edges stay outside, and are the block's own. */
  lemma {:induction false} StaysOutside(s: State, tasks: seq<Task>, adj: Adjacency, colours: Colours,
          wrapped: seq<Task>, p: seq<Id>)
    requires AllWrapped(adj, colours, tasks, wrapped) && NoneWaitFor(s, tasks)
    requires p != [] && p[0] !in IdsOf(tasks) && IsPath(RegisterAll(s, wrapped).deps, p)
    ensures IsPath(RegisterAll(s, tasks).deps, p)
    decreases |p|
  {
    if |p| > 1 {
      var g, h := RegisterAll(s, wrapped).deps, RegisterAll(s, tasks).deps;
      SameIds(adj, colours, tasks, wrapped);
      OthersKeepDeps(s, wrapped, p[0]);
      OthersKeepDeps(s, tasks, p[0]);
      assert Edge(g, p[0], p[1]) && Edge(s.deps, p[0], p[1]);
      SubPath(g, p, 1, |p|);
      hide RegisterAll, AllWrapped;
      StaysOutside(s, tasks, adj, colours, wrapped, p[1..|p|]);
      forall i | 0 <= i < |p| - 1 ensures Edge(h, p[i], p[i + 1]) {
        if i > 0 { assert Edge(h, p[1..|p|][i - 1], p[1..|p|][i]); }
      }
    }
  }

  /** What the wrapped block reaches, the block itself reaches from some of its tasks. */
  lemma {:induction false} BlockReaches(s: State, tasks: seq<Task>, adj: Adjacency, colours: Colours,
          wrapped: seq<Task>, p: seq<Id>)
    returns (b: Id)
    requires Distinct(Ids(tasks)) && AllWrapped(adj, colours, tasks, wrapped) && colours.Keys == IdsOf(tasks)
    requires NoneWaitFor(s, tasks)
    requires p != [] && p[0] in IdsOf(tasks) && IsPath(RegisterAll(s, wrapped).deps, p)
    ensures b in IdsOf(tasks) && ReachesOrIs(RegisterAll(s, tasks).deps, b, p[|p| - 1])
    decreases |p|
  {
    hide *;
    var g, h := RegisterAll(s, wrapped).deps, RegisterAll(s, tasks).deps;
    b := p[0];
    if |p| > 1 {
      var rest := p[1..|p|];
      SubPath(g, p, 1, |p|);
      if p[1] in IdsOf(tasks) {
        b := BlockReaches(s, tasks, adj, colours, wrapped, rest);
      } else {
        StaysOutside(s, tasks, adj, colours, wrapped, rest);
        LeavesBlock(s, tasks, adj, colours, wrapped, p);
        StepThenPath(h, b, rest);
      }
    } else {
      StepThenPath(h, b, p);
    }
  }

  lemma LeavesBlock(s: State, tasks: seq<Task>, adj: Adjacency, colours: Colours, wrapped: seq<Task>, p: seq<Id>)
    requires Distinct(Ids(tasks)) && AllWrapped(adj, colours, tasks, wrapped) && colours.Keys == IdsOf(tasks)
    requires |p| > 1 && p[1] !in IdsOf(tasks) && IsPath(RegisterAll(s, wrapped).deps, p)
    ensures Edge(RegisterAll(s, tasks).deps, p[0], p[1])
  {
    assert Edge(RegisterAll(s, wrapped).deps, p[0], p[1]);
    WrappedEdge(s, tasks, adj, colours, wrapped, p[0], p[1]);
    hide RegisterAll, AllWrapped;
  }

  lemma StepThenPath(g: Graph, x: Id, p: seq<Id>)
    requires p != [] && IsPath(g, p) && (Edge(g, x, p[0]) || x == p[0])
    ensures ReachesOrIs(g, x, p[|p| - 1])
  {
    PathReaches(g, p);
    if Edge(g, x, p[0]) {
      EdgeReaches(g, x, p[0]);
      if |p| > 1 { ReachesTransitive(g, x, p[0], p[|p| - 1]); }
    }
  }

  lemma PathReaches(g: Graph, p: seq<Id>)
    requires p != [] && IsPath(g, p)
    ensures |p| > 1 ==> Reaches(g, p[0], p[|p| - 1])
  {
    if |p| > 1 { assert PathFromTo(g, p, p[0], p[|p| - 1]); }
  }

  /** A cycle found from the wrapped block is found from the block itself, unless a climbing
      dependency leads back. */
  lemma WrappedCycle(s: State, tasks: seq<Task>, adj: Adjacency, colours: Colours, wrapped: seq<Task>)
    requires Distinct(Ids(tasks)) && AllWrapped(adj, colours, tasks, wrapped) && colours.Keys == IdsOf(tasks)
    requires NoneWaitFor(s, tasks) && CycleReachable(RegisterAll(s, wrapped).deps, Ids(tasks))
    ensures CycleReachable(RegisterAll(s, tasks).deps, Ids(tasks))
         || ClosesBack(tasks, colours, RegisterAll(s, wrapped).deps)
  {
    var g, h := RegisterAll(s, wrapped).deps, RegisterAll(s, tasks).deps;
    var r, x :| r in Ids(tasks) && ReachesOrIs(g, r, x) && Reaches(g, x, x);
    CycleClosesBack(s, tasks, adj, colours, wrapped, x);
    var p := [x];
    if r != x { p :| PathFromTo(g, p, r, x); }
    InIds(tasks, r);
    var b := BlockReaches(s, tasks, adj, colours, wrapped, p);
    InIds(tasks, b);
  }

  lemma InIds(tasks: seq<Task>, x: Id)
    ensures x in Ids(tasks) <==> x in IdsOf(tasks)
  {
    if x in IdsOf(tasks) {
      var i := IndexOf(tasks, x);
      assert Ids(tasks)[i] == x;
    }
  }

  /** What the block reaches, the wrapped block reaches. */
  lemma OldCycleStays(s: State, tasks: seq<Task>, adj: Adjacency, colours: Colours, wrapped: seq<Task>)
    requires Distinct(Ids(tasks)) && AllWrapped(adj, colours, tasks, wrapped)
    requires CycleReachable(RegisterAll(s, tasks).deps, Ids(tasks))
    ensures CycleReachable(RegisterAll(s, wrapped).deps, Ids(tasks))
  {
    var g, h := RegisterAll(s, wrapped).deps, RegisterAll(s, tasks).deps;
    var r, x :| r in Ids(tasks) && ReachesOrIs(h, r, x) && Reaches(h, x, x);
    forall a, b ensures Edge(h, a, b) ==> Edge(g, a, b) { WrappedEdge(s, tasks, adj, colours, wrapped, a, b); }
    hide RegisterAll, Reaches;
    if r != x { WithinReach(h, g, r, x); }
    WithinReach(h, g, x, x);
    assert ReachesOrIs(g, r, x);
  }

  /** A climbing dependency that leads back closes a cycle. */
  lemma ClosingIsCycle(s: State, tasks: seq<Task>, adj: Adjacency, colours: Colours, wrapped: seq<Task>, i: nat, d: Id)
    requires Distinct(Ids(tasks)) && AllWrapped(adj, colours, tasks, wrapped)
    requires ClosesAt(tasks, colours, RegisterAll(s, wrapped).deps, i, d)
    ensures Reaches(RegisterAll(s, wrapped).deps, tasks[i].id, tasks[i].id)
    ensures CycleReachable(RegisterAll(s, wrapped).deps, Ids(tasks))
  {
    var g, x := RegisterAll(s, wrapped).deps, tasks[i].id;
    WrappedEdge(s, tasks, adj, colours, wrapped, x, d);
    OwnEdge(s, tasks, i, d);
    hide RegisterAll, Reaches;
    EdgeReaches(g, x, d);
    ReachesTransitive(g, x, d, x);
    assert Ids(tasks)[i] == x && ReachesOrIs(g, x, x);
  }

  // ---------------------------------------------------------------- when a plan is rejected

  /** In an acyclic graph the cycles found from new tasks are all the cycles there are. */
  lemma RejectsWhenCyclic(c: Config, s: State, ts: seq<Task>)
    requires Acyclic(s.deps)
    ensures Rejects(c, s, ts) <==> c.dependencyAnalysis && !Acyclic(RegisterAll(s, ts).deps)
  {
    var g := RegisterAll(s, ts).deps;
    forall x | x !in Ids(ts) ensures DepsOf(g, x) == DepsOf(s.deps, x) {
      assert forall i | 0 <= i < |ts| :: Ids(ts)[i] == ts[i].id;
      OthersKeepDeps(s, ts, x);
    }
    hide RegisterAll, Acyclic;
    AcyclicAfterAdding(s.deps, g, Ids(ts));
  }

  lemma SelfReachRejected(c: Config, s: State, ts: seq<Task>, i: nat)
    requires c.dependencyAnalysis && i < |ts| && Reaches(RegisterAll(s, ts).deps, ts[i].id, ts[i].id)
    ensures Rejects(c, s, ts)
  {
    assert Ids(ts)[i] == ts[i].id;
    assert ReachesOrIs(RegisterAll(s, ts).deps, ts[i].id, ts[i].id);
  }

  /** Planning makes the scheduler reject a block it would accept exactly when some task depends on
      a task of a later batch that leads back to it; other cycles the scheduler may hold are no matter. */
  lemma PlanRejectedExactly(c: Config, s: State, tasks: seq<Task>, touch: Touch, adj: Adjacency, colours: Colours,
                            parts: seq<seq<Id>>, wrapped: seq<Task>)
    requires Distinct(Ids(tasks)) && IsPlan(tasks, touch, adj, colours, parts, wrapped)
    requires c.dependencyAnalysis ==> NoneWaitFor(s, tasks)
    ensures Rejects(c, s, wrapped) <==>
              Rejects(c, s, tasks) || (c.dependencyAnalysis && ClosesBack(tasks, colours, RegisterAll(s, wrapped).deps))
  {
    var g := RegisterAll(s, wrapped).deps;
    SameIds(adj, colours, tasks, wrapped);
    hide RegisterAll, NoneWaitFor, CycleReachable;
    if c.dependencyAnalysis && CycleReachable(g, Ids(tasks)) { WrappedCycle(s, tasks, adj, colours, wrapped); }
    if CycleReachable(RegisterAll(s, tasks).deps, Ids(tasks)) { OldCycleStays(s, tasks, adj, colours, wrapped); }
    if i, d :| ClosesAt(tasks, colours, g, i, d) { ClosingIsCycle(s, tasks, adj, colours, wrapped, i, d); }
  }

  /** A block whose dependencies never climb is rejected exactly when it would be without planning. */
  lemma NoClimbKeepsBlock(c: Config, s: State, tasks: seq<Task>, touch: Touch, adj: Adjacency, colours: Colours,
                          parts: seq<seq<Id>>, wrapped: seq<Task>)
    requires Distinct(Ids(tasks)) && IsPlan(tasks, touch, adj, colours, parts, wrapped)
    requires (c.dependencyAnalysis ==> NoneWaitFor(s, tasks)) && NoClimb(tasks, colours)
    ensures Rejects(c, s, wrapped) <==> Rejects(c, s, tasks)
  {
    PlanRejectedExactly(c, s, tasks, touch, adj, colours, parts, wrapped);
    hide Rejects, IsPlan, RegisterAll, Acyclic, NoneWaitFor;
  }

  /** A dependency on a conflicting task of a later batch leads straight back. */
  lemma ConflictLeadsBack(s: State, tasks: seq<Task>, touch: Touch, adj: Adjacency, colours: Colours,
                          parts: seq<seq<Id>>, wrapped: seq<Task>, i: nat, d: Id)
    requires Distinct(Ids(tasks)) && IsPlan(tasks, touch, adj, colours, parts, wrapped)
    requires i < |tasks| && d in tasks[i].deps && Climbs(colours, tasks[i].id, d)
    requires Conflict(tasks, touch, tasks[i].id, d)
    ensures ClosesAt(tasks, colours, RegisterAll(s, wrapped).deps, i, d)
    ensures Edge(RegisterAll(s, wrapped).deps, tasks[i].id, d)
  {
    var x, g := tasks[i].id, RegisterAll(s, wrapped).deps;
    ConflictSymmetric(tasks, touch, adj);
    assert x in Earlier(adj, colours, d);
    WrappedEdge(s, tasks, adj, colours, wrapped, d, x);
    WrappedEdge(s, tasks, adj, colours, wrapped, x, d);
    OwnEdge(s, tasks, i, d);
    hide RegisterAll, Earlier;
    EdgeReaches(g, d, x);
  }

  /** When tasks climb to conflicting tasks only, planning makes the scheduler reject the block
      exactly when some task climbs: nothing but the colours need be looked at. */
  lemma ConflictingClimbExactly(c: Config, s: State, tasks: seq<Task>, touch: Touch, adj: Adjacency, colours: Colours,
                                parts: seq<seq<Id>>, wrapped: seq<Task>)
    requires Distinct(Ids(tasks)) && IsPlan(tasks, touch, adj, colours, parts, wrapped)
    requires c.dependencyAnalysis ==> NoneWaitFor(s, tasks)
    requires forall i, d | 0 <= i < |tasks| && d in tasks[i].deps && Climbs(colours, tasks[i].id, d) ::
               Conflict(tasks, touch, tasks[i].id, d)
    ensures Rejects(c, s, wrapped) <==> Rejects(c, s, tasks) || (c.dependencyAnalysis && !NoClimb(tasks, colours))
  {
    PlanRejectedExactly(c, s, tasks, touch, adj, colours, parts, wrapped);
    if !NoClimb(tasks, colours) {
      var i, d :| 0 <= i < |tasks| && d in tasks[i].deps && Climbs(colours, tasks[i].id, d);
      ConflictLeadsBack(s, tasks, touch, adj, colours, parts, wrapped, i, d);
    }
    hide Rejects, IsPlan, RegisterAll, Acyclic, NoneWaitFor, Conflict;
  }

  // ---------------------------------------------------------------- when a plan is addable

  /** Wrapping keeps a block submittable exactly when no task depends on an earlier neighbour. */
  lemma PlanSubmittableExactly(c: Config, s: State, tasks: seq<Task>, adj: Adjacency,
          colours: Colours, wrapped: seq<Task>)
    requires AllWrapped(adj, colours, tasks, wrapped)
    ensures Submittable(c, s, wrapped) <==>
              Submittable(c, s, tasks)
              && forall i, d | 0 <= i < |tasks| && d in tasks[i].deps :: d !in Earlier(adj, colours, tasks[i].id)
  {
    SameIds(adj, colours, tasks, wrapped);
    forall i | 0 <= i < |tasks|
      ensures wrapped[i].id == tasks[i].id
      ensures Distinct(wrapped[i].deps) <==>
                Distinct(tasks[i].deps) && forall d | d in tasks[i].deps :: d !in Earlier(adj, colours, tasks[i].id)
    {
      assert Wraps(adj, colours, tasks[i], wrapped[i]);
      WrappedDistinct(adj, colours, tasks[i], wrapped[i]);
    }
    hide Distinct, Earlier;
  }

  /** A dependency on a conflicting task is either repeated by wrapping or closes a cycle. */
  lemma OwnConflictClashes(s: State, tasks: seq<Task>, touch: Touch, adj: Adjacency, colours: Colours,
                           parts: seq<seq<Id>>, wrapped: seq<Task>, i: nat, d: Id)
    requires Distinct(Ids(tasks)) && IsPlan(tasks, touch, adj, colours, parts, wrapped)
    requires i < |tasks| && d in tasks[i].deps && Conflict(tasks, touch, tasks[i].id, d)
    ensures d in Earlier(adj, colours, tasks[i].id) || ClosesAt(tasks, colours, RegisterAll(s, wrapped).deps, i, d)
  {
    var x := tasks[i].id;
    var h :| Owner(tasks, touch, x, h) && Owner(tasks, touch, d, h);
    assert x in colours && d in colours && d in Neighbours(adj, x);
    assert colours[x] != colours[d];
    if colours[x] < colours[d] { ConflictLeadsBack(s, tasks, touch, adj, colours, parts, wrapped, i, d); }
  }

  /** A planned block can be added exactly when the block could be, no task of it depends on an
      earlier neighbour and, with dependency analysis on, no climbing dependency leads back; with it
      on, this rules out every dependency on a conflicting task. */
  lemma PlanAddableExactly(c: Config, s: State, tasks: seq<Task>, touch: Touch, adj: Adjacency, colours: Colours,
                           parts: seq<seq<Id>>, wrapped: seq<Task>)
    requires Distinct(Ids(tasks)) && IsPlan(tasks, touch, adj, colours, parts, wrapped)
    requires c.dependencyAnalysis ==> NoneWaitFor(s, tasks)
    ensures Addable(c, s, wrapped) <==>
      && Addable(c, s, tasks)
      && (forall i, d | 0 <= i < |tasks| && d in tasks[i].deps :: d !in Earlier(adj, colours, tasks[i].id))
      && (c.dependencyAnalysis ==> !ClosesBack(tasks, colours, RegisterAll(s, wrapped).deps))
    ensures c.dependencyAnalysis ==>
      (Addable(c, s, wrapped) <==>
         Addable(c, s, tasks) && NoOwnConflict(tasks, touch)
         && !ClosesBack(tasks, colours, RegisterAll(s, wrapped).deps))
  {
    PlanRejectedExactly(c, s, tasks, touch, adj, colours, parts, wrapped);
    PlanSubmittableExactly(c, s, tasks, adj, colours, wrapped);
    if !NoOwnConflict(tasks, touch) {
      var i, d :| 0 <= i < |tasks| && d in tasks[i].deps && Conflict(tasks, touch, tasks[i].id, d);
      OwnConflictClashes(s, tasks, touch, adj, colours, parts, wrapped, i, d);
    } else {
      forall i, d | 0 <= i < |tasks| && d in tasks[i].deps ensures d !in Earlier(adj, colours, tasks[i].id) {
        assert !Conflict(tasks, touch, tasks[i].id, d);
      }
    }
    hide Rejects, IsPlan, RegisterAll, NoneWaitFor, Submittable, Conflict, Earlier, ClosesAt;
  }

  /** Conditions on the block alone under which its plan can be added wherever the block can. */
  lemma PlanAddable(c: Config, s: State, tasks: seq<Task>, touch: Touch, adj: Adjacency, colours: Colours,
                    parts: seq<seq<Id>>, wrapped: seq<Task>)
    requires Addable(c, s, tasks) && (c.dependencyAnalysis ==> NoneWaitFor(s, tasks))
    requires IsPlan(tasks, touch, adj, colours, parts, wrapped)
    requires NoOwnConflict(tasks, touch) && NoClimb(tasks, colours)
    ensures Addable(c, s, wrapped)
  {
    PlanAddableExactly(c, s, tasks, touch, adj, colours, parts, wrapped);
    forall i, d | 0 <= i < |tasks| && d in tasks[i].deps ensures d !in Earlier(adj, colours, tasks[i].id) {
      assert !Conflict(tasks, touch, tasks[i].id, d);
    }
    hide Rejects, RegisterAll, NoneWaitFor, NoOwnConflict;
  }

  /** Nobody in a live scheduler waits for tasks it does not hold. */
  lemma LiveNotWaiting(c: Config, s: State, tasks: seq<Task>)
    requires Live(c, s) && Submittable(c, s, tasks)
    ensures NoneWaitFor(s, tasks)
  {
    forall x, d | Edge(s.deps, x, d) ensures d !in IdsOf(tasks) {
      assert d in s.tasks;
    }
  }
}
