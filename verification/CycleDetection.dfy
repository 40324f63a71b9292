/** detectCycles and hasCycle: depth-first search over the dependency lists, with the visited and
    on-stack marks shared by all roots. */
module CycleDetection {
  import opened DependencyGraph

  /** The marks of one detectCycles call. */
  class CycleSearch {
    const deps: Graph
    var visited: set<Id>
    var onStack: set<Id>

    constructor (deps: Graph)
      ensures this.deps == deps && visited == {} && onStack == {}
    {
      this.deps := deps;
      visited, onStack := {}, {};
    }

    /** Nodes whose search has returned without a cycle. */
    ghost function Finished(): set<Id>
      reads this
    {
      visited - onStack
    }

    ghost predicate Valid()
      reads this
    {
      && onStack <= visited
      && Closed(deps, Finished())
      && forall x | x in Finished() :: !Reaches(deps, x, x)
    }

    /** Searches from an unvisited node that everything on the stack reaches. `universe` bounds
        the nodes the search can meet. */
    method HasCycle(taskID: Id, ghost universe: set<Id>) returns (found: bool)
      requires Valid() && taskID !in visited
      requires forall r | r in onStack :: Reaches(deps, r, taskID)
      requires taskID in universe && Closed(deps, universe)
      modifies this
      ensures found ==> exists x :: ReachesOrIs(deps, taskID, x) && Reaches(deps, x, x)
      ensures !found ==> Valid() && taskID in Finished() && onStack == old(onStack)
      ensures old(visited) <= visited
      decreases universe - visited
    {
      visited := visited + {taskID};
      onStack := onStack + {taskID};
      assert Finished() == old(Finished());
      var list := DepsOf(deps, taskID);
      var i := 0;
      while i < |list|
        invariant 0 <= i <= |list|
        invariant Valid() && onStack == old(onStack) + {taskID}
        invariant old(visited) + {taskID} <= visited
        invariant forall j | 0 <= j < i :: list[j] in Finished()
      {
        var depID := list[i];
        assert Edge(deps, taskID, depID);
        EdgeReaches(deps, taskID, depID);
        if depID !in visited {
          forall r | r in onStack ensures Reaches(deps, r, depID) {
            if r != taskID { ReachesTransitive(deps, r, taskID, depID); }
          }
          var deeper := HasCycle(depID, universe);
          if deeper {
            ghost var x :| ReachesOrIs(deps, depID, x) && Reaches(deps, x, x);
            if x != depID { ReachesTransitive(deps, taskID, depID, x); }
            return true;
          }
        } else if depID in onStack {
          if depID != taskID { ReachesTransitive(deps, taskID, depID, taskID); }
          return true;
        }
        i := i + 1;
      }
      NoCycleThrough(taskID);
      onStack := onStack - {taskID};
      return false;
    }

    /** A node all of whose dependencies are finished is on no cycle. */
    lemma NoCycleThrough(taskID: Id)
      requires Valid() && taskID !in Finished()
      requires forall y | Edge(deps, taskID, y) :: y in Finished()
      ensures !Reaches(deps, taskID, taskID)
    {
      if Reaches(deps, taskID, taskID) {
        var p :| PathFromTo(deps, p, taskID, taskID);
        assert Edge(deps, p[0], p[1]);
        SubPath(deps, p, 1, |p|);
        var q := p[1..|p|];
        assert q[|q| - 1] == taskID;
        ClosedContainsPath(deps, Finished(), q);
        assert false;
      }
    }
  }

  ghost predicate CycleReachable(g: Graph, roots: seq<Id>) {
    exists r, x :: r in roots && ReachesOrIs(g, r, x) && Reaches(g, x, x)
  }

  /** Every node a search from `roots` can meet. */
  ghost function Universe(g: Graph, roots: seq<Id>): (nodes: set<Id>)
    ensures Closed(g, nodes) && forall r | r in roots :: r in nodes
  {
    (set r | r in roots) + g.Keys + (set x, i | x in g && 0 <= i < |g[x]| :: g[x][i])
  }

  /** Reports an error exactly when a cycle is reachable from the given tasks. */
  method DetectCycles(deps: Graph, tasks: seq<Id>) returns (err: bool)
    ensures err <==> CycleReachable(deps, tasks)
  {
    var search := new CycleSearch(deps);
    ghost var universe := Universe(deps, tasks);
    var i := 0;
    while i < |tasks|
      invariant 0 <= i <= |tasks|
      invariant search.deps == deps && search.Valid() && search.onStack == {}
      invariant fresh(search)
      invariant forall j | 0 <= j < i :: tasks[j] in search.visited
    {
      if tasks[i] !in search.visited {
        var found := search.HasCycle(tasks[i], universe);
        if found {
          return true;
        }
      }
      i := i + 1;
    }
    if CycleReachable(deps, tasks) {
      ghost var r, x :| r in tasks && ReachesOrIs(deps, r, x) && Reaches(deps, x, x);
      if r != x { ClosedContainsReach(deps, search.Finished(), r, x); }
      assert false;
    }
    return false;
  }

  /** Adding the dependency lists of new nodes to an acyclic graph leaves it acyclic exactly when
      no cycle is reachable from the new nodes. */
  lemma AcyclicAfterAdding(g: Graph, g': Graph, added: seq<Id>)
    requires Acyclic(g)
    requires forall x :: x !in added ==> DepsOf(g', x) == DepsOf(g, x)
    ensures Acyclic(g') <==> !CycleReachable(g', added)
  {
    if !CycleReachable(g', added) {
      forall x ensures !Reaches(g', x, x) {
        if Reaches(g', x, x) {
          var p :| PathFromTo(g', p, x, x);
          if i :| 0 <= i < |p| && p[i] in added {
            RotateCycle(g', p, i);
            assert ReachesOrIs(g', p[i], p[i]);
            assert false;
          } else {
            forall k | 0 <= k < |p| - 1 ensures Edge(g, p[k], p[k + 1]) {
              assert Edge(g', p[k], p[k + 1]);
            }
            assert PathFromTo(g, p, x, x);
            assert Reaches(g, x, x);
          }
        }
      }
    }
  }
}
