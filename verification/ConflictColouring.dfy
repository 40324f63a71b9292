/** What the planner computes: the conflict graph of a list of tasks, its greedy colouring, and the
    properties of that colouring. */
module ConflictColouring {
  import opened Collections
  import opened DependencyGraph
  import opened SchedulerState

  /** Each task's access keys, hashed. Collisions are possible. */
  type Touch = Task -> seq<nat>

  ghost predicate Owner(tasks: seq<Task>, touch: Touch, x: Id, h: nat) {
    exists i :: 0 <= i < |tasks| && tasks[i].id == x && h in touch(tasks[i])
  }

  /** Two different tasks with a key hash in common. */
  ghost predicate Conflict(tasks: seq<Task>, touch: Touch, x: Id, y: Id) {
    x != y && exists h :: Owner(tasks, touch, x, h) && Owner(tasks, touch, y, h)
  }

  type Adjacency = map<Id, set<Id>>

  /** A task with two keys of one hash, or listed twice, is entered beside itself. */
  function Entered(adj: Adjacency, x: Id): set<Id> {
    if x in adj then adj[x] else {}
  }

  function Neighbours(adj: Adjacency, x: Id): set<Id> {
    Entered(adj, x) - {x}
  }

  ghost predicate IsConflictGraph(tasks: seq<Task>, touch: Touch, adj: Adjacency) {
    forall x, y :: y in Neighbours(adj, x) <==> Conflict(tasks, touch, x, y)
  }

  type Colours = map<Id, nat>

  function UsedColours(colours: Colours, nodes: set<Id>): set<nat> {
    set n | n in nodes && n in colours :: colours[n]
  }

  ghost predicate LeastFree(c: nat, used: set<nat>) {
    c !in used && forall k: nat | k < c :: k in used
  }

  /** Each task in turn has the least colour not used by the neighbours before it. */
  ghost predicate Greedy(tasks: seq<Task>, adj: Adjacency, colours: Colours) {
    && colours.Keys == IdsOf(tasks)
    && forall i | 0 <= i < |tasks| ::
         LeastFree(colours[tasks[i].id], UsedColours(colours, Neighbours(adj, tasks[i].id) * IdsOf(tasks[..i])))
  }

  /** Neighbours have different colours. */
  ghost predicate ProperColouring(adj: Adjacency, colours: Colours) {
    forall x, y | x in colours && y in colours && y in Neighbours(adj, x) :: colours[x] != colours[y]
  }

  /** A colour is at most the number of entries beside the task. */
  ghost predicate BoundedColouring(adj: Adjacency, colours: Colours) {
    forall x | x in colours :: colours[x] <= |Entered(adj, x)|
  }

  // ---------------------------------------------------------------- properties

  ghost predicate Symmetric(adj: Adjacency) {
    forall x, y :: y in Neighbours(adj, x) ==> x in Neighbours(adj, y)
  }

  lemma IndexOf(tasks: seq<Task>, x: Id) returns (i: nat)
    requires x in IdsOf(tasks)
    ensures i < |tasks| && tasks[i].id == x
  {
    i :| 0 <= i < |tasks| && tasks[i].id == x;
  }

  /** The greedy colouring is proper. */
  lemma Proper(tasks: seq<Task>, adj: Adjacency, colours: Colours, x: Id, y: Id)
    requires Greedy(tasks, adj, colours) && Symmetric(adj)
    requires x in colours && y in colours && y in Neighbours(adj, x)
    ensures colours[x] != colours[y]
  {
    var i := IndexOf(tasks, x);
    var j := IndexOf(tasks, y);
    if i < j {
      assert tasks[..j][i].id == x;
      assert colours[x] in UsedColours(colours, Neighbours(adj, y) * IdsOf(tasks[..j]));
    } else {
      assert i != j;
      assert tasks[..i][j].id == y;
      assert colours[y] in UsedColours(colours, Neighbours(adj, x) * IdsOf(tasks[..i]));
    }
  }

  /** Below every task's colour, each colour is taken by one of its neighbours. */
  lemma Tight(tasks: seq<Task>, adj: Adjacency, colours: Colours, x: Id, c: nat) returns (n: Id)
    requires Greedy(tasks, adj, colours) && x in colours && c < colours[x]
    ensures n in Neighbours(adj, x) && n in colours && colours[n] == c
  {
    var i := IndexOf(tasks, x);
    var before := Neighbours(adj, x) * IdsOf(tasks[..i]);
    assert c in UsedColours(colours, before);
    n :| n in before && n in colours && colours[n] == c;
  }

  lemma {:induction false} ImageSize(colours: Colours, nodes: set<Id>)
    ensures |UsedColours(colours, nodes)| <= |nodes|
  {
    if nodes != {} {
      NonemptyHasInt(nodes);
      var n :| n in nodes;
      ImageSize(colours, nodes - {n});
      var rest := UsedColours(colours, nodes - {n});
      assert UsedColours(colours, nodes) == if n in colours then rest + {colours[n]} else rest;
    } else {
      assert UsedColours(colours, nodes) == {};
    }
  }

  ghost function Below(c: nat): (r: set<nat>)
    ensures |r| == c && forall k :: k in r <==> 0 <= k < c
  {
    if c == 0 then {} else Below(c - 1) + {c - 1}
  }

  /** The least colour that some tasks leave free is at most their number. */
  lemma ColourBound(colours: Colours, nodes: set<Id>, c: nat)
    requires LeastFree(c, UsedColours(colours, nodes))
    ensures c <= |nodes|
  {
    SubsetSize(Below(c), UsedColours(colours, nodes));
    ImageSize(colours, nodes);
  }

  /** In the greedy colouring a colour is at most the number of the task's conflicts. */
  lemma GreedyBounded(tasks: seq<Task>, adj: Adjacency, colours: Colours)
    requires Greedy(tasks, adj, colours)
    ensures BoundedColouring(adj, colours)
    ensures forall x | x in colours :: colours[x] <= |Neighbours(adj, x)|
  {
    forall x | x in colours ensures colours[x] <= |Neighbours(adj, x)| <= |Entered(adj, x)| {
      var i := IndexOf(tasks, x);
      var nodes := Neighbours(adj, x) * IdsOf(tasks[..i]);
      ColourBound(colours, nodes, colours[x]);
      SubsetSize(nodes, Neighbours(adj, x));
      SubsetSize(Neighbours(adj, x), Entered(adj, x));
    }
  }

  // ---------------------------------------------------------------- batches

  function Batch(tasks: seq<Task>, colours: Colours, c: nat): seq<Id> {
    if tasks == [] then []
    else
      var rest, x := Batch(tasks[..|tasks| - 1], colours, c), tasks[|tasks| - 1].id;
      if x in colours && colours[x] == c then rest + [x] else rest
  }

  /** One batch for each colour in use. */
  ghost predicate Batches(tasks: seq<Task>, colours: Colours, parts: seq<seq<Id>>) {
    && (forall x | x in colours :: colours[x] < |parts|)
    && (parts != [] ==> exists x :: x in colours && colours[x] == |parts| - 1)
    && (forall c | 0 <= c < |parts| :: parts[c] == Batch(tasks, colours, c))
  }

  lemma {:induction false} BatchMembers(tasks: seq<Task>, colours: Colours, c: nat)
    requires Distinct(Ids(tasks))
    ensures forall x :: multiset(Batch(tasks, colours, c))[x]
                     == if x in IdsOf(tasks) && x in colours && colours[x] == c then 1 else 0
  {
    if tasks != [] {
      var front, t := tasks[..|tasks| - 1], tasks[|tasks| - 1];
      assert forall i | 0 <= i < |front| :: Ids(front)[i] == Ids(tasks)[i];
      assert forall i | 0 <= i < |front| :: Ids(tasks)[i] != Ids(tasks)[|front|];
      BatchMembers(front, colours, c);
      assert IdsOf(tasks) == IdsOf(front) + {t.id};
    }
  }

  /** Also with repeated ids a batch holds exactly the tasks of its colour. */
  lemma {:induction false} InBatch(tasks: seq<Task>, colours: Colours, c: nat, x: Id)
    ensures x in Batch(tasks, colours, c) <==> x in IdsOf(tasks) && x in colours && colours[x] == c
  {
    if tasks != [] {
      var front, t := tasks[..|tasks| - 1], tasks[|tasks| - 1];
      InBatch(front, colours, c, x);
      assert IdsOf(tasks) == IdsOf(front) + {t.id};
    }
  }

  /** The tasks of a batch are in block order. */
  lemma {:induction false} BatchInOrder(a: seq<Task>, b: seq<Task>, colours: Colours, c: nat)
    ensures Batch(a + b, colours, c) == Batch(a, colours, c) + Batch(b, colours, c)
    ensures b != [] ==>
      Batch([b[0]], colours, c) == if b[0].id in colours && colours[b[0].id] == c then [b[0].id] else []
  {
    if b == [] {
      assert a + b == a;
    } else {
      BatchInOrder(a, b[..|b| - 1], colours, c);
      assert (a + b)[..|a + b| - 1] == a + b[..|b| - 1];
      assert [b[0]][..0] == [];
      assert Batch([], colours, c) == [];
    }
  }

  /** Every task is in exactly one batch, once, and no batch is empty. */
  lemma BatchesPartition(tasks: seq<Task>, adj: Adjacency, colours: Colours, parts: seq<seq<Id>>)
    requires Distinct(Ids(tasks)) && Greedy(tasks, adj, colours) && Batches(tasks, colours, parts)
    ensures forall c, x | 0 <= c < |parts| ::
              multiset(parts[c])[x] == if x in colours && colours[x] == c then 1 else 0
    ensures forall x | x in IdsOf(tasks) :: x in colours && colours[x] < |parts|
    ensures forall c | 0 <= c < |parts| :: parts[c] != []
  {
    forall c, x | 0 <= c < |parts|
      ensures multiset(parts[c])[x] == if x in colours && colours[x] == c then 1 else 0
    {
      BatchMembers(tasks, colours, c);
    }
    if parts != [] {
      var top :| top in colours && colours[top] == |parts| - 1;
      forall c | 0 <= c < |parts| ensures parts[c] != [] {
        var n := top;
        if c < |parts| - 1 { n := Tight(tasks, adj, colours, top, c); }
        assert multiset(parts[c])[n] == 1;
      }
    }
  }

  /** Tasks of one batch share no key hash, hence no key. */
  lemma BatchDisjoint(tasks: seq<Task>, touch: Touch, adj: Adjacency, colours: Colours, parts: seq<seq<Id>>,
                      c: nat, x: Id, y: Id, h: nat)
    requires IsConflictGraph(tasks, touch, adj)
    requires ProperColouring(adj, colours) && Batches(tasks, colours, parts)
    requires c < |parts| && x in parts[c] && y in parts[c] && x != y
    ensures !(Owner(tasks, touch, x, h) && Owner(tasks, touch, y, h))
  {
    InBatch(tasks, colours, c, x);
    InBatch(tasks, colours, c, y);
    assert Owner(tasks, touch, x, h) && Owner(tasks, touch, y, h) ==> Conflict(tasks, touch, x, y);
  }

  lemma ConflictSymmetric(tasks: seq<Task>, touch: Touch, adj: Adjacency)
    requires IsConflictGraph(tasks, touch, adj)
    ensures Symmetric(adj)
  {
    forall x, y | y in Neighbours(adj, x) ensures x in Neighbours(adj, y) {
      assert Conflict(tasks, touch, x, y);
      var h :| Owner(tasks, touch, x, h) && Owner(tasks, touch, y, h);
      assert Conflict(tasks, touch, y, x);
    }
  }

  /** There are at most as many batches as the largest number of entries beside one task, plus one;
      without repeated ids, as the largest number of conflicts of one task, plus one. */
  lemma BatchCount(tasks: seq<Task>, adj: Adjacency, colours: Colours, parts: seq<seq<Id>>) returns (x: Id)
    requires BoundedColouring(adj, colours) && Batches(tasks, colours, parts) && parts != []
    ensures x in colours && |parts| <= |Entered(adj, x)| + 1
    ensures Greedy(tasks, adj, colours) ==> |parts| <= |Neighbours(adj, x)| + 1
  {
    x :| x in colours && colours[x] == |parts| - 1;
    if Greedy(tasks, adj, colours) { GreedyBounded(tasks, adj, colours); }
  }

  // ---------------------------------------------------------------- injected dependencies

  /** The neighbours in earlier batches. */
  ghost function Earlier(adj: Adjacency, colours: Colours, x: Id): set<Id> {
    set n | n in Neighbours(adj, x) && n in colours && x in colours && colours[n] < colours[x]
  }

  function Extra(t: Task, w: Task): seq<Id> {
    if |t.deps| <= |w.deps| then w.deps[|t.deps|..] else []
  }

  /** `w` is `t` with each earlier neighbour added once to its dependencies. */
  ghost predicate Wraps(adj: Adjacency, colours: Colours, t: Task, w: Task) {
    && w.id == t.id
    && w.deps == t.deps + Extra(t, w)
    && Distinct(Extra(t, w))
    && forall n :: n in Extra(t, w) <==> n in Earlier(adj, colours, t.id)
  }

  ghost predicate AllWrapped(adj: Adjacency, colours: Colours, tasks: seq<Task>, wrapped: seq<Task>) {
    |wrapped| == |tasks| && forall i | 0 <= i < |tasks| :: Wraps(adj, colours, tasks[i], wrapped[i])
  }

  /** The dependencies that wrapping added. */
  function Injected(tasks: seq<Task>, wrapped: seq<Task>): Graph
    requires |tasks| == |wrapped|
  {
    if tasks == [] then map[]
    else
      var k := |tasks| - 1;
      Injected(tasks[..k], wrapped[..k])[tasks[k].id := Extra(tasks[k], wrapped[k])]
  }

  lemma {:induction false} InjectedAre(adj: Adjacency, colours: Colours, tasks: seq<Task>, wrapped: seq<Task>)
    requires AllWrapped(adj, colours, tasks, wrapped)
    ensures forall x, n :: Edge(Injected(tasks, wrapped), x, n) <==> x in IdsOf(tasks) && n in Earlier(adj, colours, x)
    ensures forall x :: Distinct(DepsOf(Injected(tasks, wrapped), x))
  {
    if tasks != [] {
      var k := |tasks| - 1;
      var g := Injected(tasks[..k], wrapped[..k]);
      InjectedAre(adj, colours, tasks[..k], wrapped[..k]);
      assert IdsOf(tasks) == IdsOf(tasks[..k]) + {tasks[k].id};
      assert Wraps(adj, colours, tasks[k], wrapped[k]);
      forall x, n
        ensures Edge(Injected(tasks, wrapped), x, n) <==> x in IdsOf(tasks) && n in Earlier(adj, colours, x)
      {
        if x != tasks[k].id { assert Edge(g, x, n) <==> x in IdsOf(tasks[..k]) && n in Earlier(adj, colours, x); }
      }
      forall x ensures Distinct(DepsOf(Injected(tasks, wrapped), x)) {
        if x != tasks[k].id { assert Distinct(DepsOf(g, x)); }
      }
    }
  }

  /** Of two conflicting tasks exactly one gets an injected dependency on the other. */
  lemma OneDependencyPerConflict(tasks: seq<Task>, touch: Touch, adj: Adjacency, colours: Colours, wrapped: seq<Task>,
                                 x: Id, y: Id)
    requires IsConflictGraph(tasks, touch, adj) && Greedy(tasks, adj, colours)
    requires AllWrapped(adj, colours, tasks, wrapped)
    requires Conflict(tasks, touch, x, y)
    ensures Edge(Injected(tasks, wrapped), x, y) <==> !Edge(Injected(tasks, wrapped), y, x)
    ensures Edge(Injected(tasks, wrapped), x, y) <==> x in colours && y in colours && colours[y] < colours[x]
  {
    InjectedAre(adj, colours, tasks, wrapped);
    ConflictSymmetric(tasks, touch, adj);
    var h :| Owner(tasks, touch, x, h) && Owner(tasks, touch, y, h);
    assert x in IdsOf(tasks) && y in IdsOf(tasks);
    Proper(tasks, adj, colours, x, y);
  }

  /** Colours fall along a chain of injected dependencies. */
  lemma {:induction false} ChainDescends(adj: Adjacency, colours: Colours, tasks: seq<Task>, wrapped: seq<Task>,
                                         p: seq<Id>)
    requires AllWrapped(adj, colours, tasks, wrapped)
    requires IsPath(Injected(tasks, wrapped), p) && p != [] && p[0] in colours
    ensures p[|p| - 1] in colours && colours[p[|p| - 1]] + |p| - 1 <= colours[p[0]]
    decreases |p|
  {
    InjectedAre(adj, colours, tasks, wrapped);
    if |p| > 1 {
      assert Edge(Injected(tasks, wrapped), p[0], p[1]);
      SubPath(Injected(tasks, wrapped), p, 1, |p|);
      var q := p[1..|p|];
      ChainDescends(adj, colours, tasks, wrapped, q);
      assert q[|q| - 1] == p[|p| - 1];
    }
  }

  lemma InjectedAcyclic(adj: Adjacency, colours: Colours, tasks: seq<Task>, wrapped: seq<Task>)
    requires AllWrapped(adj, colours, tasks, wrapped)
    ensures Acyclic(Injected(tasks, wrapped))
  {
    InjectedAre(adj, colours, tasks, wrapped);
    var g := Injected(tasks, wrapped);
    forall x ensures !Reaches(g, x, x) {
      if Reaches(g, x, x) {
        var p :| PathFromTo(g, p, x, x);
        assert Edge(g, p[0], p[1]);
        ChainDescends(adj, colours, tasks, wrapped, p);
        assert false;
      }
    }
  }

  /** A chain of injected dependencies starting at `x` visits every lower colour. */
  lemma {:induction false} ChainFrom(adj: Adjacency, colours: Colours, tasks: seq<Task>, wrapped: seq<Task>, x: Id)
    returns (p: seq<Id>)
    requires Greedy(tasks, adj, colours) && AllWrapped(adj, colours, tasks, wrapped) && x in colours
    ensures IsPath(Injected(tasks, wrapped), p) && |p| == colours[x] + 1 && p[0] == x
    decreases colours[x]
  {
    if colours[x] == 0 {
      p := [x];
    } else {
      var n := Tight(tasks, adj, colours, x, colours[x] - 1);
      var rest := ChainFrom(adj, colours, tasks, wrapped, n);
      InjectedAre(adj, colours, tasks, wrapped);
      var g := Injected(tasks, wrapped);
      assert Edge(g, x, n);
      p := [x] + rest;
      forall i | 0 <= i < |p| - 1 ensures Edge(g, p[i], p[i + 1]) {
        if i > 0 { assert Edge(g, rest[i - 1], rest[i]); }
      }
    }
  }

  /** The longest chain of injected dependencies has exactly as many tasks as there are batches. */
  lemma LongestChain(adj: Adjacency, colours: Colours, tasks: seq<Task>, wrapped: seq<Task>, parts: seq<seq<Id>>)
    requires Greedy(tasks, adj, colours) && AllWrapped(adj, colours, tasks, wrapped) && Batches(tasks, colours, parts)
    ensures forall p :: IsPath(Injected(tasks, wrapped), p) && p != [] && p[0] in colours ==> |p| <= |parts|
    ensures parts != [] ==> exists p :: IsPath(Injected(tasks, wrapped), p) && |p| == |parts| && p[0] in colours
  {
    forall p | IsPath(Injected(tasks, wrapped), p) && p != [] && p[0] in colours ensures |p| <= |parts| {
      ChainDescends(adj, colours, tasks, wrapped, p);
    }
    if parts != [] {
      var x :| x in colours && colours[x] == |parts| - 1;
      var p := ChainFrom(adj, colours, tasks, wrapped, x);
    }
  }

  // ---------------------------------------------------------------- together with the tasks' own dependencies

  /** A wrapped task lists a dependency twice exactly when the task did, or already depended on an
      earlier neighbour. */
  lemma WrappedDistinct(adj: Adjacency, colours: Colours, t: Task, w: Task)
    requires Wraps(adj, colours, t, w)
    ensures Distinct(w.deps) <==> Distinct(t.deps) && forall d | d in t.deps :: d !in Earlier(adj, colours, t.id)
  {
    var extra := Extra(t, w);
    if Distinct(w.deps) {
      forall i, j | 0 <= i < j < |t.deps| ensures t.deps[i] != t.deps[j] {
        assert w.deps[i] == t.deps[i] && w.deps[j] == t.deps[j];
      }
      forall d | d in t.deps ensures d !in extra {
        var i :| 0 <= i < |t.deps| && t.deps[i] == d;
        assert w.deps[i] == d;
        forall j | 0 <= j < |extra| ensures extra[j] != d { assert w.deps[|t.deps| + j] == extra[j]; }
      }
    }
    if Distinct(t.deps) && forall d | d in t.deps :: d !in extra {
      forall i, j | 0 <= i < j < |w.deps| ensures w.deps[i] != w.deps[j] {
        if i >= |t.deps| {
          assert extra[i - |t.deps|] != extra[j - |t.deps|];
        } else if j >= |t.deps| {
          assert t.deps[i] in t.deps && extra[j - |t.deps|] in extra;
        }
      }
    }
  }
}
