/** Dependency graphs: paths, cycles, and what acyclicity gives a finite graph. */
module DependencyGraph {
  import opened Collections

  type Id = int
  type Graph = map<Id, seq<Id>>

  /** A missing entry reads as an empty list. */
  function DepsOf(g: Graph, x: Id): seq<Id> {
    if x in g then g[x] else []
  }

  predicate Edge(g: Graph, x: Id, y: Id) {
    y in DepsOf(g, x)
  }

  ghost predicate IsPath(g: Graph, p: seq<Id>) {
    forall i | 0 <= i < |p| - 1 :: Edge(g, p[i], p[i + 1])
  }

  /** A path of at least one edge from `x` to `y`. */
  ghost predicate PathFromTo(g: Graph, p: seq<Id>, x: Id, y: Id) {
    |p| >= 2 && p[0] == x && p[|p| - 1] == y && IsPath(g, p)
  }

  ghost predicate Reaches(g: Graph, x: Id, y: Id) {
    exists p :: PathFromTo(g, p, x, y)
  }

  ghost predicate Acyclic(g: Graph) {
    forall x :: !Reaches(g, x, x)
  }

  lemma SubPath(g: Graph, p: seq<Id>, i: nat, j: nat)
    requires IsPath(g, p) && i <= j <= |p|
    ensures IsPath(g, p[i..j])
  {
    forall k | 0 <= k < j - i - 1 ensures Edge(g, p[i..j][k], p[i..j][k + 1]) {
      assert Edge(g, p[i + k], p[i + k + 1]);
    }
  }

  /** Two paths sharing their meeting node make one. */
  lemma Join(g: Graph, p: seq<Id>, q: seq<Id>)
    requires IsPath(g, p) && IsPath(g, q) && p != [] && q != [] && p[|p| - 1] == q[0]
    ensures IsPath(g, p + q[1..])
  {
    var r := p + q[1..];
    forall k | 0 <= k < |r| - 1 ensures Edge(g, r[k], r[k + 1]) {
      if k >= |p| - 1 {
        assert Edge(g, q[k - |p| + 1], q[k - |p| + 2]);
      }
    }
  }

  lemma NoEdgesAcyclic(g: Graph)
    requires forall x, y :: !Edge(g, x, y)
    ensures Acyclic(g)
  {
    forall x ensures !Reaches(g, x, x) { NoEdgesReach(g, x, x); }
  }

  lemma NoEdgesReach(g: Graph, x: Id, y: Id)
    requires forall x, y :: !Edge(g, x, y)
    ensures !Reaches(g, x, y)
  {
    forall p ensures !PathFromTo(g, p, x, y) {
      if |p| >= 2 { assert !Edge(g, p[0], p[1]); }
    }
  }

  lemma EdgeReaches(g: Graph, x: Id, y: Id)
    requires Edge(g, x, y)
    ensures Reaches(g, x, y)
  {
    assert PathFromTo(g, [x, y], x, y);
  }

  lemma ReachesTransitive(g: Graph, x: Id, y: Id, z: Id)
    requires Reaches(g, x, y) && Reaches(g, y, z)
    ensures Reaches(g, x, z)
  {
    var p :| PathFromTo(g, p, x, y);
    var q :| PathFromTo(g, q, y, z);
    Join(g, p, q);
    assert PathFromTo(g, p + q[1..], x, z);
  }

  /** Every edge of the one graph is an edge of the other. */
  ghost predicate Within(g: Graph, g': Graph) {
    forall x, y :: Edge(g, x, y) ==> Edge(g', x, y)
  }

  lemma WithinReach(g: Graph, g': Graph, x: Id, y: Id)
    requires Within(g, g') && Reaches(g, x, y)
    ensures Reaches(g', x, y)
  {
    var p :| PathFromTo(g, p, x, y);
    forall i | 0 <= i < |p| - 1 ensures Edge(g', p[i], p[i + 1]) {
      assert Edge(g, p[i], p[i + 1]);
    }
    assert PathFromTo(g', p, x, y);
  }

  ghost predicate ReachesOrIs(g: Graph, x: Id, y: Id) {
    x == y || Reaches(g, x, y)
  }

  /** Every node of a cycle reaches itself. */
  lemma RotateCycle(g: Graph, p: seq<Id>, i: nat)
    requires i < |p| && PathFromTo(g, p, p[0], p[0])
    ensures Reaches(g, p[i], p[i])
  {
    SubPath(g, p, i, |p|);
    SubPath(g, p, 0, i + 1);
    Join(g, p[i..|p|], p[0..i + 1]);
    assert PathFromTo(g, p[i..|p|] + p[0..i + 1][1..], p[i], p[i]);
  }

  /** A set that contains the dependencies of its members contains all they reach. */
  ghost predicate Closed(g: Graph, nodes: set<Id>) {
    forall x, y | x in nodes && Edge(g, x, y) :: y in nodes
  }

  lemma {:induction false} ClosedContainsPath(g: Graph, nodes: set<Id>, p: seq<Id>)
    requires Closed(g, nodes) && IsPath(g, p) && p != [] && p[0] in nodes
    ensures forall y | y in p :: y in nodes
  {
    if |p| > 1 {
      assert Edge(g, p[0], p[1]);
      SubPath(g, p, 1, |p|);
      ClosedContainsPath(g, nodes, p[1..]);
      assert p == [p[0]] + p[1..];
    }
  }

  lemma ClosedContainsReach(g: Graph, nodes: set<Id>, x: Id, y: Id)
    requires Closed(g, nodes) && x in nodes && Reaches(g, x, y)
    ensures y in nodes
  {
    var p :| PathFromTo(g, p, x, y);
    ClosedContainsPath(g, nodes, p);
  }

  // ---------------------------------------------------------------- minimal elements

  ghost predicate Minimal(g: Graph, nodes: set<Id>, x: Id) {
    x in nodes && forall y | Edge(g, x, y) :: y !in nodes
  }

  /** Walking along dependencies inside a finite set ends, unless it closes a cycle. */
  lemma {:induction false} Walk(g: Graph, nodes: set<Id>, p: seq<Id>) returns (x: Id)
    requires Acyclic(g) && IsPath(g, p) && p != [] && (forall y | y in p :: y in nodes)
    ensures Minimal(g, nodes, x)
    decreases nodes - (set y | y in p)
  {
    var last := p[|p| - 1];
    if Minimal(g, nodes, last) { return last; }
    var y :| Edge(g, last, y) && y in nodes;
    if y in p {
      var i :| 0 <= i < |p| && p[i] == y;
      SubPath(g, p, i, |p|);
      Join(g, p[i..|p|], [last, y]);
      assert PathFromTo(g, p[i..|p|] + [last, y][1..], y, y);
      assert Reaches(g, y, y);
      assert false;
    }
    assert (set z | z in p + [y]) == (set z | z in p) + {y};
    x := Walk(g, nodes, p + [y]);
  }

  lemma {:induction false} MinimalExists(g: Graph, nodes: set<Id>)
    requires Acyclic(g) && nodes != {}
    ensures exists x :: Minimal(g, nodes, x)
  {
    NonemptyHasInt(nodes);
    var y :| y in nodes;
    var x := Walk(g, nodes, [y]);
  }

  // ---------------------------------------------------------------- adding an edge

  function AddEdge(g: Graph, t: Id, d: Id): Graph {
    g[t := DepsOf(g, t) + [d]]
  }

  /** Until it passes through `t`, a path of the larger graph is a path of the smaller one. */
  lemma {:induction false} CutAt(g: Graph, t: Id, d: Id, p: seq<Id>)
    requires IsPath(AddEdge(g, t, d), p) && |p| >= 2 && t in p[1..]
    ensures p[0] == t || Reaches(g, p[0], t)
  {
    if p[0] != t {
      assert Edge(AddEdge(g, t, d), p[0], p[1]);
      EdgeReaches(g, p[0], p[1]);
      if p[1] != t {
        var rest := p[1..];
        SubPath(AddEdge(g, t, d), p, 1, |p|);
        assert p[1..] == [p[1]] + rest[1..];
        CutAt(g, t, d, rest);
        ReachesTransitive(g, p[0], p[1], t);
      }
    }
  }

  /** A path of the larger graph either avoids leaving `t`, or `d` reaches its end after `t`. */
  lemma {:induction false} PathOfSmaller(g: Graph, t: Id, d: Id, p: seq<Id>)
    requires IsPath(AddEdge(g, t, d), p) && |p| >= 2 && t !in p[..|p| - 1]
    ensures PathFromTo(g, p, p[0], p[|p| - 1])
  {
    forall i | 0 <= i < |p| - 1 ensures Edge(g, p[i], p[i + 1]) {
      assert p[i] in p[..|p| - 1];
      assert Edge(AddEdge(g, t, d), p[i], p[i + 1]);
    }
  }

  /** The new edge closes a cycle exactly when its head is its tail or already reached it. */
  lemma AddEdgeKeepsAcyclic(g: Graph, t: Id, d: Id)
    requires Acyclic(g)
    ensures Acyclic(AddEdge(g, t, d)) <==> d != t && !Reaches(g, d, t)
  {
    var g' := AddEdge(g, t, d);
    if d == t || Reaches(g, d, t) {
      EdgeReaches(g', t, d);
      if d != t {
        WithinReach(g, g', d, t);
        ReachesTransitive(g', t, d, t);
      }
    } else {
      forall x ensures !Reaches(g', x, x) {
        if Reaches(g', x, x) { NoNewCycle(g, t, d, x); }
      }
    }
  }

  lemma NoNewCycle(g: Graph, t: Id, d: Id, x: Id)
    requires Reaches(AddEdge(g, t, d), x, x)
    ensures Reaches(g, x, x) || Reaches(g, t, t) || d == t || Reaches(g, d, t)
  {
    var g' := AddEdge(g, t, d);
    var p :| PathFromTo(g', p, x, x);
    if t in p {
      // rotate the cycle so that it starts at t
      var i :| 0 <= i < |p| && p[i] == t;
      RotateCycle(g', p, i);
      var c :| PathFromTo(g', c, t, t);
      CycleThrough(g, t, d, c);
    } else {
      PathOfSmaller(g, t, d, p);
      assert Reaches(g, x, x);
    }
  }

  lemma CycleThrough(g: Graph, t: Id, d: Id, c: seq<Id>)
    requires PathFromTo(AddEdge(g, t, d), c, t, t)
    ensures Reaches(g, t, t) || d == t || Reaches(g, d, t)
  {
    assert Edge(AddEdge(g, t, d), c[0], c[1]);
    if c[1] != d { EdgeReaches(g, t, c[1]); }
    if c[1] != t {
      var rest := c[1..];
      SubPath(AddEdge(g, t, d), c, 1, |c|);
      assert rest[1..][|rest| - 2] == t;
      CutAt(g, t, d, rest);
      if c[1] != d { ReachesTransitive(g, t, c[1], t); }
    }
  }

  // ---------------------------------------------------------------- how many edges

  ghost function EdgeSet(g: Graph): set<(Id, Id)> {
    set x, i | x in g && 0 <= i < |g[x]| :: (x, g[x][i])
  }

  lemma InEdgeSet(g: Graph, x: Id, y: Id)
    ensures (x, y) in EdgeSet(g) <==> Edge(g, x, y)
  {}

  ghost function Flip(edges: set<(Id, Id)>): set<(Id, Id)> {
    set e | e in edges :: (e.1, e.0)
  }

  ghost function Row(x: Id, ys: set<Id>): set<(Id, Id)> {
    set y | y in ys :: (x, y)
  }

  ghost function Product(xs: set<Id>, ys: set<Id>): set<(Id, Id)> {
    set x, y | x in xs && y in ys :: (x, y)
  }

  ghost function Diagonal(xs: set<Id>): set<(Id, Id)> {
    set x | x in xs :: (x, x)
  }

  lemma {:induction false} FlipSize(edges: set<(Id, Id)>)
    ensures |Flip(edges)| == |edges|
  {
    if edges != {} {
      NonemptyHas(edges);
      var e :| e in edges;
      FlipSize(edges - {e});
      assert Flip(edges) == Flip(edges - {e}) + {(e.1, e.0)};
    }
  }

  lemma {:induction false} RowSize(x: Id, ys: set<Id>)
    ensures |Row(x, ys)| == |ys|
  {
    if ys != {} {
      NonemptyHasInt(ys);
      var y :| y in ys;
      RowSize(x, ys - {y});
      assert Row(x, ys) == Row(x, ys - {y}) + {(x, y)};
    }
  }

  lemma {:induction false} ProductSize(xs: set<Id>, ys: set<Id>)
    ensures |Product(xs, ys)| == |xs| * |ys|
  {
    if xs != {} {
      NonemptyHasInt(xs);
      var x :| x in xs;
      ProductSize(xs - {x}, ys);
      RowSize(x, ys);
      assert Product(xs, ys) == Product(xs - {x}, ys) + Row(x, ys);
      assert |xs| * |ys| == (|xs| - 1) * |ys| + |ys|;
    } else {
      assert Product(xs, ys) == {};
    }
  }

  lemma {:induction false} DiagonalSize(xs: set<Id>)
    ensures |Diagonal(xs)| == |xs|
  {
    if xs != {} {
      NonemptyHasInt(xs);
      var x :| x in xs;
      DiagonalSize(xs - {x});
      assert Diagonal(xs) == Diagonal(xs - {x}) + {(x, x)};
    }
  }

  /** An acyclic graph on n nodes has at most n(n-1)/2 edges. */
  lemma AcyclicEdgeBound(g: Graph, nodes: set<Id>)
    requires Acyclic(g) && forall x, y | Edge(g, x, y) :: x in nodes && y in nodes
    ensures 2 * |EdgeSet(g)| <= |nodes| * |nodes| - |nodes|
  {
    var edges := EdgeSet(g);
    forall x, y | (x, y) in edges ensures Edge(g, x, y) && x != y && (y, x) !in edges {
      assert Edge(g, x, y);
      EdgeReaches(g, x, y);
      if (y, x) in edges {
        assert Edge(g, y, x);
        EdgeReaches(g, y, x);
        ReachesTransitive(g, x, y, x);
      }
    }
    assert edges !! Flip(edges) && edges !! Diagonal(nodes) && Flip(edges) !! Diagonal(nodes);
    var all := edges + Flip(edges) + Diagonal(nodes);
    forall e | e in all ensures e in Product(nodes, nodes) {
      assert e in edges ==> Edge(g, e.0, e.1);
      assert e in Flip(edges) ==> (e.1, e.0) in edges;
      assert e in Flip(edges) ==> Edge(g, e.1, e.0);
    }
    FlipSize(edges);
    ProductSize(nodes, nodes);
    DiagonalSize(nodes);
    SubsetSize(all, Product(nodes, nodes));
    assert |all| == |edges| + |Flip(edges)| + |Diagonal(nodes)|;
  }

  lemma SubsetSize<T>(a: set<T>, b: set<T>)
    requires a <= b
    ensures |a| <= |b|
  {
    assert b == a + (b - a);
  }
}
