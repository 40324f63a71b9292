/** Planner.Plan: key owners, conflict graph, first-free colouring, batches and wrapped tasks, in
    the loops the source has. Iterating over a Go map takes its entries in any order. */
module ConflictPlanner {
  import opened Collections
  import opened DependencyGraph
  import opened SchedulerState
  import opened ConflictColouring

  /** The hashes of the keys an oracle names for a task. */
  function Hashed<K>(keysFor: Task -> seq<K>, hash: K -> nat): Touch {
    t => seq(|keysFor(t)|, i requires 0 <= i < |keysFor(t)| => hash(keysFor(t)[i]))
  }

  type Owners = map<nat, seq<Id>>

  function OwnersOf(owners: Owners, h: nat): seq<Id> {
    if h in owners then owners[h] else []
  }

  ghost predicate OwnersAre(owners: Owners, tasks: seq<Task>, touch: Touch) {
    forall h, x :: x in OwnersOf(owners, h) <==> Owner(tasks, touch, x, h)
  }

  method KeyOwners(tasks: seq<Task>, touch: Touch) returns (owners: Owners)
    ensures OwnersAre(owners, tasks, touch)
  {
    owners := map[];
    for i := 0 to |tasks|
      invariant OwnersAre(owners, tasks[..i], touch)
    {
      var t := tasks[i];
      var keys := touch(t);
      for k := 0 to |keys|
        invariant forall h, x :: x in OwnersOf(owners, h) <==>
                    Owner(tasks[..i], touch, x, h) || (x == t.id && h in keys[..k])
      {
        var h := keys[k];
        ghost var before := owners;
        owners := owners[h := OwnersOf(owners, h) + [t.id]];
        assert keys[..k + 1] == keys[..k] + [h];
        forall g, x ensures x in OwnersOf(owners, g) <==>
                      Owner(tasks[..i], touch, x, g) || (x == t.id && g in keys[..k + 1])
        {
          assert x in OwnersOf(before, g) <==> Owner(tasks[..i], touch, x, g) || (x == t.id && g in keys[..k]);
        }
      }
      assert keys[..|keys|] == keys;
      OneMoreTask(tasks, touch, i);
    }
    assert tasks[..|tasks|] == tasks;
  }

  lemma OneMoreTask(tasks: seq<Task>, touch: Touch, i: nat)
    requires i < |tasks|
    ensures forall h, x :: Owner(tasks[..i + 1], touch, x, h) <==>
              Owner(tasks[..i], touch, x, h) || (x == tasks[i].id && h in touch(tasks[i]))
  {
    forall h, x | Owner(tasks[..i], touch, x, h) || (x == tasks[i].id && h in touch(tasks[i]))
      ensures Owner(tasks[..i + 1], touch, x, h)
    {
      if Owner(tasks[..i], touch, x, h) {
        var j :| 0 <= j < |tasks[..i]| && tasks[..i][j].id == x && h in touch(tasks[..i][j]);
        assert tasks[..i + 1][j].id == x;
      } else {
        assert tasks[..i + 1][i].id == x;
      }
    }
    forall h, x | Owner(tasks[..i + 1], touch, x, h)
      ensures Owner(tasks[..i], touch, x, h) || (x == tasks[i].id && h in touch(tasks[i]))
    {
      var j :| 0 <= j < |tasks[..i + 1]| && tasks[..i + 1][j].id == x && h in touch(tasks[..i + 1][j]);
      if j < i { assert tasks[..i][j].id == x; }
    }
  }

  function Link(adj: Adjacency, a: Id, b: Id): Adjacency {
    adj[a := (if a in adj then adj[a] else {}) + {b}]
  }

  /** Some pair of positions before (i, j) in the double loop holds x and y. */
  ghost predicate Paired(owners: seq<Id>, i: nat, j: nat, x: Id, y: Id) {
    exists p, q :: 0 <= p < q < |owners| && (p < i || (p == i && q < j)) && PairAt(owners, p, q, x, y)
  }

  predicate PairAt(owners: seq<Id>, p: nat, q: nat, x: Id, y: Id)
    requires p < |owners| && q < |owners|
  {
    (owners[p] == x && owners[q] == y) || (owners[p] == y && owners[q] == x)
  }

  /** After the pairs before (i, j): x and y are linked if they were, or if such a pair holds them. */
  ghost predicate LinkedUpTo(adj0: Adjacency, owners: seq<Id>, i: nat, j: nat, adj: Adjacency, x: Id, y: Id) {
    y in Neighbours(adj, x) <==> y in Neighbours(adj0, x) || (x != y && Paired(owners, i, j, x, y))
  }

  ghost predicate AllLinkedUpTo(adj0: Adjacency, owners: seq<Id>, i: nat, j: nat, adj: Adjacency) {
    forall x, y :: LinkedUpTo(adj0, owners, i, j, adj, x, y)
  }

  lemma LinkNext(adj0: Adjacency, owners: seq<Id>, i: nat, j: nat, adj: Adjacency, x: Id, y: Id)
    requires i < j < |owners| && LinkedUpTo(adj0, owners, i, j, adj, x, y)
    ensures LinkedUpTo(adj0, owners, i, j + 1, Link(Link(adj, owners[i], owners[j]), owners[j], owners[i]), x, y)
  {
    NextPair(owners, i, j, x, y);
    var a, b := owners[i], owners[j];
    var adj' := Link(Link(adj, a, b), b, a);
    assert y in Neighbours(adj', x) <==>
           y in Neighbours(adj, x) || (x != y && ((x == a && y == b) || (x == b && y == a)));
  }

  ghost predicate LinkedAt(adj0: Adjacency, owners: seq<Id>, adj: Adjacency, x: Id, y: Id) {
    y in Neighbours(adj, x) <==> y in Neighbours(adj0, x) || (x != y && x in owners && y in owners)
  }

  /** Links every two owners of one key. */
  method LinkOwners(adj0: Adjacency, owners: seq<Id>) returns (adj: Adjacency)
    ensures forall x, y :: LinkedAt(adj0, owners, adj, x, y)
  {
    adj := adj0;
    for i := 0 to |owners|
      invariant AllLinkedUpTo(adj0, owners, i, i + 1, adj)
    {
      for j := i + 1 to |owners|
        invariant AllLinkedUpTo(adj0, owners, i, j, adj)
      {
        ghost var before, next := adj, j + 1;
        adj := Link(Link(adj, owners[i], owners[j]), owners[j], owners[i]);
        forall x, y ensures LinkedUpTo(adj0, owners, i, next, adj, x, y) {
          LinkNext(adj0, owners, i, j, before, x, y);
        }
      }
      ghost var row, column := i + 1, i + 2;
      forall x, y ensures LinkedUpTo(adj0, owners, row, column, adj, x, y) {
        NextRow(owners, i, x, y);
        assert LinkedUpTo(adj0, owners, i, |owners|, adj, x, y);
      }
    }
    forall x, y ensures LinkedAt(adj0, owners, adj, x, y) {
      if x != y { AllPairs(owners, x, y); }
      assert LinkedUpTo(adj0, owners, |owners|, |owners| + 1, adj, x, y);
    }
  }

  lemma NextPair(owners: seq<Id>, i: nat, j: nat, x: Id, y: Id)
    requires i < j < |owners|
    ensures Paired(owners, i, j + 1, x, y) <==> Paired(owners, i, j, x, y) || PairAt(owners, i, j, x, y)
  {}

  lemma NextRow(owners: seq<Id>, i: nat, x: Id, y: Id)
    requires i < |owners|
    ensures Paired(owners, i + 1, i + 2, x, y) <==> Paired(owners, i, |owners|, x, y)
  {}

  lemma AllPairs(owners: seq<Id>, x: Id, y: Id)
    requires x != y
    ensures Paired(owners, |owners|, |owners| + 1, x, y) <==> x in owners && y in owners
  {
    if Paired(owners, |owners|, |owners| + 1, x, y) {
      var p, q :| 0 <= p < q < |owners| && PairAt(owners, p, q, x, y);
      assert owners[p] in owners && owners[q] in owners;
    }
    if x in owners && y in owners {
      var p :| 0 <= p < |owners| && owners[p] == x;
      var q :| 0 <= q < |owners| && owners[q] == y;
      var i, j := if p < q then p else q, if p < q then q else p;
      assert i < j && PairAt(owners, i, j, x, y);
    }
  }

  ghost predicate Share(owners: Owners, hashes: set<nat>, x: Id, y: Id) {
    exists h :: h in hashes && x in OwnersOf(owners, h) && y in OwnersOf(owners, h)
  }

  lemma ShareOneMore(owners: Owners, hashes: set<nat>, h: nat)
    ensures forall x, y :: Share(owners, hashes + {h}, x, y) <==>
              Share(owners, hashes, x, y) || (x in OwnersOf(owners, h) && y in OwnersOf(owners, h))
  {
    forall x, y | x in OwnersOf(owners, h) && y in OwnersOf(owners, h) ensures Share(owners, hashes + {h}, x, y) {
      assert h in hashes + {h};
    }
    forall x, y | Share(owners, hashes, x, y) ensures Share(owners, hashes + {h}, x, y) {
      var g :| g in hashes && x in OwnersOf(owners, g) && y in OwnersOf(owners, g);
      assert g in hashes + {h};
    }
  }

  method ConflictGraph(owners: Owners, ghost tasks: seq<Task>, ghost touch: Touch) returns (adj: Adjacency)
    requires OwnersAre(owners, tasks, touch)
    ensures IsConflictGraph(tasks, touch, adj)
  {
    adj := map[];
    var todo := owners.Keys;
    ghost var done := {};
    while todo != {}
      invariant todo <= owners.Keys && done == owners.Keys - todo
      invariant forall x, y :: y in Neighbours(adj, x) <==> x != y && Share(owners, done, x, y)
      decreases todo
    {
      NonemptyHas(todo);
      var h :| h in todo;
      ghost var before := adj;
      adj := LinkOwners(adj, owners[h]);
      ShareOneMore(owners, done, h);
      forall x, y ensures y in Neighbours(adj, x) <==> x != y && Share(owners, done + {h}, x, y) {
        assert y in Neighbours(before, x) <==> x != y && Share(owners, done, x, y);
        assert Share(owners, done + {h}, x, y) <==>
               Share(owners, done, x, y) || (x in OwnersOf(owners, h) && y in OwnersOf(owners, h));
        assert LinkedAt(before, owners[h], adj, x, y);
      }
      todo, done := todo - {h}, done + {h};
    }
    forall x, y ensures y in Neighbours(adj, x) <==> Conflict(tasks, touch, x, y) {
      if x != y && Share(owners, done, x, y) {
        var h :| h in done && x in OwnersOf(owners, h) && y in OwnersOf(owners, h);
        assert Owner(tasks, touch, x, h) && Owner(tasks, touch, y, h);
      }
      if Conflict(tasks, touch, x, y) {
        var h :| Owner(tasks, touch, x, h) && Owner(tasks, touch, y, h);
        assert x in OwnersOf(owners, h) && y in OwnersOf(owners, h) && h in done;
      }
    }
  }

  /** The first-free search ends, since only finitely many colours are in use. */
  method FirstFree(used: set<nat>) returns (c: nat)
    ensures LeastFree(c, used)
  {
    c := 0;
    ghost var rest := used;
    while c in used
      invariant forall k: nat | k < c :: k in used
      invariant rest == used - Below(c)
      decreases rest
    {
      rest := rest - {c};
      c := c + 1;
    }
  }

  method Colour(tasks: seq<Task>, adj: Adjacency) returns (colours: Colours)
    ensures colours.Keys == IdsOf(tasks)
    ensures BoundedColouring(adj, colours)
    ensures Symmetric(adj) ==> ProperColouring(adj, colours)
    ensures Distinct(Ids(tasks)) ==> Greedy(tasks, adj, colours)
  {
    hide *;
    colours := map[];
    NothingColoured(tasks, adj);
    for i := 0 to |tasks|
      invariant colours.Keys == IdsOf(tasks[..i])
      invariant BoundedColouring(adj, colours)
      invariant Symmetric(adj) ==> ProperColouring(adj, colours)
      invariant Distinct(Ids(tasks)) ==> Greedy(tasks[..i], adj, colours)
    {
      var c := FirstFree(UsedColours(colours, Entered(adj, tasks[i].id)));
      BoundedNext(adj, colours, tasks[i].id, c);
      if Symmetric(adj) { ProperNext(adj, colours, tasks[i].id, c); }
      if Distinct(Ids(tasks)) { ColourNext(tasks, adj, colours, i, c); }
      assert tasks[..i + 1] == tasks[..i] + [tasks[i]];
      IdsOfMore(tasks[..i], tasks[i]);
      colours := colours[tasks[i].id := c];
    }
    assert tasks[..|tasks|] == tasks;
  }

  lemma NothingColoured(tasks: seq<Task>, adj: Adjacency)
    ensures IdsOf(tasks[..0]) == {} && BoundedColouring(adj, map[]) && ProperColouring(adj, map[])
    ensures Greedy(tasks[..0], adj, map[])
  {}

  lemma IdsOfMore(tasks: seq<Task>, t: Task)
    ensures IdsOf(tasks + [t]) == IdsOf(tasks) + {t.id}
  {
    assert forall i | 0 <= i < |tasks| :: (tasks + [t])[i] == tasks[i];
    assert (tasks + [t])[|tasks|] == t;
  }

  lemma BoundedNext(adj: Adjacency, colours: Colours, x: Id, c: nat)
    requires BoundedColouring(adj, colours) && LeastFree(c, UsedColours(colours, Entered(adj, x)))
    ensures BoundedColouring(adj, colours[x := c])
  {
    ColourBound(colours, Entered(adj, x), c);
  }

  /** A task listed a second time is coloured anew, away from its neighbours' colours and its own. */
  lemma ProperNext(adj: Adjacency, colours: Colours, x: Id, c: nat)
    requires Symmetric(adj) && ProperColouring(adj, colours)
    requires LeastFree(c, UsedColours(colours, Entered(adj, x)))
    ensures ProperColouring(adj, colours[x := c])
  {
    forall y | y in Neighbours(adj, x) && y in colours ensures colours[y] != c {
      assert colours[y] in UsedColours(colours, Entered(adj, x));
    }
  }

  lemma ColourNext(tasks: seq<Task>, adj: Adjacency, colours: Colours, i: nat, c: nat)
    requires Distinct(Ids(tasks)) && i < |tasks| && Greedy(tasks[..i], adj, colours)
    requires LeastFree(c, UsedColours(colours, Entered(adj, tasks[i].id)))
    ensures Greedy(tasks[..i + 1], adj, colours[tasks[i].id := c])
  {
    var x := tasks[i].id;
    var colours' := colours[x := c];
    assert x !in IdsOf(tasks[..i]) by {
      assert forall k | 0 <= k < i :: Ids(tasks)[k] != Ids(tasks)[i];
    }
    assert IdsOf(tasks[..i + 1]) == IdsOf(tasks[..i]) + {x};
    forall k | 0 <= k <= i
      ensures LeastFree(colours'[tasks[k].id],
                        UsedColours(colours', Neighbours(adj, tasks[k].id) * IdsOf(tasks[..i + 1][..k])))
    {
      assert tasks[..i + 1][..k] == tasks[..i][..k];
      var nodes := Neighbours(adj, tasks[k].id) * IdsOf(tasks[..i][..k]);
      assert IdsOf(tasks[..i][..k]) <= IdsOf(tasks[..i]);
      assert UsedColours(colours', nodes) == UsedColours(colours, nodes);
      if k < i {
        assert tasks[..i][k].id == tasks[k].id && tasks[k].id != x;
      } else {
        assert tasks[..i][..i] == tasks[..i];
        assert UsedColours(colours, nodes) == UsedColours(colours, Entered(adj, x));
      }
    }
  }

  method MaxColour(colours: Colours) returns (top: int)
    ensures top >= -1 && forall x | x in colours :: colours[x] <= top
    ensures top >= 0 ==> exists x :: x in colours && colours[x] == top
  {
    top := -1;
    var todo := colours.Keys;
    while todo != {}
      invariant todo <= colours.Keys && top >= -1
      invariant forall x | x in colours && x !in todo :: colours[x] <= top
      invariant top >= 0 ==> exists x :: x in colours && colours[x] == top
      decreases todo
    {
      NonemptyHasInt(todo);
      var x :| x in todo;
      if colours[x] > top { top := colours[x]; }
      todo := todo - {x};
    }
  }

  method BuildBatches(tasks: seq<Task>, colours: Colours) returns (parts: seq<seq<Id>>)
    requires colours.Keys == IdsOf(tasks)
    ensures Batches(tasks, colours, parts)
  {
    var top := MaxColour(colours);
    parts := seq(top + 1, _ => []);
    for i := 0 to |tasks|
      invariant |parts| == top + 1
      invariant forall c | 0 <= c < |parts| :: parts[c] == Batch(tasks[..i], colours, c)
    {
      assert tasks[..i + 1][..i] == tasks[..i];
      assert tasks[i].id in IdsOf(tasks);
      var c := colours[tasks[i].id];
      parts := parts[c := parts[c] + [tasks[i].id]];
    }
    assert tasks[..|tasks|] == tasks;
  }

  method IndexBatch(index0: Colours, ids: seq<Id>, c: nat) returns (index: Colours)
    ensures forall x :: x in index <==> x in index0 || x in ids
    ensures forall x | x in index :: index[x] == if x in ids then c else index0[x]
  {
    index := index0;
    for k := 0 to |ids|
      invariant forall x :: x in index <==> x in index0 || x in ids[..k]
      invariant forall x | x in index :: index[x] == if x in ids[..k] then c else index0[x]
    {
      assert ids[..k + 1] == ids[..k] + [ids[k]];
      index := index[ids[k] := c];
    }
    assert ids[..|ids|] == ids;
  }

  /** partIndex, read back from the batches, is the colour. */
  method PartIndex(ghost tasks: seq<Task>, ghost colours: Colours, parts: seq<seq<Id>>) returns (index: Colours)
    requires colours.Keys == IdsOf(tasks) && Batches(tasks, colours, parts)
    ensures index == colours
  {
    index := map[];
    for c := 0 to |parts|
      invariant forall x :: x in index <==> x in colours && colours[x] < c
      invariant forall x | x in index :: index[x] == colours[x]
    {
      forall x ensures x in parts[c] <==> x in colours && colours[x] == c {
        InBatch(tasks, colours, c, x);
      }
      hide Batches;
      index := IndexBatch(index, parts[c], c);
    }
    assert forall x :: x in index <==> x in colours;
    assert index.Keys == colours.Keys;
  }

  method Wrap(t: Task, adj: Adjacency, index: Colours) returns (w: Task)
    requires t.id in index && forall n | n in Neighbours(adj, t.id) :: n in index
    ensures Wraps(adj, index, t, w)
  {
    var extra: seq<Id> := [];
    var todo := if t.id in adj then adj[t.id] else {};
    ghost var all := todo;
    while todo != {}
      invariant todo <= all && Distinct(extra)
      invariant forall n :: n in extra <==> n in all - todo && n in Earlier(adj, index, t.id)
      decreases todo
    {
      NonemptyHasInt(todo);
      var n :| n in todo;
      ghost var before := extra;
      if index[n] < index[t.id] { extra := extra + [n]; }
      todo := todo - {n};
      assert forall m :: m in extra <==> m in before || (m == n && index[n] < index[t.id]);
    }
    w := Task(t.id, t.deps + extra);
    assert Extra(t, w) == extra;
  }

  method WrapAll(tasks: seq<Task>, ghost touch: Touch, adj: Adjacency, index: Colours) returns (wrapped: seq<Task>)
    requires IsConflictGraph(tasks, touch, adj) && index.Keys == IdsOf(tasks)
    ensures AllWrapped(adj, index, tasks, wrapped)
  {
    wrapped := [];
    for i := 0 to |tasks|
      invariant AllWrapped(adj, index, tasks[..i], wrapped)
    {
      assert tasks[i].id in IdsOf(tasks);
      forall n | n in Neighbours(adj, tasks[i].id) ensures n in index {
        assert Conflict(tasks, touch, tasks[i].id, n);
      }
      var w := Wrap(tasks[i], adj, index);
      wrapped := wrapped + [w];
    }
    assert tasks[..|tasks|] == tasks;
  }

  /** What Plan promises: batches by colour over the conflict graph, and every task wrapped with
      its earlier neighbours. The colouring is the greedy one unless a task id is repeated. */
  ghost predicate IsPlan(tasks: seq<Task>, touch: Touch, adj: Adjacency, colours: Colours,
                         parts: seq<seq<Id>>, wrapped: seq<Task>) {
    && IsConflictGraph(tasks, touch, adj)
    && colours.Keys == IdsOf(tasks)
    && ProperColouring(adj, colours)
    && BoundedColouring(adj, colours)
    && (Distinct(Ids(tasks)) ==> Greedy(tasks, adj, colours))
    && Batches(tasks, colours, parts)
    && AllWrapped(adj, colours, tasks, wrapped)
  }

  method Plan<K>(tasks: seq<Task>, keysFor: Task -> seq<K>, hash: K -> nat)
    returns (parts: seq<seq<Id>>, wrapped: seq<Task>, ghost adj: Adjacency, ghost colours: Colours)
    ensures IsPlan(tasks, Hashed(keysFor, hash), adj, colours, parts, wrapped)
    ensures DisjointBatches(tasks, keysFor, parts)
    ensures |wrapped| == |tasks|
    ensures forall i | 0 <= i < |tasks| :: wrapped[i].id == tasks[i].id && tasks[i].deps <= wrapped[i].deps
  {
    var touch := Hashed(keysFor, hash);
    var owners := KeyOwners(tasks, touch);
    var graph := ConflictGraph(owners, tasks, touch);
    var colourOf := Colour(tasks, graph);
    parts := BuildBatches(tasks, colourOf);
    var index := PartIndex(tasks, colourOf, parts);
    ConflictSymmetric(tasks, touch, graph);
    wrapped := WrapAll(tasks, touch, graph, index);
    adj, colours := graph, colourOf;
    hide Greedy, ProperColouring, BoundedColouring, Batches, AllWrapped, IsConflictGraph, Hashed, OwnersAre;
    PlanDisjoint(tasks, keysFor, hash, adj, colours, parts, wrapped);
    WrappedExtends(adj, colours, tasks, wrapped);
  }

  lemma WrappedExtends(adj: Adjacency, colours: Colours, tasks: seq<Task>, wrapped: seq<Task>)
    requires AllWrapped(adj, colours, tasks, wrapped)
    ensures |wrapped| == |tasks|
    ensures forall i | 0 <= i < |tasks| :: wrapped[i].id == tasks[i].id && tasks[i].deps <= wrapped[i].deps
  {
    assert forall i | 0 <= i < |tasks| :: Wraps(adj, colours, tasks[i], wrapped[i]);
  }

  /** Different tasks of one batch name no common key. */
  ghost predicate DisjointBatches<K>(tasks: seq<Task>, keysFor: Task -> seq<K>, parts: seq<seq<Id>>) {
    forall c, i, j | 0 <= c < |parts| && 0 <= i < |tasks| && 0 <= j < |tasks| && tasks[i].id != tasks[j].id
                     && tasks[i].id in parts[c] && tasks[j].id in parts[c] ::
      forall key | key in keysFor(tasks[i]) :: key !in keysFor(tasks[j])
  }

  lemma PlanDisjoint<K>(tasks: seq<Task>, keysFor: Task -> seq<K>, hash: K -> nat, adj: Adjacency, colours: Colours,
                        parts: seq<seq<Id>>, wrapped: seq<Task>)
    requires IsPlan(tasks, Hashed(keysFor, hash), adj, colours, parts, wrapped)
    ensures DisjointBatches(tasks, keysFor, parts)
  {
    hide Greedy, Batches, IsConflictGraph, ProperColouring, AllWrapped, Owner, Hashed;
    forall c, i, j, key | 0 <= c < |parts| && 0 <= i < |tasks| && 0 <= j < |tasks| && tasks[i].id != tasks[j].id
                          && tasks[i].id in parts[c] && tasks[j].id in parts[c]
                          && key in keysFor(tasks[i]) && key in keysFor(tasks[j])
      ensures false
    {
      var h := CommonHash(tasks, keysFor, hash, i, j, key);
      BatchDisjoint(tasks, Hashed(keysFor, hash), adj, colours, parts, c, tasks[i].id, tasks[j].id, h);
    }
  }

  lemma CommonHash<K>(tasks: seq<Task>, keysFor: Task -> seq<K>, hash: K -> nat, i: nat, j: nat, key: K)
    returns (h: nat)
    requires i < |tasks| && j < |tasks|
    requires key in keysFor(tasks[i]) && key in keysFor(tasks[j])
    ensures Owner(tasks, Hashed(keysFor, hash), tasks[i].id, h) && Owner(tasks, Hashed(keysFor, hash), tasks[j].id, h)
  {
    var touch := Hashed(keysFor, hash);
    var a :| 0 <= a < |keysFor(tasks[i])| && keysFor(tasks[i])[a] == key;
    var b :| 0 <= b < |keysFor(tasks[j])| && keysFor(tasks[j])[b] == key;
    assert touch(tasks[i])[a] == touch(tasks[j])[b] == hash(key);
    h := hash(key);
  }

  /** Tasks that name a common key conflict, whatever the hash function. */
  lemma SharedKeyConflicts<K>(tasks: seq<Task>, keysFor: Task -> seq<K>, hash: K -> nat, i: nat, j: nat, key: K)
    requires i < |tasks| && j < |tasks| && tasks[i].id != tasks[j].id
    requires key in keysFor(tasks[i]) && key in keysFor(tasks[j])
    ensures Conflict(tasks, Hashed(keysFor, hash), tasks[i].id, tasks[j].id)
  {
    var h := CommonHash(tasks, keysFor, hash, i, j, key);
  }
}
