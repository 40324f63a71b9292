/** Queue capacities: exactly when newly ready tasks are lost because Push's result is ignored. */
module SchedulerOverflow {
  import opened Deque
  import opened PowerOfTwo
  import opened DependencyGraph
  import opened Multisets
  import opened SchedulerState
  import opened SchedulerInvariant

  lemma {:induction false} EnqueueFills(c: Config, s: State, xs: seq<Id>)
    requires |s.ready| <= c.readySize
    ensures var s' := Enqueue(c, s, xs);
      && |s'.ready| == (if |s.ready| + |xs| <= c.readySize then |s.ready| + |xs| else c.readySize)
      && s'.queues == s.queues && s'.hands == s.hands
      && forall x :: multiset(s'.ready)[x] <= multiset(s.ready)[x] + multiset(xs)[x]
  {
    if xs != [] {
      var front, x := xs[..|xs| - 1], xs[|xs| - 1];
      EnqueueFills(c, s, front);
      assert xs == front + [x];
    }
  }

  lemma {:induction false} EnqueueMarks(c: Config, s: State, xs: seq<Id>, x: Id)
    requires x in xs
    ensures HasStatus(Enqueue(c, s, xs), x, Ready)
  {
    var front, last := xs[..|xs| - 1], xs[|xs| - 1];
    if x != last { EnqueueMarks(c, s, front, x); }
  }

  /** The last task of a batch that does not fit is Ready and in no queue. */
  lemma OverflowDropsLast(c: Config, s: State, xs: seq<Id>)
    requires PlacedOnce(s) && |s.ready| <= c.readySize < |s.ready| + |xs|
    requires forall x :: multiset(xs)[x] <= if HasStatus(s, x, Pending) then 1 else 0
    ensures !PlacedOnce(Enqueue(c, s, xs))
  {
    var front, x := xs[..|xs| - 1], xs[|xs| - 1];
    assert xs == front + [x];
    assert multiset(xs)[x] == multiset(front)[x] + 1;
    EnqueueFills(c, s, front);
    EnqueueMarks(c, s, xs, x);
    var s1, s' := Enqueue(c, s, front), Enqueue(c, s, xs);
    assert s'.ready == s1.ready && s'.queues == s.queues && s'.hands == s.hands;
    hide Enqueue;
    assert Placed(s)[x] == 0;
    assert Placed(s')[x] == 0;
  }

  /** Without load balancing, newly ready tasks all end up in one place exactly when the ready
      queue has room for the whole batch. */
  lemma OverflowLosesTasks(c: Config, s: State, xs: seq<Id>)
    requires PlacedOnce(s) && |s.ready| <= c.readySize
    requires forall x :: multiset(xs)[x] <= if HasStatus(s, x, Pending) then 1 else 0
    ensures PlacedOnce(Enqueue(c, s, xs)) <==> |s.ready| + |xs| <= c.readySize
  {
    hide PlacedOnce, Scheduled, Enqueue;
    forall x | x in xs ensures HasStatus(s, x, Pending) { assert multiset(xs)[x] > 0; }
    if |s.ready| + |xs| <= c.readySize {
      EnqueueSchedules(c, s, xs);
      ScheduledPlaced(s, Enqueue(c, s, xs), xs);
    } else {
      OverflowDropsLast(c, s, xs);
    }
  }

  // ---------------------------------------------------------------- dealing tasks to the deques

  /** How many of the first m tasks are dealt to the k-th worker of n. */
  function Dealt(m: nat, n: nat, k: nat): nat
    requires n > 0
  {
    m / n + if k < m % n then 1 else 0
  }

  lemma DealtNext(m: nat, n: nat, k: nat)
    requires k < n
    ensures Dealt(m + 1, n, k) == Dealt(m, n, k) + if k == m % n then 1 else 0
  {
    var q, r := m / n, m % n;
    assert m == n * q + r;
    if r + 1 < n {
      QuotientUnique(m + 1, n, q, r + 1);
      QuotientIs(m + 1, n, q, r + 1);
    } else {
      assert n * (q + 1) == n * q + n;
      QuotientUnique(m + 1, n, q + 1, 0);
      QuotientIs(m + 1, n, q + 1, 0);
    }
  }

  lemma QuotientIs(i: nat, n: nat, q: nat, r: nat)
    requires n > 0 && i == n * q + r && i % n == r
    ensures i / n == q
  {
    assert i == n * (i / n) + i % n;
    assert n * (i / n - q) == n * (i / n) - n * q;
    NoMultipleBetween(n, i / n - q);
    NoMultipleBetween(n, q - i / n);
    assert n * (q - i / n) == n * q - n * (i / n);
  }

  /** The i-th task finds its worker's deque filled, by what was there and by the rounds before. */
  predicate Overflows(c: Config, s: State, order: seq<nat>, i: nat)
    requires order != []
  {
    var w := order[i % |order|];
    w < |s.queues| ==> |s.queues[w]| + i / |order| >= c.dequeSize
  }

  /** How many of the first m tasks overflow their worker's deque. */
  function Overflow(c: Config, s: State, order: seq<nat>, m: nat): nat
    requires order != []
  {
    if m == 0 then 0 else Overflow(c, s, order, m - 1) + if Overflows(c, s, order, m - 1) then 1 else 0
  }

  predicate InRange(s: State, order: seq<nat>) {
    Distinct(order) && forall k | 0 <= k < |order| :: order[k] < |s.queues|
  }

  function Filled(size: nat, dealt: nat, capacity: nat): nat {
    if size >= capacity then size else if size + dealt <= capacity then size + dealt else capacity
  }

  /** Each deque takes what it is dealt until it is full. */
  lemma {:induction false} DequeSizes(c: Config, s: State, xs: seq<Id>, order: seq<nat>, k: nat)
    requires InRange(s, order) && k < |order|
    ensures var s' := Distribute(c, s, xs, order);
      |s'.queues| == |s.queues|
      && |s'.queues[order[k]]| == Filled(|s.queues[order[k]]|, Dealt(|xs|, |order|, k), c.dequeSize)
  {
    if xs != [] {
      var i := |xs| - 1;
      DequeSizes(c, s, xs[..i], order, k);
      DealtNext(i, |order|, k);
      assert order[k] == order[i % |order|] <==> k == i % |order|;
    }
  }

  lemma OverflowsWhenFull(c: Config, s: State, xs: seq<Id>, order: seq<nat>)
    requires InRange(s, order) && order != []
    ensures var s', w := Distribute(c, s, xs, order), order[|xs| % |order|];
      w < |s'.queues| && (Overflows(c, s, order, |xs|) <==> |s'.queues[w]| >= c.dequeSize)
  {
    DequeSizes(c, s, xs, order, |xs| % |order|);
  }

  /** The ready queue takes what overflows until it is full. */
  lemma {:induction false} ReadySize(c: Config, s: State, xs: seq<Id>, order: seq<nat>)
    requires InRange(s, order) && order != [] && |s.ready| <= c.readySize
    ensures var sum := |s.ready| + Overflow(c, s, order, |xs|);
      |Distribute(c, s, xs, order).ready| == if sum <= c.readySize then sum else c.readySize
  {
    if xs != [] {
      var i := |xs| - 1;
      ReadySize(c, s, xs[..i], order);
      OverflowsWhenFull(c, s, xs[..i], order);
      hide Overflows;
    }
  }

  lemma {:induction false} DistributeFits(c: Config, s: State, xs: seq<Id>, order: seq<nat>)
    requires InRange(s, order) && order != [] && |s.ready| + Overflow(c, s, order, |xs|) <= c.readySize
    ensures Scheduled(s, Distribute(c, s, xs, order), xs)
  {
    hide Placed, MarkReady, Overflows;
    if xs == [] {
      NothingScheduled(s);
    } else {
      var i := |xs| - 1;
      var front, x, w := xs[..i], xs[i], order[i % |order|];
      DistributeFits(c, s, front, order);
      ReadySize(c, s, front, order);
      OverflowsWhenFull(c, s, front, order);
      var s1 := Distribute(c, s, front, order);
      PushToWorkerAdds(c, s1, x, w);
      OneMore(c, s, s1, Distribute(c, s, xs, order), front, x);
      assert front + [x] == xs;
    }
  }

  lemma PushAddsAtMost(c: Config, s: State, x: Id, w: nat, y: Id)
    requires y != x
    ensures Placed(PushToWorker(c, s, x, w))[y] <= Placed(s)[y]
    ensures HasStatus(s, y, Ready) ==> HasStatus(PushToWorker(c, s, x, w), y, Ready)
  {
    if |s.ready| < c.readySize || (w < |s.queues| && |s.queues[w]| < c.dequeSize) {
      PushToWorkerAdds(c, s, x, w);
    }
  }

  /** A task that finds both its worker's deque and the ready queue full is Ready and nowhere. */
  lemma {:induction false} DistributeDrops(c: Config, s: State, xs: seq<Id>, order: seq<nat>) returns (x: Id)
    requires InRange(s, order) && order != []
    requires PlacedOnce(s) && |s.ready| <= c.readySize < |s.ready| + Overflow(c, s, order, |xs|)
    requires forall y :: multiset(xs)[y] <= if HasStatus(s, y, Pending) then 1 else 0
    ensures x in xs && HasStatus(Distribute(c, s, xs, order), x, Ready)
    ensures Placed(Distribute(c, s, xs, order))[x] == 0
  {
    hide Placed, Overflows;
    var i := |xs| - 1;
    var front, last, w := xs[..i], xs[i], order[i % |order|];
    assert xs == front + [last];
    assert forall y :: multiset(xs)[y] == multiset(front)[y] + multiset{last}[y];
    var s1 := Distribute(c, s, front, order);
    if |s.ready| + Overflow(c, s, order, i) > c.readySize {
      x := DistributeDrops(c, s, front, order);
      assert multiset(front)[x] >= 1;
      PushAddsAtMost(c, s1, last, w, x);
    } else {
      x := last;
      DistributeFits(c, s, front, order);
      ReadySize(c, s, front, order);
      OverflowsWhenFull(c, s, front, order);
      assert Distribute(c, s, xs, order) == s1.(status := s1.status[last := Ready]);
      SamePlaces(s1, Distribute(c, s, xs, order));
      assert multiset(front)[last] == 0 && Placed(s)[last] == 0;
    }
  }

  lemma SamePlaces(s: State, s': State)
    requires s' == s.(status := s'.status)
    ensures Placed(s') == Placed(s)
  {}

  /** With load balancing, they all end up in one place exactly when the ready queue has room for
      those that overflow their worker's deque. */
  lemma DistributeLosesTasks(c: Config, s: State, xs: seq<Id>, order: seq<nat>)
    requires PlacedOnce(s) && |s.ready| <= c.readySize && InRange(s, order) && order != []
    requires forall x :: multiset(xs)[x] <= if HasStatus(s, x, Pending) then 1 else 0
    ensures PlacedOnce(Distribute(c, s, xs, order)) <==> |s.ready| + Overflow(c, s, order, |xs|) <= c.readySize
  {
    hide Scheduled, Distribute, Overflow;
    forall x | x in xs ensures HasStatus(s, x, Pending) { assert multiset(xs)[x] > 0; }
    if |s.ready| + Overflow(c, s, order, |xs|) <= c.readySize {
      DistributeFits(c, s, xs, order);
      ScheduledPlaced(s, Distribute(c, s, xs, order), xs);
    } else {
      var x := DistributeDrops(c, s, xs, order);
    }
  }

  /** What a batch needs of the ready queue. */
  function Needed(c: Config, s: State, xs: seq<Id>, order: seq<nat>): nat
    requires order != []
  {
    if c.loadBalancing then Overflow(c, s, order, |xs|) else |xs|
  }

  /** scheduleReadyTasks loses no task exactly when the ready queue has room for what it needs. */
  lemma ScheduleLosesTasks(c: Config, s: State, xs: seq<Id>, order: seq<nat>)
    requires PlacedOnce(s) && |s.ready| <= c.readySize && InRange(s, order) && order != []
    requires forall x :: multiset(xs)[x] <= if HasStatus(s, x, Pending) then 1 else 0
    ensures PlacedOnce(Schedule(c, s, xs, order)) <==> |s.ready| + Needed(c, s, xs, order) <= c.readySize
  {
    hide PlacedOnce;
    if c.loadBalancing { DistributeLosesTasks(c, s, xs, order); } else { OverflowLosesTasks(c, s, xs); }
  }

  // ---------------------------------------------------------------- two tasks, room for one

  const SMALL_CONFIG := Config(1, 1, 1, true, true, true)

  function TwoTasks(): seq<Task> {
    [Task(0, []), Task(1, [])]
  }

  lemma TwoRegistered()
    ensures RegisterAll(Empty(SMALL_CONFIG), TwoTasks()) ==
              State(map[0 := Task(0, []), 1 := Task(1, [])], map[0 := Pending, 1 := Pending],
                    map[0 := [], 1 := []], map[], [[]], [], [IDLE], [None])
  {
    var ts, s := TwoTasks(), Empty(SMALL_CONFIG);
    assert ts[..1] == [ts[0]] && [ts[0]][..0] == [];
    assert RegisterAll(s, []) == s;
    assert RegisterAll(s, [ts[0]]) == Register(s, ts[0]);
    assert RegisterAll(s, ts) == Register(Register(s, ts[0]), ts[1]);
  }

  /** AddTasks of two independent tasks to a scheduler whose ready queue holds one: the second is
      Ready, in no queue, and reported as accepted. */
  lemma AddTasksOverflows()
    ensures var s' := AddTasks(SMALL_CONFIG, Empty(SMALL_CONFIG), TwoTasks());
      && !Rejects(SMALL_CONFIG, Empty(SMALL_CONFIG), TwoTasks())
      && s'.ready == [0] && HasStatus(s', 1, Ready) && Placed(s')[1] == 0
  {
    var ts, s := TwoTasks(), Empty(SMALL_CONFIG);
    var s1 := RegisterAll(s, ts);
    TwoRegistered();
    NoEdgesAcyclic(s1.deps);
    assert ts[..1] == [ts[0]] && [ts[0]][..0] == [];
    assert FindReady(s1, []) == [];
    assert FindReady(s1, [ts[0]]) == [0];
    assert FindReady(s1, ts) == [0, 1];
    assert [0, 1][..1] == [0] && [0][..0] == [];
    assert Enqueue(SMALL_CONFIG, s1, []) == s1;
    assert Enqueue(SMALL_CONFIG, s1, [0]) == PushReady(SMALL_CONFIG, s1, 0);
    var s' := Enqueue(SMALL_CONFIG, s1, [0, 1]);
    assert s' == PushReady(SMALL_CONFIG, PushReady(SMALL_CONFIG, s1, 0), 1);
    SumOfEmpty(Queued(s'.queues));
    SumOfEmpty(Carried(s'.hands));
    assert multiset(s'.ready)[1] == 0;
  }
}
