/** At which end of which queue the scheduler's steps put and take tasks, and in which order. */
module SchedulerDeques {
  import opened Deque
  import opened DependencyGraph
  import opened SchedulerState
  import opened SchedulerInvariant
  import opened SchedulerOverflow

  // ---------------------------------------------------------------- one task

  /** A worker pops the newest task of its own deque. */
  lemma TakeOwnPops(c: Config, s: State, w: nat)
    requires w < |s.queues| == |s.hands| && s.queues[w] != []
    ensures var s' := TakeOwn(s, w);
      && s' == s.(queues := s.queues[w := s'.queues[w]], hands := s.hands[w := s'.hands[w]])
      && s'.hands[w].Some?
      && Legal(c.dequeSize, s.queues[w], PopBottom, Got(s'.hands[w].value), s'.queues[w])
  {}

  /** A thief takes the oldest task of its victim's deque. */
  lemma StealPops(c: Config, s: State, w: nat, v: nat)
    requires w < |s.hands| && v < |s.queues| && s.queues[v] != []
    ensures var s' := Steal(s, w, v);
      && s' == s.(queues := s.queues[v := s'.queues[v]], hands := s.hands[w := s'.hands[w]])
      && s'.hands[w].Some?
      && Legal(c.dequeSize, s.queues[v], PopTop, Got(s'.hands[w].value), s'.queues[v])
  {}

  /** The task leaves the ready queue, and nothing else does. */
  lemma TakeReadyPops(s: State, w: nat, k: nat)
    requires w < |s.hands| && k < |s.ready|
    ensures var s' := TakeReady(s, w, k);
      && s' == s.(ready := s'.ready, hands := s.hands[w := Some(s.ready[k])])
      && |s'.ready| == |s.ready| - 1
      && forall i | 0 <= i < |s'.ready| :: s'.ready[i] == s.ready[if i < k then i else i + 1]
  {}

  /** A task is pushed at the bottom of its worker's deque; where that is refused, it goes behind the
      tasks in the ready queue, unless that is full too. It is Ready in every case. */
  lemma PushPushes(c: Config, s: State, x: Id, w: nat)
    requires w < |s.queues|
    ensures var s' := PushToWorker(c, s, x, w);
      && s' == s.(queues := s.queues[w := s'.queues[w]], ready := s'.ready, status := s.status[x := Ready])
      && exists r ::
        && Legal(c.dequeSize, s.queues[w], PushBottom(x), r, s'.queues[w])
        && s'.ready == if r == Full && |s.ready| < c.readySize then s.ready + [x] else s.ready
  {
    var r: Result<Id> := if |s.queues[w]| < c.dequeSize then Accepted else Full;
    var s' := PushToWorker(c, s, x, w);
    assert s.queues[w := s.queues[w]] == s.queues;
    assert Legal(c.dequeSize, s.queues[w], PushBottom(x), r, s'.queues[w]);
  }

  // ---------------------------------------------------------------- many tasks

  /** What a scheduling pass does apart from the queues: every task of `xs` is Ready. */
  ghost predicate OnlyReadies(s: State, s': State, xs: seq<Id>) {
    && s' == s.(queues := s'.queues, ready := s'.ready, status := s'.status)
    && s'.status.Keys == s.status.Keys + (set x | x in xs)
    && forall x | x in s'.status :: s'.status[x] == if x in xs then Ready else s.status[x]
  }

  lemma ReadiesOneMore(s: State, s1: State, s': State, xs: seq<Id>, x: Id)
    requires OnlyReadies(s, s1, xs)
    requires s' == s1.(queues := s'.queues, ready := s'.ready, status := s1.status[x := Ready])
    ensures OnlyReadies(s, s', xs + [x])
  {}

  /** The ready queue takes the tasks in order, behind those it holds, until it is full. */
  lemma {:induction false} EnqueueExactly(c: Config, s: State, xs: seq<Id>)
    requires |s.ready| <= c.readySize
    ensures var s' := Enqueue(c, s, xs);
      && OnlyReadies(s, s', xs) && s'.queues == s.queues
      && s'.ready == s.ready + xs[..if |s.ready| + |xs| <= c.readySize then |xs| else c.readySize - |s.ready|]
  {
    if xs != [] {
      var front, x := xs[..|xs| - 1], xs[|xs| - 1];
      EnqueueExactly(c, s, front);
      assert front + [x] == xs;
      hide OnlyReadies;
      ReadiesOneMore(s, Enqueue(c, s, front), Enqueue(c, s, xs), front, x);
      if |s.ready| + |xs| > c.readySize {
        assert front[..c.readySize - |s.ready|] == xs[..c.readySize - |s.ready|];
      }
    }
  }

  lemma {:induction false} DistributeReadies(c: Config, s: State, xs: seq<Id>, order: seq<nat>)
    requires order != []
    ensures OnlyReadies(s, Distribute(c, s, xs, order), xs)
  {
    if xs != [] {
      var front, x := xs[..|xs| - 1], xs[|xs| - 1];
      DistributeReadies(c, s, front, order);
      assert front + [x] == xs;
      hide OnlyReadies;
      ReadiesOneMore(s, Distribute(c, s, front, order), Distribute(c, s, xs, order), front, x);
    }
  }

  /** Behind what it held, the deque holds the tasks k, k + n, k + 2n, .. in that order. */
  ghost predicate DealtInOrder(q: seq<Id>, q': seq<Id>, xs: seq<Id>, n: nat, k: nat) {
    && q <= q'
    && forall j | 0 <= j < |q'| - |q| :: k + j * n < |xs| && q'[|q| + j] == xs[k + j * n]
  }

  lemma DealtOneMore(q: seq<Id>, q': seq<Id>, front: seq<Id>, x: Id, n: nat, k: nat)
    requires n > 0 && k < n && DealtInOrder(q, q', front, n, k)
    ensures DealtInOrder(q, q', front + [x], n, k)
    ensures |front| % n == k && |q'| - |q| == |front| / n ==> DealtInOrder(q, q' + [x], front + [x], n, k)
  {
    if |front| % n == k && |q'| - |q| == |front| / n {
      var d := |front| / n;
      assert k + d * n == |front|;
      forall j | 0 <= j < d + 1 ensures k + j * n < |front| + 1 && (q' + [x])[|q| + j] == (front + [x])[k + j * n] {
        if j < d { assert k + j * n < |front| && q'[|q| + j] == front[k + j * n]; }
      }
    }
  }

  /** A deque that is not full yet has taken every task dealt to it. */
  lemma TakenSoFar(size: nat, i: nat, n: nat, k: nat, capacity: nat)
    requires n > 0 && k == i % n
    ensures Dealt(i, n, k) == i / n
    ensures Filled(size, i / n, capacity) < capacity ==> Filled(size, i / n, capacity) == size + i / n
  {}

  /** The k-th worker of the order is dealt every n-th task from the k-th on, as DequeSizes says how
      many of them, each at the bottom of its deque. */
  lemma {:induction false} DistributeDeals(c: Config, s: State, xs: seq<Id>, order: seq<nat>, k: nat)
    requires InRange(s, order) && k < |order|
    ensures |Distribute(c, s, xs, order).queues| == |s.queues|
    ensures DealtInOrder(s.queues[order[k]], Distribute(c, s, xs, order).queues[order[k]], xs, |order|, k)
  {
    if xs != [] {
      var i, n := |xs| - 1, |order|;
      var front, x, q := xs[..i], xs[i], s.queues[order[k]];
      DistributeDeals(c, s, front, order, k);
      DequeSizes(c, s, front, order, k);
      var q1 := Distribute(c, s, front, order).queues[order[k]];
      assert front + [x] == xs;
      DealtOneMore(q, q1, front, x, n, k);
      assert order[k] == order[i % n] <==> k == i % n;
      if k == i % n { TakenSoFar(|q|, i, n, k, c.dequeSize); }
      hide DealtInOrder;
    }
  }

  /** Deques of workers that are not in the order are left alone. */
  lemma {:induction false} OthersNotDealt(c: Config, s: State, xs: seq<Id>, order: seq<nat>, w: nat)
    requires order != [] && w < |s.queues| && w !in order
    ensures |Distribute(c, s, xs, order).queues| == |s.queues|
    ensures Distribute(c, s, xs, order).queues[w] == s.queues[w]
  {
    if xs != [] { OthersNotDealt(c, s, xs[..|xs| - 1], order, w); }
  }

  /** The i-th task overflows and finds room at its place in the ready queue. */
  ghost predicate Spills(c: Config, s: State, order: seq<nat>, i: nat)
    requires order != []
  {
    Overflows(c, s, order, i) && |s.ready| + Overflow(c, s, order, i) < c.readySize
  }

  lemma SpillsOneMore(c: Config, s: State, xs: seq<Id>, order: seq<nat>)
    requires InRange(s, order) && order != [] && |s.ready| <= c.readySize && xs != []
    ensures var n := |xs| - 1;
      var ready := Distribute(c, s, xs[..n], order).ready;
      Distribute(c, s, xs, order).ready == if Spills(c, s, order, n) then ready + [xs[n]] else ready
  {
    var n := |xs| - 1;
    ReadySize(c, s, xs[..n], order);
    OverflowsWhenFull(c, s, xs[..n], order);
    hide Overflows;
  }

  /** The i-th task is at its place in the ready queue, if it is to be there. */
  ghost predicate SpilledAt(c: Config, s: State, order: seq<nat>, ready: seq<Id>, i: nat, x: Id)
    requires order != []
  {
    Spills(c, s, order, i) ==>
      |s.ready| + Overflow(c, s, order, i) < |ready| && ready[|s.ready| + Overflow(c, s, order, i)] == x
  }

  /** The last task dealt spills behind all the others. */
  lemma LastSpilled(c: Config, s: State, xs: seq<Id>, order: seq<nat>)
    requires InRange(s, order) && order != [] && |s.ready| <= c.readySize && xs != []
    ensures SpilledAt(c, s, order, Distribute(c, s, xs, order).ready, |xs| - 1, xs[|xs| - 1])
  {
    ReadySize(c, s, xs[..|xs| - 1], order);
    SpillsOneMore(c, s, xs, order);
    hide Distribute, Overflows;
  }

  lemma StaysSpilled(c: Config, s: State, order: seq<nat>, ready: seq<Id>, ready': seq<Id>, i: nat, x: Id)
    requires order != [] && ready <= ready' && SpilledAt(c, s, order, ready, i, x)
    ensures SpilledAt(c, s, order, ready', i, x)
  {}

  lemma NoneDealt(c: Config, s: State, order: seq<nat>)
    requires order != []
    ensures Distribute(c, s, [], order) == s
  {}

  /** Behind what it held, the ready queue takes what overflows, in order, as ReadySize says how much. */
  lemma {:induction false} DistributeSpills(c: Config, s: State, xs: seq<Id>, order: seq<nat>)
    requires InRange(s, order) && order != [] && |s.ready| <= c.readySize
    ensures s.ready <= Distribute(c, s, xs, order).ready
    ensures forall i | 0 <= i < |xs| :: SpilledAt(c, s, order, Distribute(c, s, xs, order).ready, i, xs[i])
  {
    hide *;
    if xs == [] {
      NoneDealt(c, s, order);
    } else {
      var n := |xs| - 1;
      DistributeSpills(c, s, xs[..n], order);
      SpillsOneMore(c, s, xs, order);
      LastSpilled(c, s, xs, order);
      var ready, ready' := Distribute(c, s, xs[..n], order).ready, Distribute(c, s, xs, order).ready;
      forall i | 0 <= i < n ensures SpilledAt(c, s, order, ready', i, xs[i]) {
        StaysSpilled(c, s, order, ready, ready', i, xs[i]);
      }
    }
  }

  // ---------------------------------------------------------------- what is registered, woken and released

  function Mentions(n: nat, x: Id): seq<Id> {
    seq(n, _ => x)
  }

  lemma OneMention(n: nat, x: Id)
    ensures Mentions(n + 1, x) == Mentions(n, x) + [x] && Mentions(0, x) == []
  {}

  lemma AddReverseMore(rev: Graph, ds: seq<Id>, x: Id, d: Id)
    ensures ds == [] ==> DepsOf(AddReverse(rev, ds, x), d) == DepsOf(rev, d)
    ensures ds != [] ==>
      var front, last := ds[..|ds| - 1], ds[|ds| - 1];
      && DepsOf(AddReverse(rev, ds, x), d) == DepsOf(AddReverse(rev, front, x), d) + (if d == last then [x] else [])
      && multiset(ds)[d] == multiset(front)[d] + if d == last then 1 else 0
  {
    if ds != [] {
      var front, last := ds[..|ds| - 1], ds[|ds| - 1];
      assert ds == front + [last];
      assert DepsOf(AddReverse(rev, front, x), d) + [] == DepsOf(AddReverse(rev, front, x), d);
    }
  }

  /** A new task is entered once per mention behind the dependents already listed. */
  lemma {:induction false} AddReverseExactly(rev: Graph, ds: seq<Id>, x: Id, d: Id)
    ensures DepsOf(AddReverse(rev, ds, x), d) == DepsOf(rev, d) + Mentions(multiset(ds)[d], x)
  {
    hide *;
    AddReverseMore(rev, ds, x, d);
    if ds == [] {
      OneMention(0, x);
    } else {
      var front := ds[..|ds| - 1];
      AddReverseExactly(rev, front, x, d);
      OneMention(multiset(front)[d], x);
      Associates(DepsOf(rev, d), Mentions(multiset(front)[d], x), if d == ds[|ds| - 1] then [x] else []);
    }
  }

  lemma Associates(a: seq<Id>, b: seq<Id>, c: seq<Id>)
    ensures (a + b) + c == a + (b + c) && b + [] == b && a + [] == a
  {}

  lemma RegisterExactly(s: State, t: Task)
    ensures var s' := Register(s, t);
      && s' == s.(tasks := s.tasks[t.id := t], status := s.status[t.id := Pending], deps := s.deps[t.id := t.deps],
                  dependents := s'.dependents)
      && forall d :: DepsOf(s'.dependents, d) == DepsOf(s.dependents, d) + Mentions(multiset(t.deps)[d], t.id)
  {
    forall d
      ensures DepsOf(Register(s, t).dependents, d) == DepsOf(s.dependents, d) + Mentions(multiset(t.deps)[d], t.id)
    {
      AddReverseExactly(s.dependents, t.deps, t.id, d);
    }
  }

  /** The tasks are registered one after the other, in the order of the call. */
  lemma {:induction false} RegisterInOrder(s: State, a: seq<Task>, b: seq<Task>)
    ensures RegisterAll(s, a + b) == RegisterAll(RegisterAll(s, a), b)
    ensures b != [] ==> RegisterAll(s, [b[0]]) == Register(s, b[0])
  {
    if b == [] {
      assert a + b == a;
    } else {
      RegisterInOrder(s, a, b[..|b| - 1]);
      assert (a + b)[..|a + b| - 1] == a + b[..|b| - 1];
      assert [b[0]][..0] == [];
    }
  }

  /** Which tasks are found ready is decided one by one, and they keep their order. */
  lemma {:induction false} FindReadyInOrder(s: State, a: seq<Task>, b: seq<Task>)
    ensures FindReady(s, a + b) == FindReady(s, a) + FindReady(s, b)
    ensures b != [] ==> FindReady(s, [b[0]]) == if DepsCompleted(s, b[0].id) then [b[0].id] else []
  {
    hide DepsCompleted;
    if b == [] {
      assert a + b == a;
    } else {
      FindReadyInOrder(s, a, b[..|b| - 1]);
      assert (a + b)[..|a + b| - 1] == a + b[..|b| - 1];
      assert [b[0]][..0] == [];
      assert FindReady(s, []) == [];
    }
  }

  /** So are the tasks a completion wakes. */
  lemma {:induction false} WokenInOrder(s: State, a: seq<Id>, b: seq<Id>)
    ensures WokenAmong(s, a + b) == WokenAmong(s, a) + WokenAmong(s, b)
    ensures b != [] ==> WokenAmong(s, [b[0]]) == if Wakes(s, b[0]) then [b[0]] else []
  {
    hide Wakes;
    if b == [] {
      assert a + b == a;
    } else {
      WokenInOrder(s, a, b[..|b| - 1]);
      assert (a + b)[..|a + b| - 1] == a + b[..|b| - 1];
      assert [b[0]][..0] == [];
      assert WokenAmong(s, []) == [];
    }
  }

  /** The first worker that holds the task becomes idle, and no other worker's task changes. */
  lemma {:induction false} ReleaseExactly(current: seq<int>, x: Id) returns (w: nat)
    ensures x !in current ==> Release(current, x) == current
    ensures x in current ==>
      w < |current| && current[w] == x && x !in current[..w] && Release(current, x) == current[w := IDLE]
  {
    w := 0;
    if current != [] && current[0] != x {
      var v := ReleaseExactly(current[1..], x);
      if x in current {
        w := v + 1;
        assert current[..w] == [current[0]] + current[1..][..v];
        assert current[w := IDLE] == [current[0]] + current[1..][v := IDLE];
      } else {
        assert x !in current[1..];
      }
    }
  }

  /** A completion marks the task, releases its worker, and readies exactly those of its dependents
      that are Pending and wait for nothing more. */
  lemma CompleteExactly(c: Config, s: State, x: Id, order: seq<nat>)
    requires order != [] && |s.ready| <= c.readySize
    ensures var done := s.(status := s.status[x := Completed], current := Release(s.current, x));
      var woken := Woken(done, x);
      && OnlyReadies(done, Complete(c, s, x, order), woken)
      && forall y :: y in woken <==>
           && y in DepsOf(s.dependents, x) && y != x && HasStatus(s, y, Pending) && y in s.tasks
           && forall d | d in DepsOf(s.deps, y) :: d == x || IsCompleted(s, d)
  {
    var done := MarkCompleted(s, x);
    if c.loadBalancing {
      DistributeReadies(c, done, Woken(done, x), order);
    } else {
      EnqueueExactly(c, done, Woken(done, x));
    }
    hide OnlyReadies, Schedule, Release;
    WokenAmongCounts(done, DepsOf(s.dependents, x));
    forall y ensures y in Woken(done, x) <==>
                 && y in DepsOf(s.dependents, x) && y != x && HasStatus(s, y, Pending) && y in s.tasks
                 && forall d | d in DepsOf(s.deps, y) :: d == x || IsCompleted(s, d)
    {
      assert y in Woken(done, x) <==> multiset(Woken(done, x))[y] > 0;
      assert forall d :: IsCompleted(done, d) <==> d == x || IsCompleted(s, d);
    }
  }
}
