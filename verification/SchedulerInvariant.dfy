/** What every step of the scheduler keeps: each task is in exactly one place, dependents is the
    reverse of dependencies, and nothing is scheduled before its dependencies completed. */
module SchedulerInvariant {
  import opened Deque
  import opened DependencyGraph
  import opened Multisets
  import opened SchedulerState

  // ---------------------------------------------------------------- where tasks are

  ghost function Queued(queues: seq<seq<Id>>): seq<multiset<Id>> {
    seq(|queues|, i requires 0 <= i < |queues| => multiset(queues[i]))
  }

  ghost function Carried(hands: seq<Option<Id>>): seq<multiset<Id>> {
    seq(|hands|, i requires 0 <= i < |hands| => if hands[i].Some? then multiset{hands[i].value} else multiset{})
  }

  /** Every place a Ready task can be in: the ready queue, a deque, a worker's hands. */
  ghost function Placed(s: State): multiset<Id> {
    multiset(s.ready) + Sum(Queued(s.queues)) + Sum(Carried(s.hands))
  }

  /** How often `y` is listed for `x`. */
  ghost function Listed(g: Graph, x: Id, y: Id): nat {
    multiset(DepsOf(g, x))[y]
  }

  ghost predicate Shape(c: Config, s: State) {
    && |s.queues| == |s.current| == |s.hands| == c.numWorkers
    && s.status.Keys == s.tasks.Keys == s.deps.Keys
    && IDLE !in s.status
    && (forall x | x in s.status ::
        s.status[x].Pending? || s.status[x].Ready? || s.status[x].Running? || s.status[x].Completed?)
    && |s.status| <= c.readySize
  }

  /** dependents is the exact reverse of dependencies, which list nothing twice. */
  ghost predicate Reversed(s: State) {
    && (forall x, d :: Listed(s.dependents, d, x) == Listed(s.deps, x, d))
    && (forall x, d :: Listed(s.deps, x, d) <= 1)
  }

  /** A Ready task is in exactly one place, exactly once; any other task is in none. */
  ghost predicate PlacedOnce(s: State) {
    forall x :: Placed(s)[x] == if HasStatus(s, x, Ready) then 1 else 0
  }

  predicate RunsOn(s: State, w: int, x: Id) {
    0 <= w < |s.current| == |s.hands| && s.current[w] == x && s.hands[w] == None
  }

  /** A worker is idle, or about to run the Ready task in its hands, or runs a Running task. */
  ghost predicate WorkersOk(s: State)
    requires |s.current| == |s.hands|
  {
    && (forall w | 0 <= w < |s.current| && s.current[w] != IDLE ::
          if s.hands[w].Some? then s.current[w] == s.hands[w].value else HasStatus(s, s.current[w], Running))
    && (forall v, w | 0 <= v < w < |s.current| && s.current[v] != IDLE :: s.current[v] != s.current[w])
    && (forall x | HasStatus(s, x, Running) ::
          exists w :: RunsOn(s, w, x))
  }

  /** Only tasks whose dependencies have all completed are scheduled, run or completed. */
  ghost predicate ScheduledAfterDeps(s: State) {
    forall x, d | x in s.status && !s.status[x].Pending? && Edge(s.deps, x, d) :: IsCompleted(s, d)
  }

  ghost predicate Core(c: Config, s: State) {
    Shape(c, s) && Reversed(s) && PlacedOnce(s) && WorkersOk(s) && ScheduledAfterDeps(s)
  }

  /** A Pending task waits for something. */
  ghost predicate PendingWaits(s: State) {
    forall x | HasStatus(s, x, Pending) :: !DepsCompleted(s, x)
  }

  ghost predicate Inv(c: Config, s: State) {
    Core(c, s) && PendingWaits(s)
  }

  // ---------------------------------------------------------------- moving one task

  lemma QueueUpdate(queues: seq<seq<Id>>, w: nat, q: seq<Id>)
    requires w < |queues|
    ensures forall x ::
      Sum(Queued(queues[w := q]))[x] + multiset(queues[w])[x] == Sum(Queued(queues))[x] + multiset(q)[x]
  {
    assert Queued(queues[w := q]) == Queued(queues)[w := multiset(q)];
    SumUpdate(Queued(queues), w, multiset(q));
  }

  lemma HandUpdate(hands: seq<Option<Id>>, w: nat, h: Option<Id>)
    requires w < |hands|
    ensures forall x ::
      Sum(Carried(hands[w := h]))[x] + Carried(hands)[w][x] == Sum(Carried(hands))[x] + Carried([h])[0][x]
  {
    assert Carried(hands[w := h]) == Carried(hands)[w := Carried([h])[0]];
    SumUpdate(Carried(hands), w, Carried([h])[0]);
  }

  /** What a worker carries is a Ready task. */
  lemma CarriedIsReady(c: Config, s: State, w: nat)
    requires Core(c, s) && w < |s.hands| && s.hands[w].Some?
    ensures HasStatus(s, s.hands[w].value, Ready)
  {
    PartOfSum(Carried(s.hands), w);
    assert Placed(s)[s.hands[w].value] >= Carried(s.hands)[w][s.hands[w].value] == 1;
  }

  /** Popping moves one occurrence of a task from a queue to the worker's hands. */
  ghost predicate Moves(s: State, s': State, w: nat) {
    && w < |s.hands| && s.hands[w] == None
    && s' == s.(queues := s'.queues, ready := s'.ready, hands := s'.hands)
    && |s'.queues| == |s.queues|
    && |s'.hands| == |s.hands| && s'.hands[w].Some? && s'.hands == s.hands[w := s'.hands[w]]
    && forall y :: Placed(s')[y] == Placed(s)[y]
  }

  lemma TakeOwnMoves(s: State, w: nat)
    requires w < |s.queues| == |s.hands| && s.queues[w] != [] && s.hands[w] == None
    ensures Moves(s, TakeOwn(s, w), w)
  {
    var q := s.queues[w];
    assert q == q[..|q| - 1] + [q[|q| - 1]];
    QueueUpdate(s.queues, w, q[..|q| - 1]);
    HandUpdate(s.hands, w, Some(q[|q| - 1]));
  }

  lemma StealMoves(s: State, w: nat, v: nat)
    requires w < |s.hands| && v < |s.queues| && s.queues[v] != [] && s.hands[w] == None
    ensures Moves(s, Steal(s, w, v), w)
  {
    var q := s.queues[v];
    assert q == [q[0]] + q[1..];
    QueueUpdate(s.queues, v, q[1..]);
    HandUpdate(s.hands, w, Some(q[0]));
  }

  lemma TakeReadyMoves(s: State, w: nat, k: nat)
    requires w < |s.hands| && k < |s.ready| && s.hands[w] == None
    ensures Moves(s, TakeReady(s, w, k), w)
  {
    assert s.ready == s.ready[..k] + [s.ready[k]] + s.ready[k + 1..];
    HandUpdate(s.hands, w, Some(s.ready[k]));
  }

  lemma MovesKeeps(c: Config, s: State, s': State, w: nat)
    requires Core(c, s) && Moves(s, s', w) && s.current[w] == IDLE
    ensures Core(c, s') && (PendingWaits(s) ==> PendingWaits(s'))
  {
    hide Placed, Reversed, WorkersOk, ScheduledAfterDeps;
    MovesWorkers(s, s', w);
    SameGraphs(s, s');
    AfterDepsStays(s, s');
    SameWaits(s, s');
  }

  lemma MovesWorkers(s: State, s': State, w: nat)
    requires |s.current| == |s.hands| && WorkersOk(s) && IDLE !in s.status
    requires Moves(s, s', w) && s.current[w] == IDLE
    ensures WorkersOk(s')
  {
    hide Placed;
    forall x | HasStatus(s', x, Running) ensures exists v :: RunsOn(s', v, x) {
      assert HasStatus(s, x, Running);
      var v :| RunsOn(s, v, x);
      assert RunsOn(s', v, x);
    }
  }

  lemma SameWaits(s: State, s': State)
    requires s'.deps == s.deps && (forall x :: IsCompleted(s, x) ==> IsCompleted(s', x))
    ensures forall x :: DepsCompleted(s, x) ==> DepsCompleted(s', x)
    ensures (forall x :: IsCompleted(s', x) ==> IsCompleted(s, x)) ==>
              forall x :: DepsCompleted(s', x) ==> DepsCompleted(s, x)
  {}

  lemma CarriedOnce(c: Config, s: State, v: nat, w: nat)
    requires Core(c, s) && v < |s.hands| && w < |s.hands| && v != w && s.hands[v].Some? && s.hands[w].Some?
    ensures s.hands[v].value != s.hands[w].value
  {
    TwoPartsOfSum(Carried(s.hands), if v < w then v else w, if v < w then w else v);
    var x := s.hands[v].value;
    assert Placed(s)[x] >= Sum(Carried(s.hands))[x];
  }

  lemma SetCurrentKeeps(c: Config, s: State, w: nat)
    requires Core(c, s) && Enabled(c, s, SetCurrentStep(w))
    ensures Core(c, SetCurrent(s, w)) && (PendingWaits(s) ==> PendingWaits(SetCurrent(s, w)))
  {
    var s' := SetCurrent(s, w);
    var x := s.hands[w].value;
    CarriedIsReady(c, s, w);
    assert Placed(s') == Placed(s);
    forall v | 0 <= v < |s.current| && v != w && s.current[v] != IDLE ensures s.current[v] != x {
      if s.hands[v].Some? { CarriedOnce(c, s, v, w); }
    }
    forall y | HasStatus(s', y, Running) ensures exists v :: RunsOn(s', v, y) {
      assert HasStatus(s, y, Running);
      var v :| RunsOn(s, v, y);
      assert RunsOn(s', v, y);
    }
    SameWaits(s, s');
  }

  lemma SetRunningWorkers(c: Config, s: State, w: nat)
    requires Core(c, s) && Enabled(c, s, SetRunningStep(w)) && HasStatus(s, s.hands[w].value, Ready)
    ensures WorkersOk(SetRunning(s, w))
  {
    hide Placed, Reversed;
    var s' := SetRunning(s, w);
    var x := s.hands[w].value;
    forall y | HasStatus(s', y, Running) ensures exists v :: RunsOn(s', v, y) {
      if y == x {
        assert RunsOn(s', w, x);
      } else {
        assert HasStatus(s, y, Running);
        var v :| RunsOn(s, v, y);
        assert RunsOn(s', v, y);
      }
    }
  }

  lemma SetRunningPlaced(s: State, w: nat)
    requires PlacedOnce(s) && w < |s.hands| && s.hands[w].Some? && HasStatus(s, s.hands[w].value, Ready)
    ensures PlacedOnce(SetRunning(s, w))
  {
    var s' := SetRunning(s, w);
    HandUpdate(s.hands, w, None);
    forall y ensures Placed(s')[y] == if HasStatus(s', y, Ready) then 1 else 0 {
      assert Placed(s)[y] == if HasStatus(s, y, Ready) then 1 else 0;
      assert Carried([None])[0] == multiset{} && Carried(s.hands)[w] == multiset{s.hands[w].value};
    }
  }

  lemma SetRunningKeeps(c: Config, s: State, w: nat)
    requires Core(c, s) && Enabled(c, s, SetRunningStep(w))
    ensures Core(c, SetRunning(s, w)) && (PendingWaits(s) ==> PendingWaits(SetRunning(s, w)))
    ensures HasStatus(s, s.hands[w].value, Ready)
  {
    var s' := SetRunning(s, w);
    CarriedIsReady(c, s, w);
    SetRunningPlaced(s, w);
    hide PlacedOnce, WorkersOk, ScheduledAfterDeps, Reversed;
    assert s'.status.Keys == s.status.Keys;
    SetRunningWorkers(c, s, w);
    SameGraphs(s, s');
    SetRunningAfterDeps(s, w);
    SameWaits(s, s');
  }

  lemma SetRunningAfterDeps(s: State, w: nat)
    requires ScheduledAfterDeps(s) && w < |s.hands| && s.hands[w].Some? && HasStatus(s, s.hands[w].value, Ready)
    ensures ScheduledAfterDeps(SetRunning(s, w))
  {
    AfterDepsStays(s, SetRunning(s, w));
  }

  /** Scheduling a task whose dependencies completed keeps the order. */
  lemma AfterDepsStays(s: State, s': State)
    requires ScheduledAfterDeps(s) && s'.deps == s.deps
    requires forall x | x in s'.status && !s'.status[x].Pending? ::
               (x in s.status && !s.status[x].Pending?) || DepsCompleted(s, x)
    requires forall x :: IsCompleted(s, x) ==> IsCompleted(s', x)
    ensures ScheduledAfterDeps(s')
  {
    forall y, d | y in s'.status && !s'.status[y].Pending? && Edge(s'.deps, y, d) ensures IsCompleted(s', d) {
      assert IsCompleted(s, d);
    }
  }

  lemma RunnersStay(s: State, s': State)
    requires |s.current| == |s.hands| && WorkersOk(s)
    requires s'.current == s.current && s'.hands == s.hands
    requires forall x :: HasStatus(s', x, Running) <==> HasStatus(s, x, Running)
    ensures WorkersOk(s')
  {
    forall y | HasStatus(s', y, Running) ensures exists v :: RunsOn(s', v, y) {
      assert HasStatus(s, y, Running);
      var v :| RunsOn(s, v, y);
      assert RunsOn(s', v, y);
    }
  }

  // ---------------------------------------------------------------- scheduling woken tasks

  function MarkReady(status: map<Id, Status>, xs: seq<Id>): map<Id, Status> {
    map y | y in status.Keys + (set x | x in xs) :: if y in xs then Ready else status[y]
  }

  /** Every task of `xs` is marked Ready and put in one queue, and nothing else changes. */
  ghost predicate Scheduled(s: State, s': State, xs: seq<Id>) {
    && s' == s.(queues := s'.queues, ready := s'.ready, status := MarkReady(s.status, xs))
    && |s'.queues| == |s.queues|
    && |s'.ready| <= |s.ready| + |xs|
    && forall y :: Placed(s')[y] == Placed(s)[y] + multiset(xs)[y]
  }

  lemma OneMore(c: Config, s: State, s1: State, s': State, xs: seq<Id>, x: Id)
    requires Scheduled(s, s1, xs)
    requires s' == s1.(queues := s'.queues, ready := s'.ready, status := s1.status[x := Ready])
    requires |s'.queues| == |s1.queues| && |s'.ready| <= |s1.ready| + 1
    requires forall y :: Placed(s')[y] == Placed(s1)[y] + multiset{x}[y]
    ensures Scheduled(s, s', xs + [x])
  {
    assert s'.status == MarkReady(s.status, xs + [x]);
  }

  lemma PushReadyAdds(c: Config, s: State, x: Id)
    requires |s.ready| < c.readySize
    ensures forall y :: Placed(PushReady(c, s, x))[y] == Placed(s)[y] + multiset{x}[y]
  {}

  lemma PushToWorkerAdds(c: Config, s: State, x: Id, w: nat)
    requires |s.ready| < c.readySize || (w < |s.queues| && |s.queues[w]| < c.dequeSize)
    ensures forall y :: Placed(PushToWorker(c, s, x, w))[y] == Placed(s)[y] + multiset{x}[y]
  {
    if w < |s.queues| && |s.queues[w]| < c.dequeSize {
      QueueUpdate(s.queues, w, s.queues[w] + [x]);
    } else {
      PushReadyAdds(c, s, x);
    }
  }

  lemma NothingScheduled(s: State)
    ensures Scheduled(s, s, [])
  {
    assert MarkReady(s.status, []) == s.status;
  }

  lemma {:induction false} EnqueueSchedules(c: Config, s: State, xs: seq<Id>)
    requires |s.ready| + |xs| <= c.readySize
    ensures Scheduled(s, Enqueue(c, s, xs), xs)
  {
    hide Placed, MarkReady;
    if xs == [] {
      NothingScheduled(s);
    } else {
      var front, x := xs[..|xs| - 1], xs[|xs| - 1];
      EnqueueSchedules(c, s, front);
      PushReadyAdds(c, Enqueue(c, s, front), x);
      OneMore(c, s, Enqueue(c, s, front), Enqueue(c, s, xs), front, x);
      assert front + [x] == xs;
    }
  }

  lemma {:induction false} DistributeSchedules(c: Config, s: State, xs: seq<Id>, order: seq<nat>)
    requires |s.ready| + |xs| <= c.readySize && order != []
    ensures Scheduled(s, Distribute(c, s, xs, order), xs)
  {
    hide Placed, MarkReady;
    if xs == [] {
      NothingScheduled(s);
    } else {
      var i := |xs| - 1;
      var front, x, w := xs[..i], xs[i], order[i % |order|];
      DistributeSchedules(c, s, front, order);
      var s1 := Distribute(c, s, front, order);
      var s' := Distribute(c, s, xs, order);
      PushToWorkerAdds(c, s1, x, w);
      OneMore(c, s, s1, s', front, x);
      assert front + [x] == xs;
    }
  }

  lemma ScheduleSchedules(c: Config, s: State, xs: seq<Id>, order: seq<nat>)
    requires |s.ready| + |xs| <= c.readySize && order != []
    ensures Scheduled(s, Schedule(c, s, xs, order), xs)
  {
    if c.loadBalancing { DistributeSchedules(c, s, xs, order); } else { EnqueueSchedules(c, s, xs); }
  }

  /** Tasks still to be scheduled fit into the ready queue next to those already there. */
  lemma ReadyHasRoom(c: Config, s: State, xs: seq<Id>)
    requires Core(c, s)
    requires forall x :: multiset(xs)[x] <= if HasStatus(s, x, Pending) then 1 else 0
    ensures |s.ready| + |xs| <= c.readySize
  {
    var both := s.ready + xs;
    forall x ensures multiset(both)[x] <= if x in s.status.Keys then 1 else 0 {
      assert multiset(both)[x] == multiset(s.ready)[x] + multiset(xs)[x];
      assert multiset(s.ready)[x] <= Placed(s)[x];
    }
    DistinctFits(both, s.status.Keys);
    assert |s.status.Keys| == |s.status|;
  }

  lemma ScheduledKeeps(c: Config, s: State, s': State, xs: seq<Id>)
    requires Core(c, s) && Scheduled(s, s', xs)
    requires forall x :: multiset(xs)[x] <= 1
    requires forall x | x in xs :: HasStatus(s, x, Pending) && DepsCompleted(s, x)
    ensures Core(c, s')
    ensures (forall x | HasStatus(s, x, Pending) && DepsCompleted(s, x) :: x in xs) ==> PendingWaits(s')
  {
    hide Reversed, PlacedOnce, WorkersOk, ScheduledAfterDeps, Placed;
    ScheduledPlaced(s, s', xs);
    ScheduledStatus(s, s', xs);
    SameGraphs(s, s');
    RunnersStay(s, s');
    AfterDepsStays(s, s');
    SameWaits(s, s');
  }

  lemma SameGraphs(s: State, s': State)
    requires Reversed(s) && s'.deps == s.deps && s'.dependents == s.dependents
    ensures Reversed(s')
  {}

  lemma ScheduledStatus(s: State, s': State, xs: seq<Id>)
    requires s'.status == MarkReady(s.status, xs)
    requires forall x | x in xs :: HasStatus(s, x, Pending)
    ensures s'.status.Keys == s.status.Keys
    ensures forall x | x in s.status :: s'.status[x] == if x in xs then Ready else s.status[x]
    ensures forall x :: HasStatus(s', x, Running) <==> HasStatus(s, x, Running)
    ensures forall x :: IsCompleted(s', x) <==> IsCompleted(s, x)
  {
    forall x | x in xs ensures x in s.status { assert HasStatus(s, x, Pending); }
  }

  lemma ScheduledPlaced(s: State, s': State, xs: seq<Id>)
    requires PlacedOnce(s) && Scheduled(s, s', xs)
    requires forall x :: multiset(xs)[x] <= 1
    requires forall x | x in xs :: HasStatus(s, x, Pending)
    ensures PlacedOnce(s')
  {
    hide Placed;
    forall x ensures Placed(s')[x] == if HasStatus(s', x, Ready) then 1 else 0 {
      assert x in xs <==> multiset(xs)[x] > 0;
    }
  }

  // ---------------------------------------------------------------- AddTasks

  lemma {:induction false} AddReverseLists(rev: Graph, ds: seq<Id>, x: Id)
    ensures forall d, y :: Listed(AddReverse(rev, ds, x), d, y)
                        == Listed(rev, d, y) + if y == x then multiset(ds)[d] else 0
  {
    if ds != [] {
      var front, last := ds[..|ds| - 1], ds[|ds| - 1];
      AddReverseLists(rev, front, x);
      assert ds == front + [last];
    }
  }

  lemma {:induction false} DistinctListedOnce(ds: seq<Id>)
    requires Distinct(ds)
    ensures forall d :: multiset(ds)[d] <= 1
  {
    if ds != [] {
      DistinctListedOnce(ds[1..]);
      assert ds == [ds[0]] + ds[1..];
    }
  }

  lemma RegisterReversed(c: Config, s: State, t: Task)
    requires Shape(c, s) && Reversed(s) && t.id !in s.tasks && Distinct(t.deps)
    ensures Reversed(Register(s, t))
  {
    AddReverseLists(s.dependents, t.deps, t.id);
    DistinctListedOnce(t.deps);
    var s' := Register(s, t);
    forall x, d ensures Listed(s'.dependents, d, x) == Listed(s'.deps, x, d) && Listed(s'.deps, x, d) <= 1 {
      assert Listed(s.dependents, d, x) == Listed(s.deps, x, d) <= 1;
    }
  }

  /** Registering adds Pending tasks and leaves everything about the others as it was. */
  ghost predicate Registers(s: State, s': State, xs: set<Id>) {
    && s' == s.(tasks := s'.tasks, status := s'.status, deps := s'.deps, dependents := s'.dependents)
    && xs !! s.tasks.Keys
    && s'.tasks.Keys == s.tasks.Keys + xs
    && s'.status == s.status + (map x | x in xs :: Pending)
    && (forall x | x !in xs :: DepsOf(s'.deps, x) == DepsOf(s.deps, x))
  }

  lemma RegisterAfterDeps(c: Config, s: State, t: Task)
    requires Shape(c, s) && ScheduledAfterDeps(s) && t.id !in s.tasks
    ensures ScheduledAfterDeps(Register(s, t))
  {
    var s' := Register(s, t);
    forall y, d | y in s'.status && !s'.status[y].Pending? && Edge(s'.deps, y, d) ensures IsCompleted(s', d) {
      assert Edge(s.deps, y, d) && IsCompleted(s, d);
    }
  }

  lemma RegisterWorkers(c: Config, s: State, t: Task)
    requires Shape(c, s) && WorkersOk(s) && t.id !in s.tasks
    ensures WorkersOk(Register(s, t))
  {
    RunnersStay(s, Register(s, t));
  }

  lemma RegisterPlaced(c: Config, s: State, t: Task)
    requires Shape(c, s) && PlacedOnce(s) && t.id !in s.tasks
    ensures PlacedOnce(Register(s, t))
  {
    var s' := Register(s, t);
    forall x ensures Placed(s')[x] == if HasStatus(s', x, Ready) then 1 else 0 {
      assert Placed(s)[x] == if HasStatus(s, x, Ready) then 1 else 0;
    }
  }

  lemma RegistersOne(c: Config, s: State, t: Task)
    requires Shape(c, s) && t.id != IDLE && t.id !in s.tasks && |s.tasks| < c.readySize
    ensures Shape(c, Register(s, t)) && Registers(s, Register(s, t), {t.id})
  {
    hide AddReverse;
    var s' := Register(s, t);
    assert s'.status.Keys == s.status.Keys + {t.id};
    assert |s'.status| == |s'.status.Keys| && |s.status| == |s.status.Keys|;
    assert |s.tasks| == |s.tasks.Keys|;
  }

  lemma RegisterKeeps(c: Config, s: State, t: Task)
    requires Core(c, s) && t.id != IDLE && t.id !in s.tasks && Distinct(t.deps) && |s.tasks| < c.readySize
    ensures Core(c, Register(s, t)) && Registers(s, Register(s, t), {t.id})
  {
    hide Reversed, PlacedOnce, WorkersOk, ScheduledAfterDeps, AddReverse;
    RegistersOne(c, s, t);
    RegisterReversed(c, s, t);
    RegisterPlaced(c, s, t);
    RegisterWorkers(c, s, t);
    RegisterAfterDeps(c, s, t);
  }

  lemma RegistersMore(s: State, s1: State, s2: State, xs: set<Id>, ys: set<Id>)
    requires Registers(s, s1, xs) && Registers(s1, s2, ys)
    ensures Registers(s, s2, xs + ys)
  {}

  lemma FrontIds(ts: seq<Task>)
    requires Distinct(Ids(ts)) && ts != []
    ensures var front, t := ts[..|ts| - 1], ts[|ts| - 1];
      Distinct(Ids(front)) && t.id !in IdsOf(front) && IdsOf(ts) == IdsOf(front) + {t.id}
  {
    var front := ts[..|ts| - 1];
    assert forall i | 0 <= i < |front| :: Ids(front)[i] == Ids(ts)[i];
    assert forall i | 0 <= i < |front| :: Ids(ts)[i] != Ids(ts)[|front|];
  }

  lemma NothingRegistered(s: State)
    ensures Registers(s, s, IdsOf([])) && IdsOf([]) == {}
  {
    assert s.status + (map x | x in IdsOf([]) :: Pending) == s.status;
  }

  lemma {:induction false} RegisterAllKeeps(c: Config, s: State, ts: seq<Task>)
    requires Core(c, s) && Distinct(Ids(ts)) && |s.tasks| + |ts| <= c.readySize
    requires forall i | 0 <= i < |ts| :: ts[i].id != IDLE && ts[i].id !in s.tasks && Distinct(ts[i].deps)
    ensures Core(c, RegisterAll(s, ts)) && Registers(s, RegisterAll(s, ts), IdsOf(ts)) && |IdsOf(ts)| == |ts|
  {
    hide Core, Register;
    if ts == [] {
      NothingRegistered(s);
    } else {
      var front, t := ts[..|ts| - 1], ts[|ts| - 1];
      var s1 := RegisterAll(s, front);
      FrontIds(ts);
      hide IdsOf, Distinct;
      RegisterAllKeeps(c, s, front);
      RegisterAllSize(s, s1, IdsOf(front));
      RegisterKeeps(c, s1, t);
      RegistersMore(s, s1, RegisterAll(s, ts), IdsOf(front), {t.id});
    }
  }

  lemma RegisterAllSize(s: State, s': State, xs: set<Id>)
    requires Registers(s, s', xs)
    ensures |s'.tasks| == |s.tasks| + |xs|
  {
    assert |s'.tasks| == |s'.tasks.Keys| && |s.tasks| == |s.tasks.Keys|;
  }

  lemma {:induction false} FindReadyFinds(s: State, ts: seq<Task>)
    requires Distinct(Ids(ts))
    ensures forall x :: multiset(FindReady(s, ts))[x] == if x in IdsOf(ts) && DepsCompleted(s, x) then 1 else 0
  {
    if ts != [] {
      FrontIds(ts);
      FindReadyFinds(s, ts[..|ts| - 1]);
    }
  }

  lemma OldOnesStillWait(s: State, s': State, xs: set<Id>)
    requires PendingWaits(s) && Registers(s, s', xs)
    ensures forall x | HasStatus(s', x, Pending) && DepsCompleted(s', x) :: x in xs
  {
    forall x | HasStatus(s', x, Pending) && x !in xs ensures !DepsCompleted(s', x) {
      assert HasStatus(s, x, Pending);
      var d :| d in DepsOf(s.deps, x) && !IsCompleted(s, d);
      assert !IsCompleted(s', d);
    }
  }

  /** AddTasks registers the new tasks and, unless it rejects them, schedules those that are ready. */
  lemma AddKeeps(c: Config, s: State, ts: seq<Task>)
    requires Core(c, s) && Submittable(c, s, ts)
    ensures Core(c, AddTasks(c, s, ts)) && Registers(s, RegisterAll(s, ts), IdsOf(ts))
    ensures Rejects(c, s, ts) ==> AddTasks(c, s, ts) == RegisterAll(s, ts)
    ensures !Rejects(c, s, ts) ==> Scheduled(RegisterAll(s, ts), AddTasks(c, s, ts), FindReady(RegisterAll(s, ts), ts))
    ensures PendingWaits(s) && !Rejects(c, s, ts) ==> PendingWaits(AddTasks(c, s, ts))
  {
    hide Reversed, PlacedOnce, WorkersOk, ScheduledAfterDeps, Register, Enqueue, FindReady, Scheduled, Rejects;
    RegisterAllKeeps(c, s, ts);
    if !Rejects(c, s, ts) { AcceptedKeeps(c, s, ts); }
  }

  lemma AcceptedKeeps(c: Config, s: State, ts: seq<Task>)
    requires Core(c, s) && Addable(c, s, ts)
    ensures Core(c, AddTasks(c, s, ts)) && (PendingWaits(s) ==> PendingWaits(AddTasks(c, s, ts)))
    ensures Scheduled(RegisterAll(s, ts), AddTasks(c, s, ts), FindReady(RegisterAll(s, ts), ts))
  {
    hide Reversed, PlacedOnce, WorkersOk, ScheduledAfterDeps, Register, Enqueue, FindReady, Scheduled;
    var s1 := RegisterAll(s, ts);
    var xs := FindReady(s1, ts);
    RegisterAllKeeps(c, s, ts);
    FindReadyFinds(s1, ts);
    forall x | x in xs ensures HasStatus(s1, x, Pending) && DepsCompleted(s1, x) {
      assert multiset(xs)[x] > 0;
    }
    ReadyHasRoom(c, s1, xs);
    EnqueueSchedules(c, s1, xs);
    if PendingWaits(s) {
      OldOnesStillWait(s, s1, IdsOf(ts));
      forall x | HasStatus(s1, x, Pending) && DepsCompleted(s1, x) ensures x in xs {
        assert multiset(xs)[x] > 0;
      }
    }
    ScheduledKeeps(c, s1, AddTasks(c, s, ts), xs);
  }

  // ---------------------------------------------------------------- CompleteTask and AbortTask

  lemma {:induction false} ReleaseAt(current: seq<int>, w: nat, x: Id)
    requires w < |current| && current[w] == x
    requires forall v | 0 <= v < |current| && v != w :: current[v] != x
    ensures Release(current, x) == current[w := IDLE]
  {
    if w > 0 {
      ReleaseAt(current[1..], w - 1, x);
      assert current[w := IDLE] == [current[0]] + current[1..][w - 1 := IDLE];
    }
  }

  /** The worker of a Running task becomes idle when the task stops running. */
  lemma ReleaseWorkers(c: Config, s: State, s': State, x: Id)
    requires Shape(c, s) && WorkersOk(s) && HasStatus(s, x, Running)
    requires s'.hands == s.hands && s'.current == Release(s.current, x)
    requires forall y :: HasStatus(s', y, Running) <==> y != x && HasStatus(s, y, Running)
    ensures |s'.current| == |s.current| && WorkersOk(s')
  {
    var w :| RunsOn(s, w, x);
    ReleaseAt(s.current, w, x);
    forall y | HasStatus(s', y, Running) ensures exists v :: RunsOn(s', v, y) {
      assert HasStatus(s, y, Running);
      var v :| RunsOn(s, v, y);
      assert RunsOn(s', v, y);
    }
  }

  lemma StopsRunningPlaced(s: State, s': State, x: Id)
    requires PlacedOnce(s) && HasStatus(s, x, Running)
    requires s'.ready == s.ready && s'.queues == s.queues && s'.hands == s.hands
    requires forall y :: HasStatus(s', y, Ready) <==> HasStatus(s, y, Ready)
    ensures PlacedOnce(s')
  {
    forall y ensures Placed(s')[y] == if HasStatus(s', y, Ready) then 1 else 0 {
      assert Placed(s)[y] == if HasStatus(s, y, Ready) then 1 else 0;
    }
  }

  lemma MarkCompletedKeeps(c: Config, s: State, x: Id)
    requires Core(c, s) && HasStatus(s, x, Running)
    ensures Core(c, MarkCompleted(s, x))
  {
    var s' := MarkCompleted(s, x);
    hide WorkersOk, PlacedOnce, Reversed, ScheduledAfterDeps, Release;
    assert s'.status.Keys == s.status.Keys;
    ReleaseWorkers(c, s, s', x);
    StopsRunningPlaced(s, s', x);
    SameGraphs(s, s');
    AfterDepsStays(s, s');
  }

  lemma {:induction false} WokenAmongCounts(s: State, ys: seq<Id>)
    ensures forall y :: multiset(WokenAmong(s, ys))[y] == if Wakes(s, y) then multiset(ys)[y] else 0
  {
    if ys != [] {
      var front, last := ys[..|ys| - 1], ys[|ys| - 1];
      WokenAmongCounts(s, front);
      assert ys == front + [last];
    }
  }

  /** CompleteTask wakes exactly the Pending tasks whose last dependency this was. */
  lemma WokenExactly(c: Config, s: State, x: Id)
    requires Core(c, s) && HasStatus(s, x, Running)
    ensures var s1 := MarkCompleted(s, x);
      && (forall y :: multiset(Woken(s1, x))[y] <= if HasStatus(s1, y, Pending) && DepsCompleted(s1, y) then 1 else 0)
      && (PendingWaits(s) ==> forall y :: HasStatus(s1, y, Pending) && DepsCompleted(s1, y) ==> y in Woken(s1, x))
  {
    var s1 := MarkCompleted(s, x);
    var ys := DepsOf(s.dependents, x);
    WokenAmongCounts(s1, ys);
    forall y ensures multiset(Woken(s1, x))[y] <= if HasStatus(s1, y, Pending) && DepsCompleted(s1, y) then 1 else 0 {
      assert Listed(s.dependents, x, y) == Listed(s.deps, y, x) <= 1;
    }
    if PendingWaits(s) {
      forall y | HasStatus(s1, y, Pending) && DepsCompleted(s1, y) ensures y in Woken(s1, x) {
        assert HasStatus(s, y, Pending);
        var d :| d in DepsOf(s.deps, y) && !IsCompleted(s, d);
        assert IsCompleted(s1, d);
        assert Listed(s.deps, y, x) >= 1;
        assert Listed(s.dependents, x, y) >= 1;
        assert multiset(Woken(s1, x))[y] > 0;
      }
    }
  }

  lemma CompleteKeeps(c: Config, s: State, x: Id, order: seq<nat>)
    requires Core(c, s) && HasStatus(s, x, Running) && order != []
    ensures Core(c, Complete(c, s, x, order)) && (PendingWaits(s) ==> PendingWaits(Complete(c, s, x, order)))
    ensures Scheduled(MarkCompleted(s, x), Complete(c, s, x, order), Woken(MarkCompleted(s, x), x))
  {
    var s1 := MarkCompleted(s, x);
    MarkCompletedKeeps(c, s, x);
    WokenExactly(c, s, x);
    hide Core, Woken, Schedule, PendingWaits, Scheduled;
    forall y | y in Woken(s1, x) ensures HasStatus(s1, y, Pending) && DepsCompleted(s1, y) {
      assert multiset(Woken(s1, x))[y] > 0;
    }
    ReadyHasRoom(c, s1, Woken(s1, x));
    ScheduleSchedules(c, s1, Woken(s1, x), order);
    ScheduledKeeps(c, s1, Complete(c, s, x, order), Woken(s1, x));
  }

  lemma ListedAfterAdding(g: Graph, x: Id, d: Id, a: Id, b: Id)
    ensures Listed(AddEdge(g, x, d), a, b) == Listed(g, a, b) + if a == x && b == d then 1 else 0
  {}

  lemma AddDependencyReversed(s: State, x: Id, d: Id)
    requires Reversed(s)
    ensures Reversed(AddDependency(s, x, d))
  {
    if d !in DepsOf(s.deps, x) {
      var s' := AddDependency(s, x, d);
      assert s'.deps == AddEdge(s.deps, x, d) && s'.dependents == AddEdge(s.dependents, d, x);
      assert Listed(s.deps, x, d) == 0;
      hide Listed, AddEdge, AddDependency;
      forall y, e ensures Listed(s'.dependents, e, y) == Listed(s'.deps, y, e) && Listed(s'.deps, y, e) <= 1 {
        assert Listed(s.dependents, e, y) == Listed(s.deps, y, e) <= 1;
        ListedAfterAdding(s.deps, x, d, y, e);
        ListedAfterAdding(s.dependents, d, x, e, y);
      }
    }
  }

  lemma AbortAfterDeps(s: State, x: Id, d: Id)
    requires ScheduledAfterDeps(s) && HasStatus(s, x, Running)
    ensures ScheduledAfterDeps(Abort(s, x, d))
  {
    var s' := Abort(s, x, d);
    forall y, e | y in s'.status && !s'.status[y].Pending? && Edge(s'.deps, y, e) ensures IsCompleted(s', e) {
      assert Edge(s.deps, y, e) && IsCompleted(s, e);
    }
  }

  lemma AbortKeepsCore(c: Config, s: State, x: Id, d: Id)
    requires Core(c, s) && HasStatus(s, x, Running)
    ensures Core(c, Abort(s, x, d))
  {
    var s' := Abort(s, x, d);
    AddDependencyReversed(s, x, d);
    AbortAfterDeps(s, x, d);
    hide WorkersOk, PlacedOnce, ScheduledAfterDeps, Release, Reversed, AddDependency;
    ReleaseWorkers(c, s, s', x);
    AbortShape(c, s, x, d);
    StopsRunningPlaced(s, s', x);
    SameGraphs(AddDependency(s, x, d), s');
  }

  lemma AbortShape(c: Config, s: State, x: Id, d: Id)
    requires Shape(c, s) && HasStatus(s, x, Running) && |Release(s.current, x)| == |s.current|
    ensures Shape(c, Abort(s, x, d))
  {
    var s' := Abort(s, x, d);
    assert s'.status.Keys == s.status.Keys && s'.deps.Keys == s.deps.Keys;
    assert |s'.status| == |s'.status.Keys| && |s.status| == |s.status.Keys|;
  }

  /** The aborted task waits for something exactly when the named dependency has not completed. */
  lemma AbortWaits(c: Config, s: State, x: Id, d: Id)
    requires Inv(c, s) && HasStatus(s, x, Running)
    ensures HasStatus(Abort(s, x, d), x, Pending)
    ensures PendingWaits(Abort(s, x, d)) <==> !IsCompleted(s, d)
  {
    var s' := Abort(s, x, d);
    forall y | IsCompleted(s', y) ensures IsCompleted(s, y) {}
    if !IsCompleted(s, d) {
      forall y | HasStatus(s', y, Pending) ensures !DepsCompleted(s', y) {
        if y == x {
          assert d in DepsOf(s'.deps, x);
        } else {
          assert HasStatus(s, y, Pending);
          var e :| e in DepsOf(s.deps, y) && !IsCompleted(s, e);
          assert e in DepsOf(s'.deps, y);
        }
      }
    } else {
      forall e | e in DepsOf(s'.deps, x) ensures IsCompleted(s', e) {
        if e != d { assert Edge(s.deps, x, e); }
      }
      assert HasStatus(s', x, Pending) && DepsCompleted(s', x);
    }
  }

  // ---------------------------------------------------------------- every step

  lemma EmptyKeeps(c: Config)
    ensures Inv(c, Empty(c))
  {
    var s := Empty(c);
    SumOfEmpty(Queued(s.queues));
    SumOfEmpty(Carried(s.hands));
  }

  /** An abort on a completed dependency and a rejected AddTasks leave tasks nobody will schedule. */
  ghost predicate Strands(c: Config, s: State, step: Step) {
    match step
    case Add(ts) => Rejects(c, s, ts)
    case AbortStep(x, d) => IsCompleted(s, d)
    case _ => false
  }

  /** Each task is in exactly one place after every step; a Pending task keeps waiting for
      something unless the step strands it. */
  lemma StepKeeps(c: Config, s: State, step: Step)
    requires Core(c, s) && Enabled(c, s, step)
    ensures Core(c, Do(c, s, step))
    ensures PendingWaits(s) && !Strands(c, s, step) ==> PendingWaits(Do(c, s, step))
  {
    hide Core, PendingWaits, AddTasks, TakeOwn, Steal, TakeReady, SetCurrent, SetRunning, Complete, Abort,
      Submittable, Rejects;
    match step
    case Add(ts) => AddKeeps(c, s, ts);
    case TakeOwnStep(w) => TakeOwnMoves(s, w); MovesKeeps(c, s, TakeOwn(s, w), w);
    case StealStep(w, v) => StealMoves(s, w, v); MovesKeeps(c, s, Steal(s, w, v), w);
    case TakeReadyStep(w, k) => TakeReadyMoves(s, w, k); MovesKeeps(c, s, TakeReady(s, w, k), w);
    case SetCurrentStep(w) => SetCurrentKeeps(c, s, w);
    case SetRunningStep(w) => SetRunningKeeps(c, s, w);
    case CompleteStep(x, order) => CompleteKeeps(c, s, x, order);
    case AbortStep(x, d) =>
      AbortKeepsCore(c, s, x, d);
      if PendingWaits(s) && !IsCompleted(s, d) { AbortWaits(c, s, x, d); }
  }
}
