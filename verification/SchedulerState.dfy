/** The scheduler's state and, as functions on it, what each of its critical sections does. */
module SchedulerState {
  import opened Collections
  import opened Deque
  import opened DependencyGraph
  import opened CycleDetection

  /** A task as the scheduler sees it. Gas and priorities only order the ready queue; any order is
      allowed here. */
  datatype Task = Task(id: Id, deps: seq<Id>)

  datatype Status = Pending | Ready | Running | Completed | Aborted | Failed

  /** `dequeSize` is QueueSize rounded up to a power of two, `readySize` QueueSize * NumWorkers. */
  datatype Config = Config(
    numWorkers: nat, dequeSize: nat, readySize: nat,
    stealing: bool, loadBalancing: bool, dependencyAnalysis: bool)

  const IDLE: int := -1

  /** `current` is each worker's CurrentTask; `hands` the task a worker's NextTask call has popped
      but not yet marked Running. */
  datatype State = State(
    tasks: map<Id, Task>,
    status: map<Id, Status>,
    deps: Graph,
    dependents: Graph,
    queues: seq<seq<Id>>,
    ready: seq<Id>,
    current: seq<int>,
    hands: seq<Option<Id>>)

  function Empty(c: Config): State {
    State(map[], map[], map[], map[], seq(c.numWorkers, _ => []), [],
          seq(c.numWorkers, _ => IDLE), seq(c.numWorkers, _ => None))
  }

  predicate IsCompleted(s: State, x: Id) {
    x in s.status && s.status[x] == Completed
  }

  predicate HasStatus(s: State, x: Id, st: Status) {
    x in s.status && s.status[x] == st
  }

  /** isTaskReady */
  predicate DepsCompleted(s: State, x: Id) {
    forall d | d in DepsOf(s.deps, x) :: IsCompleted(s, d)
  }

  function Ids(ts: seq<Task>): (r: seq<Id>)
    ensures |r| == |ts| && forall i | 0 <= i < |ts| :: r[i] == ts[i].id
  {
    seq(|ts|, i requires 0 <= i < |ts| => ts[i].id)
  }

  ghost function IdsOf(ts: seq<Task>): set<Id> {
    set i | 0 <= i < |ts| :: ts[i].id
  }

  // ---------------------------------------------------------------- queues

  /** The result of the ready queue's Push is ignored: a full queue drops the task, which is
      marked Ready all the same. */
  function PushReady(c: Config, s: State, x: Id): State {
    s.(ready := if |s.ready| < c.readySize then s.ready + [x] else s.ready,
       status := s.status[x := Ready])
  }

  /** addTasksToGlobalQueue, and the third pass of AddTasks */
  function Enqueue(c: Config, s: State, xs: seq<Id>): State {
    if xs == [] then s else PushReady(c, Enqueue(c, s, xs[..|xs| - 1]), xs[|xs| - 1])
  }

  predicate Distinct<T(==)>(q: seq<T>) {
    forall i, j | 0 <= i < j < |q| :: q[i] != q[j]
  }

  predicate SortedByLoad(queues: seq<seq<Id>>, order: seq<nat>) {
    && (forall i | 0 <= i < |order| :: order[i] < |queues|)
    && (forall i, j | 0 <= i < j < |order| :: |queues[order[i]]| <= |queues[order[j]]|)
  }

  /** Workers sorted by the size of their queues, ties in any order. */
  predicate IsLoadOrder(queues: seq<seq<Id>>, order: seq<nat>) {
    |order| == |queues| && Distinct(order) && SortedByLoad(queues, order)
  }

  lemma HeadShortest(queues: seq<seq<Id>>, order: seq<nat>, rest: seq<nat>, w: nat)
    requires order != [] && SortedByLoad(queues, order) && Distinct(order) && w !in order
    requires w < |queues| && |queues[order[0]]| <= |queues[w]|
    requires forall x :: x in rest ==> x == w || x in order[1..]
    requires Distinct(rest) && SortedByLoad(queues, rest)
    ensures Distinct([order[0]] + rest) && SortedByLoad(queues, [order[0]] + rest)
  {
    forall j | 0 <= j < |rest| ensures rest[j] != order[0] && |queues[order[0]]| <= |queues[rest[j]]| {
      assert rest[j] in rest;
    }
  }

  function InsertByLoad(queues: seq<seq<Id>>, order: seq<nat>, w: nat): (r: seq<nat>)
    requires w < |queues| && w !in order && Distinct(order) && SortedByLoad(queues, order)
    ensures Distinct(r) && SortedByLoad(queues, r) && |r| == |order| + 1
    ensures forall x :: x in r <==> x == w || x in order
  {
    if order == [] then [w]
    else if |queues[w]| < |queues[order[0]]| then [w] + order
    else
      var rest := InsertByLoad(queues, order[1..], w);
      assert order == [order[0]] + order[1..];
      HeadShortest(queues, order, rest, w);
      [order[0]] + rest
  }

  /** One way of sorting the first `k` workers; sort.Slice may pick another among ties. */
  function SortByLoad(queues: seq<seq<Id>>, k: nat): (r: seq<nat>)
    requires k <= |queues|
    ensures Distinct(r) && SortedByLoad(queues, r) && |r| == k
    ensures forall x :: x in r ==> x < k
  {
    if k == 0 then [] else InsertByLoad(queues, SortByLoad(queues, k - 1), k - 1)
  }

  function LoadOrder(queues: seq<seq<Id>>): (r: seq<nat>)
    ensures IsLoadOrder(queues, r)
  {
    SortByLoad(queues, |queues|)
  }

  /** One round of distributeTasksEvenly: the worker's deque, or the ready queue when it is full. */
  function PushToWorker(c: Config, s: State, x: Id, w: nat): State {
    if w < |s.queues| && |s.queues[w]| < c.dequeSize then
      s.(queues := s.queues[w := s.queues[w] + [x]], status := s.status[x := Ready])
    else
      PushReady(c, s, x)
  }

  function Distribute(c: Config, s: State, xs: seq<Id>, order: seq<nat>): State
    requires order != []
  {
    if xs == [] then s
    else
      var i := |xs| - 1;
      PushToWorker(c, Distribute(c, s, xs[..i], order), xs[i], order[i % |order|])
  }

  /** scheduleReadyTasks */
  function Schedule(c: Config, s: State, xs: seq<Id>, order: seq<nat>): State
    requires order != []
  {
    if c.loadBalancing then Distribute(c, s, xs, order) else Enqueue(c, s, xs)
  }

  // ---------------------------------------------------------------- AddTasks

  function AddReverse(rev: Graph, ds: seq<Id>, x: Id): Graph {
    if ds == [] then rev
    else
      var r := AddReverse(rev, ds[..|ds| - 1], x);
      var d := ds[|ds| - 1];
      r[d := DepsOf(r, d) + [x]]
  }

  function Register(s: State, t: Task): State {
    s.(tasks := s.tasks[t.id := t], status := s.status[t.id := Pending],
       deps := s.deps[t.id := t.deps], dependents := AddReverse(s.dependents, t.deps, t.id))
  }

  /** First pass of AddTasks. */
  function RegisterAll(s: State, ts: seq<Task>): State {
    if ts == [] then s else Register(RegisterAll(s, ts[..|ts| - 1]), ts[|ts| - 1])
  }

  /** findReadyTasks */
  function FindReady(s: State, ts: seq<Task>): seq<Id> {
    if ts == [] then []
    else
      var rest, x := FindReady(s, ts[..|ts| - 1]), ts[|ts| - 1].id;
      if DepsCompleted(s, x) then rest + [x] else rest
  }

  ghost predicate Rejects(c: Config, s: State, ts: seq<Task>) {
    c.dependencyAnalysis && CycleReachable(RegisterAll(s, ts).deps, Ids(ts))
  }

  /** A rejected call leaves the registrations of its first pass behind. */
  ghost function AddTasks(c: Config, s: State, ts: seq<Task>): State {
    var s1 := RegisterAll(s, ts);
    if Rejects(c, s, ts) then s1 else Enqueue(c, s1, FindReady(s1, ts))
  }

  // ---------------------------------------------------------------- NextTask

  function TakeOwn(s: State, w: nat): State
    requires w < |s.queues| == |s.hands| && s.queues[w] != []
  {
    var q := s.queues[w];
    s.(queues := s.queues[w := q[..|q| - 1]], hands := s.hands[w := Some(q[|q| - 1])])
  }

  function Steal(s: State, w: nat, victim: nat): State
    requires w < |s.hands| && victim < |s.queues| && s.queues[victim] != []
  {
    var q := s.queues[victim];
    s.(queues := s.queues[victim := q[1..]], hands := s.hands[w := Some(q[0])])
  }

  function TakeReady(s: State, w: nat, k: nat): State
    requires w < |s.hands| && k < |s.ready|
  {
    s.(ready := Without(s.ready, k), hands := s.hands[w := Some(s.ready[k])])
  }

  /** assignTaskToWorker, under workerMutex and then under taskMutex */
  function SetCurrent(s: State, w: nat): State
    requires w < |s.hands| == |s.current| && s.hands[w].Some?
  {
    s.(current := s.current[w := s.hands[w].value])
  }

  function SetRunning(s: State, w: nat): State
    requires w < |s.hands| && s.hands[w].Some?
  {
    s.(status := s.status[s.hands[w].value := Running], hands := s.hands[w := None])
  }

  // ---------------------------------------------------------------- CompleteTask and AbortTask

  /** The first worker holding `x` becomes idle. */
  function Release(current: seq<int>, x: Id): seq<int> {
    if current == [] then []
    else if current[0] == x then [IDLE] + current[1..]
    else [current[0]] + Release(current[1..], x)
  }

  function MarkCompleted(s: State, x: Id): State {
    s.(status := s.status[x := Completed], current := Release(s.current, x))
  }

  predicate Wakes(s: State, y: Id) {
    DepsCompleted(s, y) && HasStatus(s, y, Pending) && y in s.tasks
  }

  function WokenAmong(s: State, ys: seq<Id>): seq<Id> {
    if ys == [] then []
    else
      var rest, y := WokenAmong(s, ys[..|ys| - 1]), ys[|ys| - 1];
      if Wakes(s, y) then rest + [y] else rest
  }

  /** checkDependentTasks */
  function Woken(s: State, x: Id): seq<Id> {
    WokenAmong(s, DepsOf(s.dependents, x))
  }

  function Complete(c: Config, s: State, x: Id, order: seq<nat>): State
    requires order != []
  {
    var s1 := MarkCompleted(s, x);
    Schedule(c, s1, Woken(s1, x), order)
  }

  function AddDependency(s: State, x: Id, d: Id): (r: State)
    ensures r == s.(deps := r.deps, dependents := r.dependents)
  {
    if d in DepsOf(s.deps, x) then s
    else s.(deps := AddEdge(s.deps, x, d), dependents := AddEdge(s.dependents, d, x))
  }

  function Abort(s: State, x: Id, d: Id): State {
    var s1 := AddDependency(s, x, d);
    s1.(status := s1.status[x := Pending], current := Release(s1.current, x))
  }

  // ---------------------------------------------------------------- steps

  datatype Step =
    | Add(ts: seq<Task>)
    | TakeOwnStep(w: nat)
    | StealStep(w: nat, victim: nat)
    | TakeReadyStep(w: nat, k: nat)
    | SetCurrentStep(w: nat)
    | SetRunningStep(w: nat)
    | CompleteStep(x: Id, order: seq<nat>)
    | AbortStep(x: Id, d: Id)

  /** A worker asks for work only between tasks. */
  predicate Free(s: State, w: nat) {
    w < |s.hands| == |s.current| == |s.queues| && s.hands[w] == None && s.current[w] == IDLE
  }

  /** AddTasks is given new ids and lists each dependency once, and the ready queue is big enough
      for every task. */
  ghost predicate Submittable(c: Config, s: State, ts: seq<Task>) {
    && Distinct(Ids(ts))
    && (forall i | 0 <= i < |ts| :: ts[i].id != IDLE && ts[i].id !in s.tasks && Distinct(ts[i].deps))
    && |s.tasks| + |ts| <= c.readySize
  }

  /** Such a call that AddTasks accepts. */
  ghost predicate Addable(c: Config, s: State, ts: seq<Task>) {
    Submittable(c, s, ts) && !Rejects(c, s, ts)
  }

  /** What callers may do: each dispatched task is reported once, by CompleteTask or AbortTask. */
  ghost predicate Enabled(c: Config, s: State, step: Step) {
    match step
    case Add(ts) => Submittable(c, s, ts)
    case TakeOwnStep(w) => Free(s, w) && s.queues[w] != []
    case StealStep(w, v) => c.stealing && Free(s, w) && v < |s.queues| && s.queues[v] != []
    case TakeReadyStep(w, k) => Free(s, w) && k < |s.ready|
    case SetCurrentStep(w) => w < |s.hands| == |s.current| && s.hands[w].Some? && s.current[w] == IDLE
    case SetRunningStep(w) =>
      w < |s.hands| == |s.current| && s.hands[w].Some? && s.current[w] == s.hands[w].value
    case CompleteStep(x, order) => HasStatus(s, x, Running) && IsLoadOrder(s.queues, order) && order != []
    case AbortStep(x, d) => HasStatus(s, x, Running)
  }

  ghost function Do(c: Config, s: State, step: Step): State
    requires Enabled(c, s, step)
  {
    match step
    case Add(ts) => AddTasks(c, s, ts)
    case TakeOwnStep(w) => TakeOwn(s, w)
    case StealStep(w, v) => Steal(s, w, v)
    case TakeReadyStep(w, k) => TakeReady(s, w, k)
    case SetCurrentStep(w) => SetCurrent(s, w)
    case SetRunningStep(w) => SetRunning(s, w)
    case CompleteStep(x, order) => Complete(c, s, x, order)
    case AbortStep(x, d) => Abort(s, x, d)
  }
}
