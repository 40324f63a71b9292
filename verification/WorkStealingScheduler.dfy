/** The scheduler object. Each method is one critical section (NextTask: its sections run without
    interruption) and is proved to do what SchedulerState says of it. */
module WorkStealingScheduler {
  import opened Collections
  import opened Deque
  import opened PowerOfTwo
  import opened DependencyGraph
  import opened CycleDetection
  import opened SchedulerState

  datatype Error = NoError | EngineShutdown | CircularDependency

  const DEFAULT_NUM_WORKERS := 8
  const DEFAULT_QUEUE_SIZE := 256

  /** The i-th victim a thief tries; the thief's own deque comes last. */
  function Victim(workerID: nat, i: nat, n: nat): (v: nat)
    requires n > 0
    ensures v < n
  {
    (workerID + i + 1) % n
  }

  lemma VictimAt(w: nat, i: nat, n: nat)
    requires w < n && i < n
    ensures Victim(w, i, n) == if w + i + 1 < n then w + i + 1 else w + i + 1 - n
  {
    var round := if w + i + 1 < n then 0 else 1;
    QuotientUnique(w + i + 1, n, round, w + i + 1 - n * round);
  }

  function Distance(w: nat, v: nat, n: nat): nat
    requires w < n && v < n
  {
    if v > w then v - w - 1 else v + n - w - 1
  }

  /** The modular victim order reaches every deque. */
  lemma VictimsCoverAll(w: nat, v: nat, n: nat) returns (i: nat)
    requires w < n && v < n
    ensures i == Distance(w, v, n) < n && Victim(w, i, n) == v
  {
    i := Distance(w, v, n);
    VictimAt(w, i, n);
  }

  /** The i-th victim is the first one with work. */
  ghost predicate FirstVictim(queues: seq<seq<Id>>, w: nat, i: nat) {
    && queues != []
    && queues[Victim(w, i, |queues|)] != []
    && forall j: nat | j < i :: queues[Victim(w, j, |queues|)] == []
  }

  /** Going round the workers from `w` on, `u` comes before `v`. */
  predicate ComesBefore(w: nat, u: nat, v: nat) {
    if w < v then w < u < v else u > w || u < v
  }

  /** The next worker after `w`, going round, that has work. */
  ghost predicate NextWithWork(queues: seq<seq<Id>>, w: nat, v: nat) {
    v < |queues| && queues[v] != [] && forall u | 0 <= u < |queues| && ComesBefore(w, u, v) :: queues[u] == []
  }

  /** The first victim with work is the next worker that has any. */
  lemma FirstIsNext(queues: seq<seq<Id>>, w: nat, i: nat)
    requires w < |queues| && FirstVictim(queues, w, i)
    ensures NextWithWork(queues, w, Victim(w, i, |queues|))
  {
    hide Victim;
    var n := |queues|;
    var v := Victim(w, i, n);
    var first := VictimsCoverAll(w, v, n);
    assert i <= first;
    VictimAt(w, i, n);
    forall u | 0 <= u < n && ComesBefore(w, u, v) ensures queues[u] == [] {
      var j := VictimsCoverAll(w, u, n);
      assert j < i;
    }
  }

  ghost predicate TakesReady(s: State, w: nat, k: nat, x: Id, s1: State) {
    w < |s.hands| && k < |s.ready| && x == s.ready[k] && s1 == TakeReady(s, w, k)
  }

  ghost predicate StealsFrom(s: State, w: nat, i: nat, x: Id, s1: State) {
    w < |s.hands| && FirstVictim(s.queues, w, i) &&
    var v := Victim(w, i, |s.queues|);
    x == s.queues[v][0] && s1 == Steal(s, w, v)
  }

  /** The step by which worker `w` gets task `x`. */
  ghost predicate Takes(c: Config, s: State, w: nat, x: Id, s1: State) {
    w < |s.queues| == |s.hands| == |s.current| &&
    if s.queues[w] != [] then
      x == s.queues[w][|s.queues[w]| - 1] && s1 == TakeOwn(s, w)
    else if s.ready != [] then
      exists k :: TakesReady(s, w, k, x, s1)
    else
      c.stealing && exists i :: StealsFrom(s, w, i, x, s1)
  }

  /** assignTaskToWorker, once the task is in the worker's hands */
  ghost function Started(s: State, w: nat): State {
    if w < |s.hands| == |s.current| && s.hands[w].Some? then SetRunning(SetCurrent(s, w), w) else s
  }

  class WorkStealingScheduler {
    const config: Config
    var shutdown: bool
    var allTasks: map<Id, Task>
    var taskStatus: map<Id, Status>
    var dependencies: Graph
    var dependents: Graph
    var workerQueues: seq<seq<Id>>
    var currentTask: seq<int>
    var readyQueue: seq<Id>

    ghost predicate Valid()
      reads this
    {
      |workerQueues| == |currentTask| == config.numWorkers > 0
    }

    /** The state between calls: no worker holds a popped task. */
    function Abs(): State
      reads this
    {
      State(allTasks, taskStatus, dependencies, dependents, workerQueues, readyQueue, currentTask,
            seq(config.numWorkers, _ => None))
    }

    constructor (numWorkers: int, queueSize: int, stealing: bool, loadBalancing: bool, dependencyAnalysis: bool)
      ensures Valid() && !shutdown && Abs() == Empty(config)
      ensures config.numWorkers == (if numWorkers <= 0 then DEFAULT_NUM_WORKERS else numWorkers)
      ensures var size := if queueSize <= 0 then DEFAULT_QUEUE_SIZE else queueSize;
        config.dequeSize == RoundUp(size) && config.readySize == size * config.numWorkers
      ensures config.stealing == stealing && config.loadBalancing == loadBalancing
      ensures config.dependencyAnalysis == dependencyAnalysis
    {
      var n: nat := if numWorkers <= 0 then DEFAULT_NUM_WORKERS else numWorkers;
      var size: nat := if queueSize <= 0 then DEFAULT_QUEUE_SIZE else queueSize;
      config := Config(n, RoundUp(size), size * n, stealing, loadBalancing, dependencyAnalysis);
      shutdown := false;
      allTasks, taskStatus, dependencies, dependents := map[], map[], map[], map[];
      workerQueues := seq(n, _ => []);
      currentTask := seq(n, _ => IDLE);
      readyQueue := [];
    }

    method IsTaskReady(taskID: Id) returns (ready: bool)
      ensures ready == DepsCompleted(Abs(), taskID)
    {
      var list := DepsOf(dependencies, taskID);
      for i := 0 to |list|
        invariant forall j | 0 <= j < i :: IsCompleted(Abs(), list[j])
      {
        if list[i] !in taskStatus || taskStatus[list[i]] != Completed {
          assert list[i] in DepsOf(Abs().deps, taskID) && !IsCompleted(Abs(), list[i]);
          return false;
        }
      }
      return true;
    }

    method FindReadyTasks(tasks: seq<Task>) returns (ready: seq<Id>)
      ensures ready == FindReady(Abs(), tasks)
    {
      ready := [];
      for i := 0 to |tasks|
        invariant ready == FindReady(Abs(), tasks[..i])
      {
        assert tasks[..i + 1][..i] == tasks[..i];
        var ok := IsTaskReady(tasks[i].id);
        if ok { ready := ready + [tasks[i].id]; }
      }
      assert tasks[..|tasks|] == tasks;
    }

    /** AdaptivePriorityQueue.Push as the scheduler uses it: its result is ignored. */
    method PushToReadyQueue(x: Id)
      modifies `readyQueue, `taskStatus
      ensures Abs() == PushReady(config, old(Abs()), x)
    {
      if |readyQueue| < config.readySize { readyQueue := readyQueue + [x]; }
      taskStatus := taskStatus[x := Ready];
    }

    method AddTasksToGlobalQueue(xs: seq<Id>)
      modifies `readyQueue, `taskStatus
      ensures Abs() == Enqueue(config, old(Abs()), xs)
    {
      for i := 0 to |xs|
        invariant Abs() == Enqueue(config, old(Abs()), xs[..i])
      {
        assert xs[..i + 1][..i] == xs[..i];
        PushToReadyQueue(xs[i]);
      }
      assert xs[..|xs|] == xs;
    }

    /** First pass of AddTasks for one task. */
    method RegisterTask(t: Task)
      modifies `allTasks, `taskStatus, `dependencies, `dependents
      ensures Abs() == Register(old(Abs()), t)
    {
      allTasks := allTasks[t.id := t];
      taskStatus := taskStatus[t.id := Pending];
      dependencies := dependencies[t.id := t.deps];
      for i := 0 to |t.deps|
        invariant Abs() == Register(old(Abs()), t).(dependents := dependents)
        invariant dependents == AddReverse(old(dependents), t.deps[..i], t.id)
      {
        assert t.deps[..i + 1][..i] == t.deps[..i];
        var d := t.deps[i];
        dependents := dependents[d := DepsOf(dependents, d) + [t.id]];
      }
      assert t.deps[..|t.deps|] == t.deps;
    }

    method AddTasks(tasks: seq<Task>) returns (err: Error)
      requires Valid()
      modifies this
      ensures Valid() && shutdown == old(shutdown)
      ensures err == EngineShutdown <==> old(shutdown)
      ensures old(shutdown) ==> Abs() == old(Abs())
      ensures !old(shutdown) ==>
        && (err == CircularDependency <==> Rejects(config, old(Abs()), tasks))
        && Abs() == SchedulerState.AddTasks(config, old(Abs()), tasks)
    {
      if shutdown {
        return EngineShutdown;
      }
      for i := 0 to |tasks|
        invariant Valid() && !shutdown
        invariant Abs() == RegisterAll(old(Abs()), tasks[..i])
      {
        assert tasks[..i + 1][..i] == tasks[..i];
        RegisterTask(tasks[i]);
      }
      assert tasks[..|tasks|] == tasks;
      if config.dependencyAnalysis {
        var cycle := DetectCycles(dependencies, Ids(tasks));
        if cycle {
          return CircularDependency;
        }
      }
      var ready := FindReadyTasks(tasks);
      AddTasksToGlobalQueue(ready);
      return NoError;
    }

    // -------------------------------------------------------------- NextTask

    /** assignTaskToWorker */
    method AssignTaskToWorker(x: Id, workerID: nat)
      requires Valid() && workerID < config.numWorkers
      modifies `currentTask, `taskStatus
      ensures Valid()
      ensures currentTask == old(currentTask)[workerID := x] && taskStatus == old(taskStatus)[x := Running]
    {
      currentTask := currentTask[workerID := x];
      taskStatus := taskStatus[x := Running];
    }

    /** Tries the victims in order and takes the oldest task of the first one with work. */
    method StealTask(workerID: nat) returns (task: Option<Id>, ghost i: nat)
      requires Valid() && workerID < config.numWorkers
      modifies `workerQueues
      ensures Valid()
      ensures task.None? ==> workerQueues == old(workerQueues) && forall q | q in workerQueues :: q == []
      ensures task.Some? ==> FirstVictim(old(workerQueues), workerID, i)
      ensures task.Some? ==>
                var v := Victim(workerID, i, config.numWorkers);
                var q := old(workerQueues)[v];
                task == Some(q[0]) && workerQueues == old(workerQueues)[v := q[1..]]
    {
      i := 0;
      for k := 0 to |workerQueues|
        invariant workerQueues == old(workerQueues)
        invariant forall j: nat | j < k :: workerQueues[Victim(workerID, j, config.numWorkers)] == []
      {
        var v := Victim(workerID, k, config.numWorkers);
        var q := workerQueues[v];
        if q != [] {
          workerQueues := workerQueues[v := q[1..]];
          return Some(q[0]), k;
        }
      }
      forall v | 0 <= v < config.numWorkers ensures workerQueues[v] == [] {
        var j := VictimsCoverAll(workerID, v, config.numWorkers);
      }
      return None, i;
    }

    /** Own deque first, then the ready queue, then the other deques. Succeeds exactly when a task
        is queued where this worker may look, and takes exactly that occurrence. */
    method NextTask(workerID: int) returns (task: Option<Id>)
      requires Valid()
      modifies this
      ensures Valid() && shutdown == old(shutdown)
      ensures task.None? ==> Abs() == old(Abs())
      ensures task.None? <==>
        old(shutdown) || !(0 <= workerID < config.numWorkers) ||
        (old(readyQueue) == [] && old(workerQueues)[workerID] == [] &&
         (config.stealing ==> forall q | q in old(workerQueues) :: q == []))
      ensures task.Some? ==> exists s1 ::
                Takes(config, old(Abs()), workerID, task.value, s1) && Abs() == Started(s1, workerID)
      ensures allTasks == old(allTasks) && dependencies == old(dependencies) && dependents == old(dependents)
      ensures task.Some? ==> currentTask == old(currentTask)[workerID := task.value]
      ensures task.Some? ==> taskStatus == old(taskStatus)[task.value := Running]
      ensures task.Some? ==>
                var queues, own, ready := old(workerQueues), old(workerQueues)[workerID], old(readyQueue);
                if own != [] then
                  && task.value == own[|own| - 1] && workerQueues == queues[workerID := own[..|own| - 1]]
                  && readyQueue == ready
                else if ready != [] then
                  && workerQueues == queues
                  && exists k | 0 <= k < |ready| :: task.value == ready[k] && readyQueue == ready[..k] + ready[k + 1..]
                else
                  && config.stealing && readyQueue == ready
                  && exists v: nat | NextWithWork(queues, workerID, v) ::
                       task.value == queues[v][0] && workerQueues == queues[v := queues[v][1..]]
    {
      if shutdown || workerID < 0 || workerID >= |workerQueues| {
        return None;
      }
      ghost var s := Abs();
      var own := workerQueues[workerID];
      if own != [] {
        var x := own[|own| - 1];
        workerQueues := workerQueues[workerID := own[..|own| - 1]];
        AssignTaskToWorker(x, workerID);
        Assigned(s, TakeOwn(s, workerID), workerID, x);
        return Some(x);
      }
      if readyQueue != [] {
        var k: nat :| k < |readyQueue|;   // whichever the priority queue ranks first
        var x := readyQueue[k];
        readyQueue := Without(readyQueue, k);
        AssignTaskToWorker(x, workerID);
        assert TakesReady(s, workerID, k, x, TakeReady(s, workerID, k));
        Assigned(s, TakeReady(s, workerID, k), workerID, x);
        return Some(x);
      }
      if config.stealing {
        ghost var i: nat;
        task, i := StealTask(workerID);
        if task.Some? {
          AssignTaskToWorker(task.value, workerID);
          ghost var v := Victim(workerID, i, config.numWorkers);
          assert s.queues[v] in s.queues;
          assert StealsFrom(s, workerID, i, task.value, Steal(s, workerID, v));
          Assigned(s, Steal(s, workerID, v), workerID, task.value);
          FirstIsNext(s.queues, workerID, i);
          return;
        }
        assert own in workerQueues;
      }
      return None;
    }

    lemma Assigned(s: State, s1: State, w: nat, x: Id)
      requires Valid() && w < config.numWorkers
      requires s.hands == seq(config.numWorkers, _ => None) && s1.hands == s.hands[w := Some(x)]
      requires s1 == s.(queues := s1.queues, ready := s1.ready, hands := s1.hands)
      requires |s.current| == config.numWorkers
      requires Abs() == s.(queues := s1.queues, ready := s1.ready,
                           current := s.current[w := x], status := s.status[x := Running])
      ensures Abs() == Started(s1, w)
    {
      assert s1.hands[w := None] == s.hands;
    }

    // -------------------------------------------------------------- CompleteTask and AbortTask

    /** The worker loop of CompleteTask and AbortTask. */
    method ReleaseWorker(taskID: Id)
      requires Valid()
      modifies `currentTask
      ensures Valid() && currentTask == Release(old(currentTask), taskID)
    {
      for i := 0 to |currentTask|
        invariant Valid() && currentTask == old(currentTask)
        invariant Release(currentTask, taskID) == currentTask[..i] + Release(currentTask[i..], taskID)
      {
        if currentTask[i] == taskID {
          currentTask := currentTask[i := IDLE];
          return;
        }
        assert currentTask[i..][1..] == currentTask[i + 1..];
      }
    }

    method CheckDependentTasks(completed: Id) returns (woken: seq<Id>)
      ensures woken == Woken(Abs(), completed)
    {
      woken := [];
      var list := DepsOf(dependents, completed);
      for i := 0 to |list|
        invariant woken == WokenAmong(Abs(), list[..i])
      {
        assert list[..i + 1][..i] == list[..i];
        var ok := IsTaskReady(list[i]);
        if ok && list[i] in taskStatus && taskStatus[list[i]] == Pending && list[i] in allTasks {
          woken := woken + [list[i]];
        }
      }
      assert list[..|list|] == list;
    }

    method DistributeTasksEvenly(xs: seq<Id>) returns (ghost order: seq<nat>)
      requires Valid()
      modifies `workerQueues, `readyQueue, `taskStatus
      ensures Valid()
      ensures IsLoadOrder(old(workerQueues), order) && order != []
      ensures Abs() == Distribute(config, old(Abs()), xs, order)
    {
      var workers := LoadOrder(workerQueues);
      order := workers;
      for i := 0 to |xs|
        invariant Valid()
        invariant Abs() == Distribute(config, old(Abs()), xs[..i], workers)
      {
        assert xs[..i + 1][..i] == xs[..i];
        var w := workers[i % |workers|];
        if |workerQueues[w]| < config.dequeSize {
          workerQueues := workerQueues[w := workerQueues[w] + [xs[i]]];
          taskStatus := taskStatus[xs[i] := Ready];
        } else {
          PushToReadyQueue(xs[i]);
        }
      }
      assert xs[..|xs|] == xs;
    }

    method CompleteTask(taskID: Id)
      requires Valid()
      modifies this
      ensures Valid() && shutdown == old(shutdown)
      ensures exists order :: IsLoadOrder(old(workerQueues), order) && order != [] &&
                              Abs() == Complete(config, old(Abs()), taskID, order)
    {
      taskStatus := taskStatus[taskID := Completed];
      ReleaseWorker(taskID);
      assert Abs() == MarkCompleted(old(Abs()), taskID);
      var woken := CheckDependentTasks(taskID);
      ghost var order := LoadOrder(workerQueues);
      if config.loadBalancing {
        order := DistributeTasksEvenly(woken);
      } else {
        AddTasksToGlobalQueue(woken);
      }
      assert Abs() == Complete(config, old(Abs()), taskID, order);
    }

    method AbortTask(taskID: Id, dependency: Id)
      requires Valid()
      modifies this
      ensures Valid() && shutdown == old(shutdown)
      ensures Abs() == Abort(old(Abs()), taskID, dependency)
      ensures taskStatus == old(taskStatus)[taskID := Pending]
      ensures var deps, waiting := DepsOf(old(dependencies), taskID), DepsOf(old(dependents), dependency);
        if dependency in deps then dependencies == old(dependencies) && dependents == old(dependents)
        else
          && dependencies == old(dependencies)[taskID := deps + [dependency]]
          && dependents == old(dependents)[dependency := waiting + [taskID]]
      ensures allTasks == old(allTasks) && workerQueues == old(workerQueues) && readyQueue == old(readyQueue)
    {
      taskStatus := taskStatus[taskID := Aborted];
      var deps := DepsOf(dependencies, taskID);
      var hasDependency := false;
      for i := 0 to |deps|
        invariant !hasDependency && forall j | 0 <= j < i :: deps[j] != dependency
      {
        if deps[i] == dependency {
          hasDependency := true;
          break;
        }
      }
      if !hasDependency {
        dependencies := dependencies[taskID := deps + [dependency]];
        dependents := dependents[dependency := DepsOf(dependents, dependency) + [taskID]];
      }
      taskStatus := taskStatus[taskID := Pending];
      ReleaseWorker(taskID);
      assert taskStatus == old(taskStatus)[taskID := Pending];
    }

    method Close()
      modifies `shutdown
      ensures shutdown
    {
      shutdown := true;
    }
  }
}
