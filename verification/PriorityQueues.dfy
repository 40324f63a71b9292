/** The adaptive priority queue and the queue distributed over several of them. The heap is modelled
    by what container/heap promises: taking out an item of greatest priority. */
module PriorityQueues {
  import opened Collections
  import opened Deque

  datatype Job = Job(id: int, gas: nat)

  datatype Item = Item(job: Job, priority: real)

  /** What a queue holds, and how often each task has been popped. */
  datatype Contents = Contents(items: seq<Item>, hot: map<int, nat>)

  lemma WithoutOne(items: seq<Item>, k: nat)
    requires k < |items|
    ensures multiset(items) == multiset(Without(items, k)) + multiset{items[k]}
  {
    assert items == items[..k] + [items[k]] + items[k + 1..];
  }

  predicate IsTop(items: seq<Item>, k: nat) {
    k < |items| && forall j | 0 <= j < |items| :: items[j].priority <= items[k].priority
  }

  /** `item` has the greatest priority; `rest` are the others. */
  ghost predicate TakesTop(items: seq<Item>, item: Item, rest: seq<Item>) {
    && multiset(items) == multiset(rest) + multiset{item}
    && forall other | other in items :: other.priority <= item.priority
  }

  function TimesPopped(hot: map<int, nat>, id: int): nat {
    if id in hot then hot[id] else 0
  }

  class AdaptivePriorityQueue {
    const maxSize: int
    var items: seq<Item>
    var hotTasks: map<int, nat>

    ghost predicate Valid()
      reads this
    {
      items == [] || |items| <= maxSize
    }

    function Abs(): Contents
      reads this
    {
      Contents(items, hotTasks)
    }

    constructor (maxSize: int)
      ensures Valid() && Abs() == Contents([], map[]) && this.maxSize == maxSize
    {
      this.maxSize := maxSize;
      items, hotTasks := [], map[];
    }

    /** Tasks popped more than five times are boosted. */
    function AdaptPriority(job: Job, basePriority: real): real
      reads this
    {
      if job.id in hotTasks && hotTasks[job.id] > 5 then basePriority * 1.5 else basePriority
    }

    method Push(job: Job, priority: real) returns (ok: bool)
      requires Valid()
      modifies this`items
      ensures Valid() && (ok <==> |old(items)| < maxSize)
      ensures !ok ==> items == old(items)
      ensures ok ==> |items| == |old(items)| + 1 && items[..|old(items)|] == old(items)
      ensures ok ==> items[|old(items)|].job == job
      ensures ok ==> items[|old(items)|].priority ==
                       if TimesPopped(hotTasks, job.id) > 5 then 1.5 * priority else priority
      ensures Does(maxSize, old(Abs()), Pushed(job, priority, ok), Abs())
    {
      if |items| >= maxSize {
        return false;
      }
      items := items + [Item(job, AdaptPriority(job, priority))];
      return true;
    }

    method Pop() returns (job: Option<Job>, ghost taken: Option<Item>)
      requires Valid()
      modifies this
      ensures Valid() && (job == None <==> old(items) == []) && (taken == None <==> job == None)
      ensures job == None ==> Abs() == old(Abs())
      ensures job.Some? ==> taken.value.job == job.value && TakesTop(old(items), taken.value, items)
      ensures job.Some? ==> |items| == |old(items)| - 1
      ensures job.Some? ==>
                var id := job.value.id;
                hotTasks == old(hotTasks)[id := 1 + TimesPopped(old(hotTasks), id)]
      ensures Does(maxSize, old(Abs()), Popped(taken), Abs())
    {
      if items == [] {
        return None, None;
      }
      var k := Top(items);
      var item := items[k];
      WithoutOne(items, k);
      items := Without(items, k);
      hotTasks := hotTasks[item.job.id := 1 + if item.job.id in hotTasks then hotTasks[item.job.id] else 0];
      return Some(item.job), Some(item);
    }
  }

  method Top(items: seq<Item>) returns (k: nat)
    requires items != []
    ensures IsTop(items, k)
  {
    k := 0;
    for i := 1 to |items|
      invariant k < i && forall j | 0 <= j < i :: items[j].priority <= items[k].priority
    {
      if items[i].priority > items[k].priority { k := i; }
    }
  }

  // ---------------------------------------------------------------- runs of one queue

  datatype Call = Pushed(job: Job, priority: real, ok: bool) | Popped(taken: Option<Item>)

  /** One call: a push enters its job under some priority, a pop takes an item of greatest priority
      and counts it. */
  ghost predicate Does(maxSize: int, q: Contents, call: Call, q': Contents) {
    match call
    case Pushed(job, priority, ok) =>
      && q'.hot == q.hot && (ok <==> |q.items| < maxSize)
      && q'.items == if ok then
           q.items + [Item(job, if TimesPopped(q.hot, job.id) > 5 then 1.5 * priority else priority)]
         else q.items
    case Popped(None) => q.items == [] && q' == q
    case Popped(Some(item)) =>
      && TakesTop(q.items, item, q'.items)
      && q'.hot == q.hot[item.job.id := 1 + TimesPopped(q.hot, item.job.id)]
  }

  /** The states of a new queue that the calls lead through. */
  ghost predicate IsRun(maxSize: int, states: seq<Contents>, calls: seq<Call>) {
    && |states| == |calls| + 1 && states[0] == Contents([], map[])
    && forall i, j | 0 <= i < |calls| && j == i + 1 :: Does(maxSize, states[i], calls[i], states[j])
  }

  /** The pops among the first n calls that returned the task. */
  ghost function PopsOf(calls: seq<Call>, n: nat, id: int): set<int>
    requires n <= |calls|
  {
    set i | 0 <= i < n && calls[i].Popped? && calls[i].taken.Some? && calls[i].taken.value.job.id == id
  }

  /** The queue counts exactly those. */
  lemma {:induction false} CountsPops(maxSize: int, states: seq<Contents>, calls: seq<Call>, n: nat, id: int)
    requires IsRun(maxSize, states, calls) && n <= |calls|
    ensures TimesPopped(states[n].hot, id) == |PopsOf(calls, n, id)|
  {
    if n == 0 {
      assert PopsOf(calls, n, id) == {};
    } else {
      CountsPops(maxSize, states, calls, n - 1, id);
      assert Does(maxSize, states[n - 1], calls[n - 1], states[n]);
      var c := calls[n - 1];
      var now := c.Popped? && c.taken.Some? && c.taken.value.job.id == id;
      assert PopsOf(calls, n, id) == PopsOf(calls, n - 1, id) + if now then {n - 1} else {};
    }
  }

  /** After any sequence of calls a push stores its job under 1.5 times the given priority exactly
      when more than five of the pops returned that task, and under the given one otherwise. */
  lemma BoostedExactly(maxSize: int, states: seq<Contents>, calls: seq<Call>, i: nat)
    requires IsRun(maxSize, states, calls) && i < |calls| && calls[i].Pushed? && calls[i].ok
    ensures var boosted := |PopsOf(calls, i, calls[i].job.id)| > 5;
      states[i + 1].items ==
        states[i].items + [Item(calls[i].job, if boosted then 1.5 * calls[i].priority else calls[i].priority)]
  {
    CountsPops(maxSize, states, calls, i, calls[i].job.id);
    assert Does(maxSize, states[i], calls[i], states[i + 1]);
  }

  /** Until it is taken an item stays. */
  lemma {:induction false} StaysUntilTaken(maxSize: int, states: seq<Contents>, calls: seq<Call>,
          n: nat, m: nat, a: Item)
    requires IsRun(maxSize, states, calls) && n <= m <= |calls| && a in states[n].items
    requires forall k | n <= k < m :: calls[k] != Popped(Some(a))
    ensures a in states[m].items
    decreases m - n
  {
    if n < m {
      assert Does(maxSize, states[n], calls[n], states[n + 1]);
      if calls[n].Popped? && calls[n].taken.Some? {
        assert multiset(states[n].items)[a] > 0;
        assert multiset(states[n + 1].items)[a] > 0;
      }
      StaysUntilTaken(maxSize, states, calls, n + 1, m, a);
    }
  }

  /** Of two items in the queue the one of greater priority is taken first. */
  lemma GreaterFirst(maxSize: int, states: seq<Contents>, calls: seq<Call>, n: nat, m: nat, a: Item, b: Item)
    requires IsRun(maxSize, states, calls) && n <= m < |calls| && a in states[n].items
    requires calls[m] == Popped(Some(b)) && a.priority > b.priority
    ensures exists k | n <= k < m :: calls[k] == Popped(Some(a))
  {
    assert Does(maxSize, states[m], calls[m], states[m + 1]);
    if forall k | n <= k < m :: calls[k] != Popped(Some(a)) {
      StaysUntilTaken(maxSize, states, calls, n, m, a);
      assert false;
    }
  }

  /** A boosted job is popped before an unboosted one of less than 1.5 times its priority, even when
      its own priority is the lower one. */
  lemma BoostedFirst(maxSize: int, states: seq<Contents>, calls: seq<Call>, i: nat, j: nat, m: nat)
    requires IsRun(maxSize, states, calls) && i < m < |calls| && j < m
    requires calls[i].Pushed? && calls[i].ok && |PopsOf(calls, i, calls[i].job.id)| > 5
    requires calls[j].Pushed? && calls[j].ok && |PopsOf(calls, j, calls[j].job.id)| <= 5
    requires calls[m] == Popped(Some(Item(calls[j].job, calls[j].priority)))
    requires 1.5 * calls[i].priority > calls[j].priority
    ensures exists k | i < k < m :: calls[k] == Popped(Some(Item(calls[i].job, 1.5 * calls[i].priority)))
  {
    BoostedExactly(maxSize, states, calls, i);
    var a := Item(calls[i].job, 1.5 * calls[i].priority);
    assert states[i + 1].items[|states[i].items|] == a;
    GreaterFirst(maxSize, states, calls, i + 1, m, a, Item(calls[j].job, calls[j].priority));
  }

  class DistributedQueue {
    const queues: seq<AdaptivePriorityQueue>

    ghost predicate Valid()
      reads this, queues
    {
      && (forall i | 0 <= i < |queues| :: queues[i].Valid())
      && (forall i, j | 0 <= i < j < |queues| :: queues[i] != queues[j])
    }

    constructor (numQueues: nat, queueSize: int)
      ensures Valid() && |queues| == numQueues
      ensures forall i | 0 <= i < numQueues ::
        fresh(queues[i]) && queues[i].Abs() == Contents([], map[]) && queues[i].maxSize == queueSize
    {
      var qs: seq<AdaptivePriorityQueue> := [];
      for i := 0 to numQueues
        invariant |qs| == i && forall a | 0 <= a < i ::
                    fresh(qs[a]) && qs[a].Valid() && qs[a].Abs() == Contents([], map[]) && qs[a].maxSize == queueSize
        invariant forall a, b | 0 <= a < b < i :: qs[a] != qs[b]
      {
        var q := new AdaptivePriorityQueue(queueSize);
        qs := qs + [q];
      }
      queues := qs;
    }

    /** The first i queues have been looked at; the head of `best` is the only one kept out. */
    ghost predicate Seen(was: seq<Contents>, i: nat, heads: seq<Option<Item>>, job: Option<Job>, best: int)
      reads this, queues
    {
      && Valid() && |was| == |queues| && |heads| == i <= |queues|
      && (forall a | i <= a < |queues| :: queues[a].Abs() == was[a])
      && (forall a | 0 <= a < i :: Looked(was[a], queues[a].Abs(), heads[a], a == best))
      && (if job == None then best == -1 && forall a | 0 <= a < i :: heads[a] == None
          else Best(heads, job.value, best) && |queues[best].items| < queues[best].maxSize)
    }

    /** Puts a job back where it came from; its queue has room again. */
    method GiveBack(k: nat, job: Job, priority: real, ghost was: Contents, ghost head: Option<Item>)
      requires Valid() && k < |queues| && |queues[k].items| < queues[k].maxSize
      requires Looked(was, queues[k].Abs(), head, true) && head.Some? && head.value.job == job
      requires priority == job.gas as real
      modifies queues[k]
      ensures Valid() && Looked(was, queues[k].Abs(), head, false)
      ensures forall a | 0 <= a < |queues| && a != k :: queues[a].Abs() == old(queues[a].Abs())
    {
      hide Looked, Does, TakesTop;
      ghost var now := queues[k].Abs();
      var ok := queues[k].Push(job, priority);
      PutBack(was, now, queues[k].Abs(), head.value, queues[k].maxSize);
    }

    /** Takes the head out of a queue. */
    method TakeHead(k: nat) returns (job: Job, ghost head: Option<Item>)
      requires Valid() && k < |queues| && queues[k].items != []
      modifies queues[k]
      ensures Valid() && head.Some? && head.value.job == job
      ensures Looked(old(queues[k].Abs()), queues[k].Abs(), head, true)
      ensures |queues[k].items| < queues[k].maxSize
      ensures forall a | 0 <= a < |queues| && a != k :: queues[a].Abs() == old(queues[a].Abs())
    {
      hide Looked, Does, TakesTop;
      var popped;
      popped, head := queues[k].Pop();
      job := popped.value;
      LookedAtHead(old(queues[k].Abs()), queues[k].Abs(), head.value, queues[k].maxSize);
    }

    /** Looks at the i-th queue's head and puts back what is not best. */
    method Look(i: nat, bestJob: Option<Job>, bestQueue: int, bestPriority: real,
                ghost was: seq<Contents>, ghost heads: seq<Option<Item>>)
      returns (job: Option<Job>, best: int, priority: real, ghost head: Option<Item>)
      requires Seen(was, i, heads, bestJob, bestQueue) && i < |queues|
      requires bestPriority == if bestJob == None then -1.0 else bestJob.value.gas as real
      modifies queues
      ensures Seen(was, i + 1, heads + [head], job, best)
      ensures priority == if job == None then -1.0 else job.value.gas as real
    {
      hide Looked;
      job, best, priority := bestJob, bestQueue, bestPriority;
      if queues[i].items == [] {
        LookedAtNothing(was[i]);
        return job, best, priority, None;
      }
      var task;
      task, head := TakeHead(i);
      if task.gas as real > bestPriority {
        if bestQueue != -1 {
          GiveBack(bestQueue, bestJob.value, bestPriority, was[bestQueue], heads[bestQueue]);
        }
        job, best, priority := Some(task), i, task.gas as real;
      } else {
        GiveBack(i, task, task.gas as real, was[i], head);
      }
    }

    /** The gas of a queue's head decides; what is taken out of the other queues goes back under its
        gas, boosted when it has been popped more than five times by now. */
    method Pop() returns (job: Option<Job>, ghost heads: seq<Option<Item>>, ghost chosen: int)
      requires Valid()
      modifies queues
      ensures Valid() && |heads| == |queues|
      ensures job == None <==> forall i | 0 <= i < |queues| :: old(queues[i].items) == []
      ensures if job == None then chosen == -1 else Best(heads, job.value, chosen)
      ensures forall i | 0 <= i < |queues| ::
                Looked(old(queues[i].Abs()), queues[i].Abs(), heads[i], i == chosen)
    {
      ghost var was := seq(|queues|, a requires 0 <= a < |queues| reads queues => queues[a].Abs());
      var bestQueue, bestPriority: real := -1, -1.0;
      job, heads := None, [];
      for i := 0 to |queues|
        invariant Seen(was, i, heads, job, bestQueue)
        invariant bestPriority == if job == None then -1.0 else job.value.gas as real
      {
        ghost var head;
        job, bestQueue, bestPriority, head := Look(i, job, bestQueue, bestPriority, was, heads);
        heads := heads + [head];
      }
      chosen := bestQueue;
    }
  }

  /** The job is the head of greatest gas, in the first of the queues that have one. */
  ghost predicate Best(heads: seq<Option<Item>>, job: Job, chosen: int) {
    && 0 <= chosen < |heads| && heads[chosen].Some? && heads[chosen].value.job == job
    && forall i | 0 <= i < |heads| && heads[i].Some? ::
         heads[i].value.job.gas <= job.gas && (i < chosen ==> heads[i].value.job.gas < job.gas)
  }

  /** What is put back: the job under its gas, boosted like any push. */
  function Back(hot: map<int, nat>, job: Job): Item {
    Item(job, if TimesPopped(hot, job.id) > 5 then 1.5 * job.gas as real else job.gas as real)
  }

  /** A queue's head was looked at, hence counted as popped, and is `out` of the queue or back in it. */
  ghost predicate Looked(was: Contents, now: Contents, head: Option<Item>, out: bool) {
    match head
    case None => was.items == [] && now == was
    case Some(item) =>
      && item in was.items && (forall other | other in was.items :: other.priority <= item.priority)
      && now.hot == was.hot[item.job.id := 1 + TimesPopped(was.hot, item.job.id)]
      && multiset(was.items) + (if out then multiset{} else multiset{Back(now.hot, item.job)}) ==
           multiset(now.items) + multiset{item}
  }

  lemma LookedAtNothing(was: Contents)
    ensures was.items == [] ==> Looked(was, was, None, false) && Looked(was, was, None, true)
  {}

  lemma LookedAtHead(was: Contents, now: Contents, head: Item, maxSize: int)
    requires Does(maxSize, was, Popped(Some(head)), now)
    ensures Looked(was, now, Some(head), true)
  {
    assert multiset(was.items)[head] > 0;
  }

  lemma PutBack(was: Contents, now: Contents, now': Contents, head: Item, maxSize: int)
    requires Looked(was, now, Some(head), true)
    requires Does(maxSize, now, Pushed(head.job, head.job.gas as real, true), now')
    ensures Looked(was, now', Some(head), false)
  {
    var b := Back(now.hot, head.job);
    assert multiset(now'.items) == multiset(now.items) + multiset{b};
    assert multiset(was.items) + multiset{} == multiset(was.items);
    assert multiset(was.items) + multiset{b} == multiset(now'.items) + multiset{head};
  }
}
