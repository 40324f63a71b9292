/** Progress of the Chase-Lev deque: every call returns after a bounded number of its own steps,
    whatever the others do in between, and a call that is left alone does what it is for. */
module ChaseLevProgress {
  import opened Deque
  import opened ChaseLevSteps
  import opened ChaseLevRuns

  // ---------------------------------------------------------------- every call returns

  /** The steps an owner's call still takes at most; 0 between calls. */
  function OwnerLeft<T>(pc: OwnerPc<T>): nat {
    match pc
    case Idle => 0
    case PushCalled(_) => 5
    case PushLoadedBottom(_, _) => 4
    case PushChecked(_, _) => 3
    case PushWritten(_, _) => 2
    case PushDone(_, _) => 1
    case PopCalled => 6
    case PopDecremented(_) => 5
    case PopEqual(_) => 4
    case PopContended(_, _) => 3
    case PopAbove(_) => 2
    case PopRestore(_, _) => 2
    case PopDone(_) => 1
  }

  function ThiefLeft<T>(pc: ThiefPc<T>): nat {
    match pc
    case Away => 0
    case StealCalled => 5
    case StealLoadedTop(_) => 4
    case StealChecked(_) => 3
    case StealRead(_, _) => 2
    case StealDone(_) => 1
  }

  function Left<T>(s: State<T>, who: Actor): nat
    requires who.Thief? ==> who.id < |s.thieves|
  {
    match who
    case Owner => OwnerLeft(s.owner)
    case Thief(i) => ThiefLeft(s.thieves[i])
  }

  predicate IsOwnStep<T>(a: Action<T>, who: Actor) {
    match who
    case Owner => a.OwnerStep?
    case Thief(i) => a.ThiefStep? && a.id == i
  }

  /** How many of the actions are steps of the actor's own. */
  function OwnSteps<T>(actions: seq<Action<T>>, who: Actor): nat {
    if actions == [] then 0
    else OwnSteps(actions[..|actions| - 1], who) + if IsOwnStep(actions[|actions| - 1], who) then 1 else 0
  }

  predicate Returns<T>(e: Event<T>, who: Actor) {
    e.Return? && e.who == who
  }

  /** In the middle of a call, a step of one's own brings it nearer to its return, which is its last
      step, and no action of anybody else takes it further away. */
  lemma StepNearer<T(!new)>(s: State<T>, a: Action<T>, who: Actor)
    requires |s.slots| > 0 && (who.Thief? ==> who.id < |s.thieves|) && Left(s, who) > 0
    ensures var (s', e) := Next(s, a);
      && Left(s', who) <= Left(s, who) - (if IsOwnStep(a, who) then 1 else 0)
      && (Left(s', who) == 0 <==> Returns(e, who))
  {}

  /** The call has returned within `bound` steps of its own. */
  ghost predicate ReturnedWithin<T>(actions: seq<Action<T>>, events: seq<Event<T>>, who: Actor, bound: nat) {
    exists i :: 0 <= i < |events| && i < |actions| && Returns(events[i], who)
                && OwnSteps(actions[..i + 1], who) <= bound
  }

  lemma {:induction false} NearerOrReturned<T(!new)>(s: State<T>, actions: seq<Action<T>>, who: Actor)
    requires |s.slots| > 0 && (who.Thief? ==> who.id < |s.thieves|) && Left(s, who) > 0
    ensures var (s', events) := Exec(s, actions);
      && |events| == |actions|
      && (ReturnedWithin(actions, events, who, Left(s, who))
          || (Left(s', who) > 0 && Left(s', who) + OwnSteps(actions, who) <= Left(s, who)))
  {
    if actions != [] {
      hide Next, Left, Returns;
      var n := |actions| - 1;
      var front, a := actions[..n], actions[n];
      NearerOrReturned(s, front, who);
      var (mid, events) := Exec(s, front);
      var (s', e) := Next(mid, a);
      if i :| 0 <= i < n && Returns(events[i], who) && OwnSteps(front[..i + 1], who) <= Left(s, who) {
        assert (events + [e])[i] == events[i] && actions[..i + 1] == front[..i + 1];
      } else {
        StepNearer(mid, a, who);
        if Left(s', who) == 0 {
          assert (events + [e])[n] == e && actions[..n + 1] == actions;
        }
      }
    }
  }

  /** Wait-freedom: whoever has enough steps of its own in the run has returned within them, however
      the steps of the others are interleaved. */
  lemma EveryCallReturns<T(!new)>(s: State<T>, actions: seq<Action<T>>, who: Actor)
    requires |s.slots| > 0 && (who.Thief? ==> who.id < |s.thieves|)
    requires 0 < Left(s, who) <= OwnSteps(actions, who)
    ensures ReturnedWithin(actions, Exec(s, actions).1, who, Left(s, who))
  {
    NearerOrReturned(s, actions, who);
  }

  /** From their invocation PushBottom and PopTop take five steps, PopBottom takes six. */
  lemma CallLengths<T(!new)>(s: State<T>, x: T, k: nat)
    requires |s.slots| > 0
    ensures s.owner == Idle ==> Left(Next(s, CallPush(x)).0, Owner) == 5 && Left(Next(s, CallPop).0, Owner) == 6
    ensures k < |s.thieves| && s.thieves[k] == Away ==> Left(Next(s, CallSteal(k)).0, Thief(k)) == 5
  {}

  // ---------------------------------------------------------------- a call left alone

  lemma {:induction false} ExecOn<T(!new)>(s: State<T>, a: seq<Action<T>>, b: seq<Action<T>>)
    requires |s.slots| > 0
    ensures Exec(s, a + b) == (Exec(Exec(s, a).0, b).0, Exec(s, a).1 + Exec(Exec(s, a).0, b).1)
  {
    hide Next;
    if b == [] {
      assert a + b == a && Exec(s, a).1 + [] == Exec(s, a).1;
    } else {
      var front, last := b[..|b| - 1], b[|b| - 1];
      ExecOn(s, a, front);
      assert (a + b)[..|a + b| - 1] == a + front;
      var mid := Exec(s, a).0;
      var (end, events) := Exec(mid, front);
      assert Exec(s, a).1 + (events + [Next(end, last).1]) == (Exec(s, a).1 + events) + [Next(end, last).1];
    }
  }

  function Times<T>(a: Action<T>, n: nat): seq<Action<T>> {
    seq(n, _ => a)
  }

  lemma TimesMore<T>(a: Action<T>, n: nat)
    ensures Times(a, n + 1) == [a] + Times(a, n)
  {}

  lemma ExecOne<T(!new)>(s: State<T>, a: Action<T>)
    requires |s.slots| > 0
    ensures Exec(s, [a]) == (Next(s, a).0, [Next(s, a).1])
  {
    hide Next;
    assert [a][..0] == [];
    assert Exec(s, []) == (s, []) && [] + [Next(s, a).1] == [Next(s, a).1];
  }

  /** n times the same action lead to s', and the last of them is the event `r`. */
  ghost predicate Ends<T(!new)>(s: State<T>, a: Action<T>, n: nat, s': State<T>, r: Event<T>)
    requires |s.slots| > 0
  {
    var (end, events) := Exec(s, Times(a, n));
    end == s' && n > 0 && |events| == n && events[n - 1] == r
  }

  lemma LastStep<T(!new)>(s: State<T>, a: Action<T>)
    requires |s.slots| > 0
    ensures Ends(s, a, 1, Next(s, a).0, Next(s, a).1)
  {
    hide Next, Exec;
    ExecOne(s, a);
    assert Times(a, 1) == [a];
  }

  lemma StepBefore<T(!new)>(s: State<T>, a: Action<T>, n: nat, s': State<T>, r: Event<T>)
    requires |s.slots| > 0 && Ends(Next(s, a).0, a, n, s', r)
    ensures Ends(s, a, n + 1, s', r)
  {
    hide Next, Times;
    ExecOne(s, a);
    TimesMore(a, n);
    ExecOn(s, [a], Times(a, n));
    var s1 := Next(s, a).0;
    var (end, events) := Exec(s1, Times(a, n));
    assert Exec(s, Times(a, n + 1)) == (end, [Next(s, a).1] + events);
  }

  lemma ThiefEnds<T(!new)>(s: State<T>, k: nat, r: Result<T>)
    requires |s.slots| > 0 && k < |s.thieves| && s.thieves[k] == StealDone(r)
    ensures Ends(s, ThiefStep(k), 1, s.(thieves := s.thieves[k := Away]), Return(Thief(k), PopTop, r))
  {
    hide Ends;
    LastStep(s, ThiefStep(k));
  }

  /** The compare-and-swap succeeds while top is as it was read. */
  lemma ThiefClaims<T(!new)>(s: State<T>, k: nat)
    requires |s.slots| > 0 && k < |s.thieves| && s.thieves[k].StealRead? && s.thieves[k].t == s.top
    ensures Ends(s, ThiefStep(k), 2, s.(top := s.top + 1, thieves := s.thieves[k := Away]),
                 Return(Thief(k), PopTop, Got(s.thieves[k].task)))
  {
    hide Ends;
    var x := s.thieves[k].task;
    var s1 := s.(top := s.top + 1, thieves := s.thieves[k := StealDone(Got(x))]);
    ThiefEnds(s1, k, Got(x));
    assert s1.thieves[k := Away] == s.thieves[k := Away];
    StepBefore(s, ThiefStep(k), 1, s.(top := s.top + 1, thieves := s.thieves[k := Away]),
               Return(Thief(k), PopTop, Got(x)));
  }

  lemma ThiefReads<T(!new)>(s: State<T>, k: nat)
    requires |s.slots| > 0 && k < |s.thieves| && s.thieves[k] == StealCalled && s.top < s.bottom
    ensures Ends(s, ThiefStep(k), 5, s.(top := s.top + 1, thieves := s.thieves[k := Away]),
                 Return(Thief(k), PopTop, Got(Slot(s, s.top))))
  {
    hide Ends;
    var x, a := Slot(s, s.top), Action<T>.ThiefStep(k);
    var s' := s.(top := s.top + 1, thieves := s.thieves[k := Away]);
    var r := Return(Thief(k), PopTop, Got(x));
    var s1 := s.(thieves := s.thieves[k := StealLoadedTop(s.top)]);
    var s2 := s.(thieves := s.thieves[k := StealChecked(s.top)]);
    var s3 := s.(thieves := s.thieves[k := StealRead(s.top, x)]);
    assert s1.thieves[k := StealChecked(s.top)] == s2.thieves && s2.thieves[k := StealRead(s.top, x)] == s3.thieves;
    assert s3.thieves[k := Away] == s'.thieves;
    ThiefClaims(s3, k);
    StepBefore(s2, a, 2, s', r);
    StepBefore(s1, a, 3, s', r);
    StepBefore(s, a, 4, s', r);
  }

  /** A thief that is left alone takes the oldest element there is, unless a PopBottom is just
      deciding about the last one. */
  lemma StealTakesOldest<T(!new)>(s: State<T>, k: nat) returns (s': State<T>)
    requires Inv(s) && k < |s.thieves| && s.thieves[k] == StealCalled
    requires !Undecided(s.owner) && Contents(s) != []
    ensures Inv(s') && Contents(s') == Contents(s)[1..]
    ensures Ends(s, ThiefStep(k), 5, s', Return(Thief(k), PopTop, Got(Contents(s)[0])))
  {
    ThiefReads(s, k);
    s' := s.(top := s.top + 1, thieves := s.thieves[k := Away]);
    hide Ends;
    assert forall i | 0 <= i < |s.thieves| :: ThiefOk(s, s.thieves[i]);
    ContentsMove(s, s');
  }

  // ---------------------------------------------------------------- the owner left alone

  /** After n steps of the owner its call has returned with event `r`, and the deque holds `q`. */
  ghost predicate Settles<T(!new)>(s: State<T>, n: nat, s': State<T>, q: seq<T>, r: Event<T>)
    requires |s.slots| > 0
  {
    Inv(s') && s'.owner == Idle && Contents(s') == q && Ends(s, OwnerStep, n, s', r)
  }

  lemma SettlesNow<T(!new)>(s: State<T>)
    requires Inv(s) && (s.owner.PushDone? || s.owner.PopDone?)
    ensures Settles(s, 1, OwnerNext(s).0, Contents(s),
                    if s.owner.PushDone? then
                      Return(Owner, PushBottom(s.owner.task), if s.owner.accepted then Accepted else Full)
                    else Return(Owner, PopBottom, s.owner.res))
  {
    hide Ends;
    OwnerStepRefines(s);
    LastStep(s, OwnerStep);
  }

  lemma SettlesBefore<T(!new)>(s: State<T>, n: nat, s': State<T>, q: seq<T>, r: Event<T>)
    requires |s.slots| > 0 && Settles(OwnerNext(s).0, n, s', q, r)
    ensures Settles(s, n + 1, s', q, r)
  {
    hide Ends, OwnerNext, Inv, Contents;
    StepBefore(s, OwnerStep, n, s', r);
  }

  function PushSteps(room: bool): nat { if room then 5 else 3 }

  function PopSteps(size: nat): nat { if size == 1 then 6 else 4 }

  /** Room was found: the task is filled in and bottom advanced. */
  lemma PushFills<T(!new)>(s: State<T>) returns (s': State<T>)
    requires Inv(s) && s.owner.PushChecked?
    ensures var x := s.owner.task;
      Settles(s, 3, s', Contents(s) + [x], Return(Owner, PushBottom(x), Accepted))
  {
    var q', r := Contents(s) + [s.owner.task], Return(Owner, PushBottom(s.owner.task), Accepted);
    var s1 := OwnerNext(s).0;
    var s2 := OwnerNext(s1).0;
    OwnerStepRefines(s);
    OwnerStepRefines(s1);
    hide Settles;
    SettlesNow(s2);
    s' := OwnerNext(s2).0;
    SettlesBefore(s1, 1, s', q', r);
    SettlesBefore(s, 2, s', q', r);
  }

  /** PushBottom appends its task in five steps, or finds the ring full after three. */
  lemma PushAlone<T(!new)>(s: State<T>, x: T) returns (s': State<T>)
    requires Inv(s) && s.owner == PushCalled(x)
    ensures var q, room := Contents(s), |Contents(s)| < |s.slots|;
      Settles(s, PushSteps(room), s', if room then q + [x] else q,
              Return(Owner, PushBottom(x), if room then Accepted else Full))
  {
    hide Settles;
    var q, room := Contents(s), |Contents(s)| < |s.slots|;
    var q', r := if room then q + [x] else q, Return(Owner, PushBottom(x), if room then Accepted else Full);
    var s1 := OwnerNext(s).0;
    var s2 := OwnerNext(s1).0;
    OwnerStepRefines(s);
    OwnerStepRefines(s1);
    if room {
      s' := PushFills(s2);
      SettlesBefore(s1, 3, s', q', r);
    } else {
      SettlesNow(s2);
      s' := OwnerNext(s2).0;
      SettlesBefore(s1, 1, s', q', r);
    }
    SettlesBefore(s, PushSteps(room) - 1, s', q', r);
  }

  function Popped<T>(q: seq<T>): Result<T> {
    if q == [] then Nothing else Got(q[|q| - 1])
  }

  function Front<T>(q: seq<T>): seq<T> {
    if q == [] then [] else q[..|q| - 1]
  }

  /** The last element, won against all thieves. */
  lemma PopWins<T(!new)>(s: State<T>) returns (s': State<T>)
    requires Inv(s) && s.owner.PopContended? && s.top == s.owner.b
    ensures Contents(s) == [s.owner.task]
    ensures Settles(s, 3, s', [], Return(Owner, PopBottom, Got(s.owner.task)))
  {
    var r := Return(Owner, PopBottom, Got(s.owner.task));
    var s1 := OwnerNext(s).0;
    var s2 := OwnerNext(s1).0;
    OwnerStepRefines(s);
    OwnerStepRefines(s1);
    hide Settles;
    SettlesNow(s2);
    s' := OwnerNext(s2).0;
    SettlesBefore(s1, 1, s', [], r);
    SettlesBefore(s, 2, s', [], r);
  }

  /** One of several elements, taken without a compare-and-swap. */
  lemma PopTakes<T(!new)>(s: State<T>) returns (s': State<T>)
    requires Inv(s) && s.owner.PopAbove? && s.top < s.owner.b
    ensures var q := Contents(s); q != [] && Settles(s, 2, s', Front(q), Return(Owner, PopBottom, Popped(q)))
  {
    var q := Contents(s);
    var s1 := OwnerNext(s).0;
    OwnerStepRefines(s);
    hide Settles;
    SettlesNow(s1);
    s' := OwnerNext(s1).0;
    SettlesBefore(s, 1, s', Front(q), Return(Owner, PopBottom, Popped(q)));
  }

  lemma PopEmpty<T(!new)>(s: State<T>) returns (s': State<T>)
    requires Inv(s) && s.owner.PopDecremented? && s.owner.b < s.top
    ensures Contents(s) == [] && Settles(s, 3, s', [], Return(Owner, PopBottom, Nothing))
  {
    var s1 := OwnerNext(s).0;
    var s2 := OwnerNext(s1).0;
    OwnerStepRefines(s);
    OwnerStepRefines(s1);
    hide Settles;
    SettlesNow(s2);
    s' := OwnerNext(s2).0;
    SettlesBefore(s1, 1, s', [], Return(Owner, PopBottom, Nothing));
    SettlesBefore(s, 2, s', [], Return(Owner, PopBottom, Nothing));
  }

  /** PopBottom takes the newest element in four steps, in six when it is the last one, or finds the
      deque empty after four. */
  lemma PopAlone<T(!new)>(s: State<T>) returns (s': State<T>)
    requires Inv(s) && s.owner == PopCalled
    ensures var q := Contents(s);
      Settles(s, PopSteps(|q|), s', Front(q), Return(Owner, PopBottom, Popped(q)))
  {
    hide Settles;
    var q := Contents(s);
    var r := Return(Owner, PopBottom, Popped(q));
    var s1 := OwnerNext(s).0;
    var s2 := OwnerNext(s1).0;
    OwnerStepRefines(s);
    if |q| == 0 {
      s' := PopEmpty(s1);
    } else {
      OwnerStepRefines(s1);
      if |q| == 1 {
        OwnerStepRefines(s2);
        s' := PopWins(OwnerNext(s2).0);
        SettlesBefore(s2, 3, s', Front(q), r);
        SettlesBefore(s1, 4, s', Front(q), r);
      } else {
        s' := PopTakes(s2);
        SettlesBefore(s1, 2, s', Front(q), r);
      }
    }
    SettlesBefore(s, PopSteps(|q|) - 1, s', Front(q), r);
  }

  // ---------------------------------------------------------------- in any reachable state

  lemma StealCalledNow<T(!new)>(mid: State<T>, k: nat)
    requires Inv(mid) && k < |mid.thieves| && mid.thieves[k] == Away
    ensures var called := Next(mid, CallSteal(k)).0;
      && Inv(called) && |called.thieves| == |mid.thieves| && called.thieves[k] == StealCalled
      && called.owner == mid.owner && Contents(called) == Contents(mid)
  {
    StepRefines(mid, CallSteal(k));
  }

  /** From every reachable state a thief that is not disturbed steals the oldest element. */
  lemma UndisturbedSteal<T(!new)>(s: State<T>, actions: seq<Action<T>>, k: nat)
    requires Init(s) && k < |s.thieves|
    requires Exec(s, actions).0.thieves[k] == Away && !Undecided(Exec(s, actions).0.owner)
    requires Exec(s, actions).0.top < End(Exec(s, actions).0)
    ensures var mid := Exec(s, actions).0;
      var (s', events) := Exec(s, actions + [CallSteal(k)] + Times(ThiefStep(k), 5));
      && Inv(mid) && Inv(s') && Contents(mid) != [] && Contents(s') == Contents(mid)[1..]
      && |events| > 0 && events[|events| - 1] == Return(Thief(k), PopTop, Got(Contents(mid)[0]))
  {
    Linearizable(s, actions);
    var mid := Exec(s, actions).0;
    assert Contents(mid) != [];
    hide Exec, Times, Contents, Inv, Init, Next, End;
    StealCalledNow(mid, k);
    CallThen(s, actions, CallSteal(k), Times(ThiefStep(k), 5));
    var s' := StealTakesOldest(Next(mid, CallSteal(k)).0, k);
  }

  /** So does an owner append its task, unless the ring is full. */
  lemma UndisturbedPush<T(!new)>(s: State<T>, actions: seq<Action<T>>, x: T)
    requires Init(s) && Exec(s, actions).0.owner == Idle
    ensures var mid := Exec(s, actions).0;
      && Inv(mid)
      && var q, room := Contents(mid), |Contents(mid)| < |mid.slots|;
      var (s', events) := Exec(s, actions + [CallPush(x)] + Times(OwnerStep, PushSteps(room)));
      && Inv(s') && Contents(s') == (if room then q + [x] else q) && |events| > 0
      && events[|events| - 1] == Return(Owner, PushBottom(x), if room then Accepted else Full)
  {
    Linearizable(s, actions);
    var mid := Exec(s, actions).0;
    StepRefines(mid, CallPush(x));
    CallThen(s, actions, CallPush(x), Times(OwnerStep, PushSteps(|Contents(mid)| < |mid.slots|)));
    var s' := PushAlone(Next(mid, CallPush(x)).0, x);
    hide Exec, Times, Contents, Inv, Init, OwnerNext, ThiefNext;
  }

  /** And it takes back the newest element. */
  lemma UndisturbedPop<T(!new)>(s: State<T>, actions: seq<Action<T>>)
    requires Init(s) && Exec(s, actions).0.owner == Idle
    ensures var mid := Exec(s, actions).0;
      && Inv(mid)
      && var q := Contents(mid);
      var (s', events) := Exec(s, actions + [CallPop] + Times(OwnerStep, PopSteps(|q|)));
      && Inv(s') && Contents(s') == Front(q) && |events| > 0
      && events[|events| - 1] == Return(Owner, PopBottom, Popped(q))
  {
    Linearizable(s, actions);
    var mid := Exec(s, actions).0;
    StepRefines(mid, CallPop);
    CallThen(s, actions, CallPop, Times(OwnerStep, PopSteps(|Contents(mid)|)));
    var s' := PopAlone(Next(mid, CallPop).0);
    hide Exec, Times, Contents, Inv, Init, OwnerNext, ThiefNext;
  }

  lemma CallThen<T(!new)>(s: State<T>, actions: seq<Action<T>>, call: Action<T>, rest: seq<Action<T>>)
    requires |s.slots| > 0
    ensures var called := Next(Exec(s, actions).0, call).0;
      var (s', events) := Exec(s, actions + [call] + rest);
      && s' == Exec(called, rest).0
      && events == Exec(s, actions + [call]).1 + Exec(called, rest).1
  {
    hide Next;
    ExecOn(s, actions + [call], rest);
    assert (actions + [call])[..|actions|] == actions;
  }
}
