/** What a second caller of PushBottom does to the deque: the algorithm allows for one owner only. */
module ChaseLevTwoCallers {
  import opened Deque
  import opened ChaseLevSteps

  /** The deque with two callers at its bottom: `second` is where the other one stands. */
  datatype TwoCallers = TwoCallers(deque: State<int>, second: OwnerPc<int>)

  datatype Move = Owns(a: Action<int>) | Intrudes(a: Action<int>)

  /** A step of the owner, or of the second caller in the owner's place. */
  function Make(s: TwoCallers, m: Move): (r: (TwoCallers, Event<int>))
    requires |s.deque.slots| > 0
    ensures |r.0.deque.slots| == |s.deque.slots|
  {
    match m
    case Owns(a) =>
      var (d, e) := Next(s.deque, a);
      (TwoCallers(d, s.second), e)
    case Intrudes(a) =>
      var (d, e) := Next(s.deque.(owner := s.second), a);
      (TwoCallers(d.(owner := s.deque.owner), d.owner), e)
  }

  /** The state and the events after the moves. */
  function Play(s: TwoCallers, moves: seq<Move>): (r: (TwoCallers, seq<Event<int>>))
    requires |s.deque.slots| > 0
    ensures |r.0.deque.slots| == |s.deque.slots|
    decreases |moves|
  {
    if moves == [] then (s, [])
    else
      var (s1, e) := Make(s, moves[0]);
      var (s', events) := Play(s1, moves[1..]);
      (s', [e] + events)
  }

  lemma {:induction false} PlayOn(s: TwoCallers, a: seq<Move>, b: seq<Move>)
    requires |s.deque.slots| > 0
    ensures Play(s, a + b) == (Play(Play(s, a).0, b).0, Play(s, a).1 + Play(Play(s, a).0, b).1)
    decreases |a|
  {
    if a == [] {
      assert a + b == b;
      assert [] + Play(s, b).1 == Play(s, b).1;
    } else {
      hide Make;
      var (s1, e) := Make(s, a[0]);
      assert (a + b)[0] == a[0] && (a + b)[1..] == a[1..] + b;
      PlayOn(s1, a[1..], b);
      var (s2, x) := Play(s1, a[1..]);
      var y := Play(s2, b).1;
      assert Play(s, a) == (s2, [e] + x);
      assert [e] + (x + y) == ([e] + x) + y;
    }
  }

  /** A deque of four slots with the given elements from slot 0. */
  function Holding(slots: seq<int>, bottom: int, second: OwnerPc<int>): TwoCallers {
    TwoCallers(State(slots, 0, bottom, Idle, []), second)
  }

  lemma PlayFirst(s: TwoCallers, m: Move, rest: seq<Move>)
    requires |s.deque.slots| > 0
    ensures Play(s, [m] + rest) == (Play(Make(s, m).0, rest).0, [Make(s, m).1] + Play(Make(s, m).0, rest).1)
  {
    assert ([m] + rest)[1..] == rest;
  }

  /** n steps of the owner, or of the second caller. */
  function StepsOf(owner: bool, n: nat): seq<Move> {
    if n == 0 then [] else [if owner then Owns(OwnerStep) else Intrudes(OwnerStep)] + StepsOf(owner, n - 1)
  }

  function Push(x: int): seq<Move> {
    [Owns(CallPush(x))] + StepsOf(true, 5)
  }

  function Pop(): seq<Move> {
    [Owns(CallPop)] + StepsOf(true, 4)
  }

  /** The second caller has loaded bottom and found room. */
  function IntrusionStarts(): seq<Move> {
    [Intrudes(CallPush(30))] + StepsOf(false, 2)
  }

  /** It fills its slot and stores bottom. */
  function IntrusionEnds(): seq<Move> {
    StepsOf(false, 2)
  }

  function Filling(): seq<Move> {
    Push(10) + Push(20)
  }

  function Intruded(): seq<Move> {
    IntrusionStarts() + (Pop() + IntrusionEnds())
  }

  function Start(): TwoCallers {
    Holding([0, 0, 0, 0], 0, Idle)
  }

  lemma Finished(s: TwoCallers, owner: bool)
    requires |s.deque.slots| > 0
    ensures Play(s, StepsOf(owner, 0)) == (s, [])
  {}

  lemma OneStep(s: TwoCallers, owner: bool, n: nat)
    requires |s.deque.slots| > 0 && n > 0
    ensures var (s1, e) := Make(s, if owner then Owns(OwnerStep) else Intrudes(OwnerStep));
      Play(s, StepsOf(owner, n)) == (Play(s1, StepsOf(owner, n - 1)).0, [e] + Play(s1, StepsOf(owner, n - 1)).1)
  {
    PlayFirst(s, if owner then Owns(OwnerStep) else Intrudes(OwnerStep), StepsOf(owner, n - 1));
  }

  lemma Pushes(slots: seq<int>, bottom: nat, x: int, second: OwnerPc<int>)
    requires |slots| == 4 && bottom < 4
    ensures Play(Holding(slots, bottom, second), Push(x)).0 == Holding(slots[bottom := x], bottom + 1, second)
  {
    hide Play, StepsOf;
    var s := Holding(slots, bottom, second);
    PlayFirst(s, Owns(CallPush(x)), StepsOf(true, 5));
    var s1 := s.(deque := s.deque.(owner := PushCalled(x)));
    OneStep(s1, true, 5);
    var s2 := s.(deque := s.deque.(owner := PushLoadedBottom(x, bottom)));
    OneStep(s2, true, 4);
    var s3 := s.(deque := s.deque.(owner := PushChecked(x, bottom)));
    OneStep(s3, true, 3);
    var s4 := s.(deque := State(slots[bottom := x], 0, bottom, PushWritten(x, bottom), []));
    OneStep(s4, true, 2);
    var s5 := s.(deque := State(slots[bottom := x], 0, bottom + 1, PushDone(x, true), []));
    OneStep(s5, true, 1);
    Finished(Holding(slots[bottom := x], bottom + 1, second), true);
  }

  /** With more than one element the owner pops the one below bottom. */
  lemma Pops(slots: seq<int>, bottom: nat, second: OwnerPc<int>)
    requires |slots| == 4 && 2 <= bottom <= 4
    ensures Play(Holding(slots, bottom, second), Pop()).0 == Holding(slots, bottom - 1, second)
    ensures Return(Owner, PopBottom, Got(slots[bottom - 1])) in Play(Holding(slots, bottom, second), Pop()).1
  {
    hide Play, StepsOf;
    var s := Holding(slots, bottom, second);
    PlayFirst(s, Owns(CallPop), StepsOf(true, 4));
    var s1 := s.(deque := s.deque.(owner := PopCalled));
    OneStep(s1, true, 4);
    var s2 := s.(deque := State(slots, 0, bottom - 1, PopDecremented(bottom - 1), []));
    OneStep(s2, true, 3);
    var s3 := s.(deque := State(slots, 0, bottom - 1, PopAbove(bottom - 1), []));
    OneStep(s3, true, 2);
    var s4 := s.(deque := State(slots, 0, bottom - 1, PopDone(Got(slots[bottom - 1])), []));
    OneStep(s4, true, 1);
    Finished(Holding(slots, bottom - 1, second), true);
  }

  lemma IntrusionStartsRun(slots: seq<int>)
    requires |slots| == 4
    ensures Play(Holding(slots, 2, Idle), IntrusionStarts()).0 == Holding(slots, 2, PushChecked(30, 2))
  {
    hide Play, StepsOf;
    var s := Holding(slots, 2, Idle);
    PlayFirst(s, Intrudes(CallPush(30)), StepsOf(false, 2));
    OneStep(s.(second := PushCalled(30)), false, 2);
    OneStep(s.(second := PushLoadedBottom(30, 2)), false, 1);
    Finished(Holding(slots, 2, PushChecked(30, 2)), false);
  }

  lemma IntrusionEndsRun(slots: seq<int>)
    requires |slots| == 4
    ensures Play(Holding(slots, 1, PushChecked(30, 2)), IntrusionEnds()).0 ==
      Holding(slots[2 := 30], 3, PushDone(30, true))
  {
    hide Play, StepsOf;
    OneStep(Holding(slots, 1, PushChecked(30, 2)), false, 2);
    OneStep(Holding(slots[2 := 30], 1, PushWritten(30, 2)), false, 1);
    Finished(Holding(slots[2 := 30], 3, PushDone(30, true)), false);
  }

  lemma Filled()
    ensures Play(Start(), Filling()).0 == Holding([10, 20, 0, 0], 2, Idle)
  {
    hide Play, Push, StepsOf, Make, Next, Init;
    PlayOn(Start(), Push(10), Push(20));
    Pushes([0, 0, 0, 0], 0, 10, Idle);
    Pushes([10, 0, 0, 0], 1, 20, Idle);
    assert [0, 0, 0, 0][0 := 10] == [10, 0, 0, 0] && [10, 0, 0, 0][1 := 20] == [10, 20, 0, 0];
  }

  /** The pop returns 20; the second caller's store of bottom then brings 20 back. */
  lemma BroughtBack()
    ensures var s := Holding([10, 20, 0, 0], 2, Idle);
      && Play(s, Intruded()).0 == Holding([10, 20, 30, 0], 3, PushDone(30, true))
      && Return(Owner, PopBottom, Got(20)) in Play(s, Intruded()).1
  {
    var slots := [10, 20, 0, 0];
    IntrusionStartsRun(slots);
    Pops(slots, 2, PushChecked(30, 2));
    IntrusionEndsRun(slots);
    hide Play, Pop, IntrusionStarts, IntrusionEnds;
    assert slots[2 := 30] == [10, 20, 30, 0];
    PlayOn(Holding(slots, 2, Idle), IntrusionStarts(), Pop() + IntrusionEnds());
    PlayOn(Holding(slots, 2, PushChecked(30, 2)), Pop(), IntrusionEnds());
  }

  /** The owner pushes 10 and 20 and pops three times while the second caller pushes 30. Task 20 was
      pushed once, and the first and the third pop both return it. */
  lemma ReturnedTwice()
    ensures Init(Start().deque)
    ensures var first := Play(Start(), Filling() + Intruded());
      var third := Play(Play(first.0, Pop()).0, Pop());
      && Return(Owner, PopBottom, Got(20)) in first.1
      && Return(Owner, PopBottom, Got(20)) in third.1
  {
    Filled();
    BroughtBack();
    Pops([10, 20, 30, 0], 3, PushDone(30, true));
    Pops([10, 20, 30, 0], 2, PushDone(30, true));
    hide Play, Pop, Filling, Intruded;
    PlayOn(Start(), Filling(), Intruded());
  }
}
