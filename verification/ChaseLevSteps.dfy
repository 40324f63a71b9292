/** The Chase-Lev deque as a transition system: one owner calling PushBottom and PopBottom, any
    number of thieves calling PopTop, and one transition for every atomic load, store, add,
    compare-and-swap and slot access. */
module ChaseLevSteps {
  import opened Deque
  import opened PowerOfTwo

  /** Where the owner stands in its call, with the call's local variables. */
  datatype OwnerPc<T> =
    | Idle
    | PushCalled(task: T)
    | PushLoadedBottom(task: T, b: int)
    | PushChecked(task: T, b: int)       // top loaded, room found
    | PushWritten(task: T, b: int)       // slot filled, bottom not yet advanced
    | PushDone(task: T, accepted: bool)
    | PopCalled
    | PopDecremented(b: int)             // bottom already lowered to b
    | PopAbove(b: int)                   // loaded top < b: b is taken without a CAS
    | PopEqual(b: int)                   // loaded top == b: the last element
    | PopContended(b: int, task: T)      // slot read, CAS on top pending
    | PopRestore(to: int, res: Result<T>) // outcome fixed, bottom to be stored
    | PopDone(res: Result<T>)

  datatype ThiefPc<T> =
    | Away
    | StealCalled
    | StealLoadedTop(t: int)
    | StealChecked(t: int)               // bottom loaded, t below it
    | StealRead(t: int, task: T)         // slot read, CAS on top pending
    | StealDone(res: Result<T>)

  datatype State<T> = State(
    slots: seq<T>, top: int, bottom: int, owner: OwnerPc<T>, thieves: seq<ThiefPc<T>>)

  datatype Actor = Owner | Thief(id: nat)

  datatype Action<T> = CallPush(task: T) | CallPop | OwnerStep | CallSteal(id: nat) | ThiefStep(id: nat)

  /** What an outside observer of the calls sees, plus the instant at which each takes effect. */
  datatype Event<T> =
    | Internal
    | Invoke(who: Actor, op: Op<T>)
    | Effect(who: Actor, op: Op<T>, res: Result<T>)
    | Return(who: Actor, op: Op<T>, res: Result<T>)

  ghost predicate Init<T(!new)>(s: State<T>) {
    && |s.slots| > 0
    && s.top == 0 && s.bottom == 0
    && s.owner == Idle
    && forall i | 0 <= i < |s.thieves| :: s.thieves[i] == Away
  }

  /** buffer[index & mask]; see PowerOfTwo for the mask being the remainder. */
  function Slot<T>(s: State<T>, i: int): T
    requires |s.slots| > 0
  {
    s.slots[i % |s.slots|]
  }

  // ---------------------------------------------------------------- transitions

  function OwnerNext<T(==)>(s: State<T>): (State<T>, Event<T>)
    requires |s.slots| > 0
  {
    match s.owner
    case Idle => (s, Internal)
    // PushBottom
    case PushCalled(x) => (s.(owner := PushLoadedBottom(x, s.bottom)), Internal)
    case PushLoadedBottom(x, b) =>
      if b - s.top >= |s.slots| then
        (s.(owner := PushDone(x, false)), Effect(Owner, PushBottom(x), Full))
      else
        (s.(owner := PushChecked(x, b)), Internal)
    case PushChecked(x, b) =>
      (s.(slots := s.slots[b % |s.slots| := x], owner := PushWritten(x, b)), Internal)
    case PushWritten(x, b) =>
      (s.(bottom := b + 1, owner := PushDone(x, true)), Effect(Owner, PushBottom(x), Accepted))
    case PushDone(x, ok) =>
      (s.(owner := Idle), Return(Owner, PushBottom(x), if ok then Accepted else Full))
    // PopBottom
    case PopCalled => (s.(bottom := s.bottom - 1, owner := PopDecremented(s.bottom - 1)), Internal)
    case PopDecremented(b) =>
      if b < s.top then
        (s.(owner := PopRestore(s.top, Nothing)), Effect(Owner, PopBottom, Nothing))
      else if b == s.top then
        (s.(owner := PopEqual(b)), Internal)
      else
        (s.(owner := PopAbove(b)), Internal)
    case PopAbove(b) =>
      (s.(owner := PopDone(Got(Slot(s, b)))), Effect(Owner, PopBottom, Got(Slot(s, b))))
    case PopEqual(b) => (s.(owner := PopContended(b, Slot(s, b))), Internal)
    case PopContended(b, x) =>
      if s.top == b then
        (s.(top := b + 1, owner := PopRestore(b + 1, Got(x))), Effect(Owner, PopBottom, Got(x)))
      else
        (s.(owner := PopRestore(b + 1, Nothing)), Effect(Owner, PopBottom, Nothing))
    case PopRestore(to, r) => (s.(bottom := to, owner := PopDone(r)), Internal)
    case PopDone(r) => (s.(owner := Idle), Return(Owner, PopBottom, r))
  }

  function ThiefNext<T(==)>(s: State<T>, i: nat): (State<T>, Event<T>)
    requires |s.slots| > 0 && i < |s.thieves|
  {
    var me := Thief(i);
    match s.thieves[i]
    case Away => (s, Internal)
    case StealCalled => (s.(thieves := s.thieves[i := StealLoadedTop(s.top)]), Internal)
    case StealLoadedTop(t) =>
      if t >= s.bottom then
        (s.(thieves := s.thieves[i := StealDone(Nothing)]), Effect(me, PopTop, Nothing))
      else
        (s.(thieves := s.thieves[i := StealChecked(t)]), Internal)
    case StealChecked(t) => (s.(thieves := s.thieves[i := StealRead(t, Slot(s, t))]), Internal)
    case StealRead(t, x) =>
      if s.top == t then
        (s.(top := t + 1, thieves := s.thieves[i := StealDone(Got(x))]), Effect(me, PopTop, Got(x)))
      else
        (s.(thieves := s.thieves[i := StealDone(Nothing)]), Effect(me, PopTop, Nothing))
    case StealDone(r) => (s.(thieves := s.thieves[i := Away]), Return(me, PopTop, r))
  }

  /** A call is possible only between calls; an action that is not possible changes nothing. */
  function Next<T(==)>(s: State<T>, a: Action<T>): (r: (State<T>, Event<T>))
    requires |s.slots| > 0
    ensures |r.0.slots| == |s.slots| && |r.0.thieves| == |s.thieves|
  {
    match a
    case CallPush(x) =>
      if s.owner == Idle then (s.(owner := PushCalled(x)), Invoke(Owner, PushBottom(x))) else (s, Internal)
    case CallPop =>
      if s.owner == Idle then (s.(owner := PopCalled), Invoke(Owner, PopBottom)) else (s, Internal)
    case OwnerStep => OwnerNext(s)
    case CallSteal(i) =>
      if i < |s.thieves| && s.thieves[i] == Away then
        (s.(thieves := s.thieves[i := StealCalled]), Invoke(Thief(i), PopTop))
      else
        (s, Internal)
    case ThiefStep(i) => if i < |s.thieves| then ThiefNext(s, i) else (s, Internal)
  }

  // ---------------------------------------------------------------- the invariant

  /** A pop has lowered bottom and its element, if any, has not been decided. */
  predicate Undecided<T>(pc: OwnerPc<T>) {
    pc.PopDecremented? || pc.PopAbove? || pc.PopEqual? || pc.PopContended?
  }

  /** One past the newest element: bottom, except while a pop has it lowered. */
  function End<T>(s: State<T>): int {
    if Undecided(s.owner) || s.owner.PopRestore? then s.bottom + 1 else s.bottom
  }

  /** The elements the deque holds, oldest first. */
  function Contents<T>(s: State<T>): (q: seq<T>)
    requires |s.slots| > 0 && s.top <= End(s)
  {
    seq(End(s) - s.top, i requires 0 <= i < End(s) - s.top => Slot(s, s.top + i))
  }

  ghost predicate OwnerOk<T(!new)>(s: State<T>)
    requires |s.slots| > 0
  {
    match s.owner
    case PushLoadedBottom(_, b) => b == s.bottom
    case PushChecked(_, b) => b == s.bottom && b - s.top < |s.slots|
    case PushWritten(x, b) => b == s.bottom && b - s.top < |s.slots| && Slot(s, b) == x
    case PopDecremented(b) => b == s.bottom
    case PopAbove(b) => b == s.bottom && s.top <= b
    case PopEqual(b) => b == s.bottom && b <= s.top
    case PopContended(b, x) => b == s.bottom && b <= s.top && Slot(s, b) == x
    case PopRestore(to, _) => to == s.bottom + 1 && s.top == to
    case _ => true
  }

  /** A thief past its emptiness check whose top is still current aims at an element that is
      present: below bottom, or the last one while the owner has yet to win it by CAS. */
  ghost predicate AimOk<T(!new)>(s: State<T>, t: int) {
    t <= s.top
    && (t == s.top ==>
          t < s.bottom || (t == s.bottom && Undecided(s.owner) && !s.owner.PopAbove?))
  }

  ghost predicate ThiefOk<T(!new)>(s: State<T>, pc: ThiefPc<T>)
    requires |s.slots| > 0
  {
    match pc
    case StealLoadedTop(t) => t <= s.top
    case StealChecked(t) => AimOk(s, t)
    case StealRead(t, x) => AimOk(s, t) && (t == s.top ==> x == Slot(s, t))
    case _ => true
  }

  ghost predicate Inv<T(!new)>(s: State<T>) {
    && |s.slots| > 0
    && 0 <= s.top <= End(s) <= s.top + |s.slots|
    && OwnerOk(s)
    && forall i | 0 <= i < |s.thieves| :: ThiefOk(s, s.thieves[i])
  }

  // ---------------------------------------------------------------- one step

  /** The three ways a step can move the contents. */
  lemma ContentsMove<T(!new)>(s: State<T>, s': State<T>)
    requires |s.slots| > 0 && |s'.slots| > 0 && s.top <= End(s) && s'.top <= End(s')
    requires forall i | s.top <= i < End(s) && s'.top <= i < End(s') :: Slot(s', i) == Slot(s, i)
    ensures s'.top == s.top && End(s') == End(s) ==> Contents(s') == Contents(s)
    ensures s'.top == s.top && End(s') == End(s) + 1 ==>
              Contents(s') == Contents(s) + [Slot(s', End(s))]
    ensures s'.top == s.top && End(s') == End(s) - 1 ==>
              Contents(s') == Contents(s)[..|Contents(s)| - 1]
    ensures s'.top == s.top + 1 && End(s') == End(s) ==> Contents(s') == Contents(s)[1..]
  {
    if s'.top == s.top + 1 && End(s') == End(s) {
      forall i | 0 <= i < |Contents(s')| ensures Contents(s')[i] == Contents(s)[1..][i] {
        assert Contents(s')[i] == Slot(s', s.top + (1 + i));
      }
    }
  }

  /** Filling the slot of a new element overwrites no element still in the deque. */
  lemma {:induction false} PushOverwritesNothing<T(!new)>(s: State<T>, i: int)
    requires Inv(s) && s.owner.PushChecked? && s.top <= i < End(s)
    ensures Slot(OwnerNext(s).0, i) == Slot(s, i)
  {
    DistinctSlots(i, s.bottom, |s.slots|);
  }

  lemma OwnerKeepsInv<T(!new)>(s: State<T>)
    requires Inv(s)
    ensures Inv(OwnerNext(s).0)
  {
    var s' := OwnerNext(s).0;
    forall i | s.top <= i < End(s) && s.owner.PushChecked? ensures Slot(s', i) == Slot(s, i) {
      PushOverwritesNothing(s, i);
    }
    forall i | 0 <= i < |s.thieves| ensures ThiefOk(s', s'.thieves[i]) {
      assert ThiefOk(s, s.thieves[i]);
    }
  }

  lemma OwnerStepRefines<T(!new)>(s: State<T>)
    requires Inv(s)
    ensures var (s', e) := OwnerNext(s);
      && Inv(s')
      && s'.top >= s.top && |s'.slots| == |s.slots| && |s'.thieves| == |s.thieves|
      && (if e.Effect? then Legal(|s.slots|, Contents(s), e.op, e.res, Contents(s'))
          else Contents(s') == Contents(s))
  {
    OwnerKeepsInv(s);
    var s' := OwnerNext(s).0;
    forall i | s.top <= i < End(s) && s.owner.PushChecked? ensures Slot(s', i) == Slot(s, i) {
      PushOverwritesNothing(s, i);
    }
    ContentsMove(s, s');
  }

  lemma ThiefStepRefines<T(!new)>(s: State<T>, k: nat)
    requires Inv(s) && k < |s.thieves|
    ensures var (s', e) := ThiefNext(s, k);
      && Inv(s')
      && s'.top >= s.top && |s'.slots| == |s.slots| && |s'.thieves| == |s.thieves|
      && (if e.Effect? then Legal(|s.slots|, Contents(s), e.op, e.res, Contents(s'))
          else Contents(s') == Contents(s))
  {
    var (s', e) := ThiefNext(s, k);
    assert ThiefOk(s, s.thieves[k]);
    ContentsMove(s, s');
  }

  /** PopTop gives up only on an empty deque, on a last element that a PopBottom is deciding, or
      because another call has claimed the oldest element since this one read top. */
  lemma GiveUpReasons<T(!new)>(s: State<T>, k: nat)
    requires Inv(s) && k < |s.thieves|
    requires ThiefNext(s, k).1 == Effect(Thief(k), PopTop, Nothing)
    ensures Contents(s) == []
         || (Undecided(s.owner) && |Contents(s)| == 1)
         || (s.thieves[k].StealLoadedTop? && s.thieves[k].t < s.top)
         || (s.thieves[k].StealRead? && s.thieves[k].t < s.top)
  {
    assert ThiefOk(s, s.thieves[k]);
  }
}
