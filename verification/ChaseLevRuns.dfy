/** Runs of the Chase-Lev deque: every interleaving of owner and thief steps is linearisable to
    the sequential bounded deque, and no task is lost or returned twice. */
module ChaseLevRuns {
  import opened Deque
  import opened ChaseLevSteps
  import opened Multisets

  /** The state and the events after performing the actions from `s`. */
  function Exec<T(==)>(s: State<T>, actions: seq<Action<T>>): (r: (State<T>, seq<Event<T>>))
    requires |s.slots| > 0
    ensures |r.0.slots| == |s.slots| && |r.0.thieves| == |s.thieves|
  {
    if actions == [] then (s, [])
    else
      var (mid, events) := Exec(s, actions[..|actions| - 1]);
      var (s', e) := Next(mid, actions[|actions| - 1]);
      (s', events + [e])
  }

  // ---------------------------------------------------------------- specifications of histories

  ghost predicate Performs<T(!new)>(capacity: nat, q: seq<T>, e: Event<T>, q': seq<T>) {
    if e.Effect? then Legal(capacity, q, e.op, e.res, q') else q' == q
  }

  /** The effects, performed one after the other on an initially empty sequential deque, are all
      legal and lead to `q`. */
  ghost predicate Replays<T(!new)>(capacity: nat, events: seq<Event<T>>, q: seq<T>) {
    if events == [] then q == []
    else
      var front, e := events[..|events| - 1], events[|events| - 1];
      exists p :: Replays(capacity, front, p) && Performs(capacity, p, e, q)
  }

  datatype CallState<T> = Between | InCall(op: Op<T>) | Decided(op: Op<T>, res: Result<T>)

  /** What an event makes of one actor's call; None when it is out of order for that actor. */
  function Advance<T(==)>(c: CallState<T>, who: Actor, e: Event<T>): Option<CallState<T>> {
    match e
    case Internal => Some(c)
    case Invoke(w, op) => if w != who then Some(c) else if c == Between then Some(InCall(op)) else None
    case Effect(w, op, r) =>
      if w != who then Some(c) else if c == InCall(op) then Some(Decided(op, r)) else None
    case Return(w, op, r) =>
      if w != who then Some(c) else if c == Decided(op, r) then Some(Between) else None
  }

  /** Follows one actor through the events; None when they are not a sequence of calls, each
      invoked, then taking effect once, then returning what the effect decided. */
  function Track<T(==)>(who: Actor, events: seq<Event<T>>): Option<CallState<T>> {
    if events == [] then Some(Between)
    else
      match Track(who, events[..|events| - 1])
      case None => None
      case Some(c) => Advance(c, who, events[|events| - 1])
  }

  ghost function Gained<T>(r: Result<T>): multiset<T> {
    if r.Got? then multiset{r.task} else multiset{}
  }

  ghost function Pushing<T>(e: Event<T>): multiset<T> {
    if e.Effect? && e.op.PushBottom? && e.res.Accepted? then multiset{e.op.task} else multiset{}
  }

  ghost function Returning<T>(e: Event<T>): multiset<T> {
    if e.Return? then Gained(e.res) else multiset{}
  }

  ghost function Deciding<T>(e: Event<T>): multiset<T> {
    if e.Effect? then Gained(e.res) else multiset{}
  }

  /** Tasks accepted by PushBottom, with multiplicity. */
  ghost function Pushed<T>(events: seq<Event<T>>): multiset<T> {
    if events == [] then multiset{}
    else Pushed(events[..|events| - 1]) + Pushing(events[|events| - 1])
  }

  /** Tasks handed to callers by returning pops. */
  ghost function Returned<T>(events: seq<Event<T>>): multiset<T> {
    if events == [] then multiset{}
    else Returned(events[..|events| - 1]) + Returning(events[|events| - 1])
  }

  // ---------------------------------------------------------------- what the state says of the calls

  function CallOf<T>(s: State<T>, who: Actor): CallState<T>
    requires who.Thief? ==> who.id < |s.thieves|
  {
    match who
    case Owner => (
      match s.owner
      case Idle => Between
      case PushCalled(x) => InCall(PushBottom(x))
      case PushLoadedBottom(x, _) => InCall(PushBottom(x))
      case PushChecked(x, _) => InCall(PushBottom(x))
      case PushWritten(x, _) => InCall(PushBottom(x))
      case PushDone(x, ok) => Decided(PushBottom(x), if ok then Accepted else Full)
      case PopRestore(_, r) => Decided(PopBottom, r)
      case PopDone(r) => Decided(PopBottom, r)
      case _ => InCall(PopBottom)
    )
    case Thief(i) => (
      match s.thieves[i]
      case Away => Between
      case StealDone(r) => Decided(PopTop, r)
      case _ => InCall(PopTop)
    )
  }

  /** The result a call has been decided to return; Nothing for an undecided call. */
  function OwnerOutcome<T>(pc: OwnerPc<T>): Result<T> {
    if pc.PopRestore? || pc.PopDone? then pc.res else Nothing
  }

  function ThiefOutcome<T>(pc: ThiefPc<T>): Result<T> {
    if pc.StealDone? then pc.res else Nothing
  }

  ghost function Outcomes<T>(pcs: seq<ThiefPc<T>>): seq<multiset<T>> {
    seq(|pcs|, i requires 0 <= i < |pcs| => Gained(ThiefOutcome(pcs[i])))
  }

  ghost function HeldByThieves<T>(pcs: seq<ThiefPc<T>>): multiset<T> {
    Sum(Outcomes(pcs))
  }

  /** Tasks claimed by calls that have not returned yet. */
  ghost function Claimed<T>(s: State<T>): multiset<T> {
    Gained(OwnerOutcome(s.owner)) + HeldByThieves(s.thieves)
  }

  lemma HeldUpdate<T(!new)>(pcs: seq<ThiefPc<T>>, i: nat, pc: ThiefPc<T>)
    requires i < |pcs|
    ensures HeldByThieves(pcs[i := pc]) + Gained(ThiefOutcome(pcs[i])) == HeldByThieves(pcs) + Gained(ThiefOutcome(pc))
  {
    assert Outcomes(pcs[i := pc]) == Outcomes(pcs)[i := Gained(ThiefOutcome(pc))];
    SumUpdate(Outcomes(pcs), i, Gained(ThiefOutcome(pc)));
  }

  // ---------------------------------------------------------------- one step

  lemma StepRefines<T(!new)>(s: State<T>, a: Action<T>)
    requires Inv(s)
    ensures var (s', e) := Next(s, a);
      && Inv(s')
      && s'.top >= s.top
      && (if e.Effect? then Legal(|s.slots|, Contents(s), e.op, e.res, Contents(s'))
          else Contents(s') == Contents(s))
  {
    hide OwnerNext, ThiefNext;
    match a
    case OwnerStep => OwnerStepRefines(s);
    case ThiefStep(i) => if i < |s.thieves| { ThiefStepRefines(s, i); }
    case _ =>
      var s' := Next(s, a).0;
      assert forall i | 0 <= i < |s.thieves| :: ThiefOk(s, s.thieves[i]);
      ContentsMove(s, s');
  }

  lemma OwnerTracks<T(!new)>(s: State<T>)
    requires |s.slots| > 0
    ensures Advance(CallOf(s, Owner), Owner, OwnerNext(s).1) == Some(CallOf(OwnerNext(s).0, Owner))
  {}

  lemma ThiefTracks<T(!new)>(s: State<T>, i: nat)
    requires |s.slots| > 0 && i < |s.thieves|
    ensures Advance(CallOf(s, Thief(i)), Thief(i), ThiefNext(s, i).1)
         == Some(CallOf(ThiefNext(s, i).0, Thief(i)))
  {}

  /** An event moves the call state of the actor it belongs to and of no other. */
  lemma StepTracks<T(!new)>(s: State<T>, a: Action<T>, who: Actor)
    requires |s.slots| > 0 && (who.Thief? ==> who.id < |s.thieves|)
    ensures Advance(CallOf(s, who), who, Next(s, a).1) == Some(CallOf(Next(s, a).0, who))
  {
    match a
    case OwnerStep => if who.Owner? { OwnerTracks(s); }
    case ThiefStep(i) => if who == Thief(i) { ThiefTracks(s, i); }
    case _ =>
  }

  /** An effect moves one task between the deque and the hands of its caller. */
  lemma LegalConserves<T(!new)>(capacity: nat, q: seq<T>, e: Event<T>, q': seq<T>)
    requires Performs(capacity, q, e, q')
    ensures multiset(q) + Pushing(e) == multiset(q') + Deciding(e)
  {
    if e.Effect? && e.res.Got? {
      assert q == [q[0]] + q[1..] && q == q[..|q| - 1] + [q[|q| - 1]];
    }
  }

  /** An effect puts its result in its caller's hands; the return takes it out again. */
  ghost predicate HandsMove<T(!new)>(held: Result<T>, e: Event<T>, held': Result<T>) {
    match e
    case Effect(_, _, r) => !held.Got? && (held' == r || !(held'.Got? || r.Got?))
    case Return(_, _, r) => (held == r || !(held.Got? || r.Got?)) && !held'.Got?
    case _ => held' == held
  }

  lemma OwnerClaims<T(!new)>(s: State<T>)
    requires |s.slots| > 0
    ensures HandsMove(OwnerOutcome(s.owner), OwnerNext(s).1, OwnerOutcome(OwnerNext(s).0.owner))
  {}

  lemma ThiefClaims<T(!new)>(s: State<T>, i: nat)
    requires |s.slots| > 0 && i < |s.thieves|
    ensures var (s', e) := ThiefNext(s, i);
      && s'.owner == s.owner && s'.thieves == s.thieves[i := s'.thieves[i]]
      && HandsMove(ThiefOutcome(s.thieves[i]), e, ThiefOutcome(s'.thieves[i]))
  {}

  lemma HandsBalance<T(!new)>(held: Result<T>, e: Event<T>, held': Result<T>)
    requires HandsMove(held, e, held')
    ensures Gained(held') + Returning(e) == Gained(held) + Deciding(e)
  {}

  lemma Exchange<T(!new)>(x: multiset<T>, x': multiset<T>,
          o: multiset<T>, n: multiset<T>, r: multiset<T>, d: multiset<T>)
    requires x' + o == x + n && n + r == o + d
    ensures x' + r == x + d
  {
    forall t ensures (x' + r)[t] == (x + d)[t] {
      assert (x' + o)[t] == (x + n)[t] && (n + r)[t] == (o + d)[t];
    }
  }

  lemma ThiefBalance<T(!new)>(s: State<T>, i: nat)
    requires |s.slots| > 0 && i < |s.thieves|
    ensures var (s', e) := ThiefNext(s, i);
      s'.owner == s.owner && HeldByThieves(s'.thieves) + Returning(e) == HeldByThieves(s.thieves) + Deciding(e)
  {
    var (s', e) := ThiefNext(s, i);
    ThiefClaims(s, i);
    var before, after := ThiefOutcome(s.thieves[i]), ThiefOutcome(s'.thieves[i]);
    HandsBalance(before, e, after);
    HeldUpdate(s.thieves, i, s'.thieves[i]);
    Exchange(HeldByThieves(s.thieves), HeldByThieves(s'.thieves), Gained(before), Gained(after),
             Returning(e), Deciding(e));
  }

  lemma OwnerBalance<T(!new)>(s: State<T>)
    requires |s.slots| > 0
    ensures var (s', e) := OwnerNext(s);
      && s'.thieves == s.thieves
      && Gained(OwnerOutcome(s'.owner)) + Returning(e) == Gained(OwnerOutcome(s.owner)) + Deciding(e)
  {
    var (s', e) := OwnerNext(s);
    OwnerClaims(s);
    HandsBalance(OwnerOutcome(s.owner), e, OwnerOutcome(s'.owner));
  }

  lemma AddSame<T(!new)>(a: multiset<T>, b: multiset<T>, c: multiset<T>, d: multiset<T>, same: multiset<T>)
    requires a + b == c + d
    ensures (a + same) + b == (c + same) + d && (same + a) + b == (same + c) + d
  {
    assert (a + same) + b == (a + b) + same && (same + a) + b == (a + b) + same;
  }

  lemma CallHoldsNothing<T(!new)>(pcs: seq<ThiefPc<T>>, i: nat)
    requires i < |pcs| && pcs[i] == Away
    ensures HeldByThieves(pcs[i := StealCalled]) == HeldByThieves(pcs)
  {
    HeldUpdate(pcs, i, StealCalled);
    var none, before, after := multiset{}, HeldByThieves(pcs), HeldByThieves(pcs[i := StealCalled]);
    assert Gained<T>(ThiefOutcome(StealCalled)) == none && Gained(ThiefOutcome(pcs[i])) == none;
    assert after == after + none && before == before + none;
  }

  /** The balance over all hands is that of the one actor that moved. */
  lemma ClaimedMoves<T(!new)>(s: State<T>, a: Action<T>)
    requires |s.slots| > 0
    ensures Claimed(Next(s, a).0) + Returning(Next(s, a).1) == Claimed(s) + Deciding(Next(s, a).1)
  {
    hide OwnerNext, ThiefNext, HeldByThieves;
    var (s', e) := Next(s, a);
    if a.ThiefStep? && a.id < |s.thieves| {
      ThiefBalance(s, a.id);
      AddSame(HeldByThieves(s'.thieves), Returning(e), HeldByThieves(s.thieves), Deciding(e),
              Gained(OwnerOutcome(s.owner)));
    } else if a.OwnerStep? {
      OwnerBalance(s);
      AddSame(Gained(OwnerOutcome(s'.owner)), Returning(e), Gained(OwnerOutcome(s.owner)), Deciding(e),
              HeldByThieves(s.thieves));
    } else if a.CallSteal? && a.id < |s.thieves| && s.thieves[a.id] == Away {
      CallHoldsNothing(s.thieves, a.id);
    }
  }

  // ---------------------------------------------------------------- whole runs

  /** Linearisability: in every interleaving the calls take effect one at a time as a sequential
      bounded deque would, each between its invocation and its return, and return exactly what
      the effect decided. */
  lemma {:induction false} Linearizable<T(!new)>(s: State<T>, actions: seq<Action<T>>)
    requires Init(s)
    ensures var (s', events) := Exec(s, actions);
      && Inv(s')
      && Replays(|s.slots|, events, Contents(s'))
      && forall who: Actor :: (who.Thief? ==> who.id < |s.thieves|) ==>
           Track(who, events) == Some(CallOf(s', who))
  {
    hide OwnerNext, ThiefNext;
    if actions == [] {
      assert Contents(s) == [];
    } else {
      var front := actions[..|actions| - 1];
      var a := actions[|actions| - 1];
      Linearizable(s, front);
      var (mid, events) := Exec(s, front);
      var (s', e) := Next(mid, a);
      StepRefines(mid, a);
      assert (events + [e])[..|events|] == events;
      assert Performs(|s.slots|, Contents(mid), e, Contents(s'));
      forall who: Actor | who.Thief? ==> who.id < |s.thieves|
        ensures Track(who, events + [e]) == Some(CallOf(s', who))
      {
        StepTracks(mid, a, who);
      }
    }
  }

  lemma Settle<T(!new)>(pushed: multiset<T>, returned: multiset<T>, q: multiset<T>, q': multiset<T>,
                        hands: multiset<T>, hands': multiset<T>, e: Event<T>)
    requires pushed == returned + q + hands
    requires q + Pushing(e) == q' + Deciding(e)
    requires hands' + Returning(e) == hands + Deciding(e)
    ensures pushed + Pushing(e) == (returned + Returning(e)) + q' + hands'
  {
    var p, d, r := Pushing(e), Deciding(e), Returning(e);
    forall t ensures (pushed + p)[t] == ((returned + r) + q' + hands')[t] {
      assert (q + p)[t] == (q' + d)[t] && (hands' + r)[t] == (hands + d)[t];
    }
  }

  /** Pushed equals returned plus still queued plus claimed by a call in progress. */
  lemma {:induction false} Conservation<T(!new)>(s: State<T>, actions: seq<Action<T>>)
    requires Init(s)
    ensures var (s', events) := Exec(s, actions);
      && Inv(s')
      && Pushed(events) == Returned(events) + multiset(Contents(s')) + Claimed(s')
  {
    hide OwnerNext, ThiefNext;
    Linearizable(s, actions);
    if actions == [] {
      SumOfEmpty(Outcomes(s.thieves));
      assert Contents(s) == [];
    } else {
      var front := actions[..|actions| - 1];
      var a := actions[|actions| - 1];
      Conservation(s, front);
      var (mid, events) := Exec(s, front);
      var (s', e) := Next(mid, a);
      StepRefines(mid, a);
      LegalConserves(|s.slots|, Contents(mid), e, Contents(s'));
      ClaimedMoves(mid, a);
      assert (events + [e])[..|events|] == events;
      Settle(Pushed(events), Returned(events), multiset(Contents(mid)), multiset(Contents(s')),
             Claimed(mid), Claimed(s'), e);
    }
  }

  /** When the tasks pushed are distinct, none is returned twice, and none that was returned is
      still in the deque or in another caller's hands. */
  lemma AtMostOnce<T(!new)>(s: State<T>, actions: seq<Action<T>>, x: T)
    requires Init(s)
    requires Pushed(Exec(s, actions).1)[x] <= 1
    ensures var (s', events) := Exec(s, actions);
      && Inv(s')
      && Returned(events)[x] <= 1
      && (x in Returned(events) ==> x !in Contents(s') && x !in Claimed(s'))
  {
    Conservation(s, actions);
    var q := Contents(Exec(s, actions).0);
    assert x in q ==> multiset(q)[x] > 0;
  }

  /** Thieves only ever move top forward, and the deque never exceeds its ring. */
  lemma {:induction false} TopNeverDecreases<T(!new)>(s: State<T>, before: seq<Action<T>>, after: seq<Action<T>>)
    requires Init(s)
    ensures Exec(s, before + after).0.top >= Exec(s, before).0.top
    decreases |after|
  {
    hide OwnerNext, ThiefNext;
    if after == [] {
      assert before + after == before;
    } else {
      var front := after[..|after| - 1];
      TopNeverDecreases(s, before, front);
      assert (before + after)[..|before + after| - 1] == before + front;
      Linearizable(s, before + front);
      StepRefines(Exec(s, before + front).0, after[|after| - 1]);
    }
  }
}
