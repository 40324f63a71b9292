/** What collecting a version chain keeps, and which reads it leaves unchanged. */
module GarbageCollection {
  import opened Deque
  import opened VersionLog

  /** At or above the cutoff, or the first committed version when nothing was kept before it. */
  ghost predicate Kept<V>(es: Chain<V>, before: int, i: nat)
    requires i < |es|
  {
    es[i].version.txID >= before ||
    (es[i].status == Committed && forall j | 0 <= j < i :: es[j].version.txID < before && es[j].status != Committed)
  }

  ghost function Survivors<V>(es: Chain<V>, before: int, i: nat): Chain<V>
    requires i <= |es|
    decreases |es| - i
  {
    if i == |es| then []
    else (if Kept(es, before, i) then [es[i]] else []) + Survivors(es, before, i + 1)
  }

  ghost predicate NoneKeptBefore<V>(es: Chain<V>, before: int, i: nat)
    requires i <= |es|
  {
    forall j | 0 <= j < i :: es[j].version.txID < before && es[j].status != Committed
  }

  lemma {:induction false} CollectSurvivors<V>(es: Chain<V>, before: int, i: nat)
    requires i <= |es|
    ensures Collect(es[i..], before, NoneKeptBefore(es, before, i)) == Survivors(es, before, i)
    decreases |es| - i
  {
    if i < |es| {
      assert es[i..][1..] == es[i + 1..];
      CollectSurvivors(es, before, i + 1);
    }
  }

  /** Collection leaves, in order, exactly the versions at or above the cutoff and the first
      committed version when none of those precedes it. */
  lemma GcExactly<V>(es: Chain<V>, before: int)
    ensures Gc(es, before) == Survivors(es, before, 0)
  {
    assert es[0..] == es;
    CollectSurvivors(es, before, 0);
  }

  lemma {:induction false} CollectTwice<V>(es: Chain<V>, before: int, first: bool)
    ensures Collect(Collect(es, before, first), before, first) == Collect(es, before, first)
  {
    if es != [] {
      if es[0].version.txID >= before || (es[0].status == Committed && first) {
        CollectTwice(es[1..], before, false);
        assert ([es[0]] + Collect(es[1..], before, false))[1..] == Collect(es[1..], before, false);
      } else {
        CollectTwice(es[1..], before, first);
      }
    }
  }

  /** A second collection with the same cutoff frees nothing. */
  lemma GcIdempotent<V>(es: Chain<V>, before: int)
    ensures Gc(Gc(es, before), before) == Gc(es, before)
  {
    CollectTwice(es, before, true);
  }

  lemma {:induction false} CollectKeepsAnswer<V>(es: Chain<V>, before: int, first: bool, txID: int)
    requires FindVersion(es, txID).status != NotFound && FindVersion(es, txID).version.txID >= before
    ensures FindVersion(Collect(es, before, first), txID) == FindVersion(es, txID)
  {
    if !Visible(es[0], txID) {
      var keep := es[0].version.txID >= before || (es[0].status == Committed && first);
      CollectKeepsAnswer(es[1..], before, if keep then false else first, txID);
    }
  }

  /** A read answered by a version at or above the cutoff is unchanged. */
  lemma GcKeepsRecentReads<V>(es: Chain<V>, before: int, txID: int)
    requires FindVersion(es, txID).status != NotFound && FindVersion(es, txID).version.txID >= before
    ensures FindVersion(Gc(es, before), txID) == FindVersion(es, txID)
  {
    CollectKeepsAnswer(es, before, true, txID);
  }

  // ---------------------------------------------------------------- exactly which reads survive

  /** The version answering the read, if any, is one that collection keeps. */
  ghost predicate AnswerKept<V>(es: Chain<V>, before: int, first: bool, txID: int) {
    es == [] ||
    var keep := es[0].version.txID >= before || (es[0].status == Committed && first);
    if Visible(es[0], txID) then keep else AnswerKept(es[1..], before, if keep then false else first, txID)
  }

  /** An answer from a collected chain is at or above the cutoff, or it is the first committed
      version; in either case collection had a reason to keep it. */
  lemma {:induction false} CollectAnswers<V>(es: Chain<V>, before: int, first: bool, txID: int)
    ensures var r := FindVersion(Collect(es, before, first), txID);
      r.status != NotFound ==> r.version.txID >= before || (first && r.status == Found)
  {
    if es != [] {
      var keep := es[0].version.txID >= before || (es[0].status == Committed && first);
      CollectAnswers(es[1..], before, if keep then false else first, txID);
    }
  }

  lemma {:induction false} CollectReadExactly<V>(es: Chain<V>, before: int, first: bool, txID: int)
    ensures FindVersion(Collect(es, before, first), txID) == FindVersion(es, txID)
      <==> AnswerKept(es, before, first, txID)
  {
    if es != [] {
      var keep := es[0].version.txID >= before || (es[0].status == Committed && first);
      CollectReadExactly(es[1..], before, if keep then false else first, txID);
      if Visible(es[0], txID) && !keep { CollectAnswers(es[1..], before, first, txID); }
    }
  }

  /** A read survives collection exactly when its answer does, versions written twice included. */
  lemma GcReadExactly<V>(es: Chain<V>, before: int, txID: int)
    ensures FindVersion(Gc(es, before), txID) == FindVersion(es, txID) <==> AnswerKept(es, before, true, txID)
  {
    CollectReadExactly(es, before, true, txID);
  }

  /** Nothing live lies below the cutoff, or the chain starts with a committed version below it,
      aborted versions below it aside. */
  ghost predicate SafeToCollect<V>(es: Chain<V>, before: int) {
    NothingBelow(es, before) ||
    (es != [] && es[0].version.txID < before &&
     (es[0].status == Committed || (es[0].status == Aborted && SafeToCollect(es[1..], before))))
  }

  ghost predicate NothingBelow<V>(es: Chain<V>, before: int) {
    forall i | 0 <= i < |es| :: es[i].version.txID >= before || es[i].status == Aborted
  }

  lemma {:induction false} NothingBelowKept<V>(es: Chain<V>, before: int, first: bool, txID: int)
    requires NothingBelow(es, before)
    ensures AnswerKept(es, before, first, txID)
  {
    if es != [] {
      var keep := es[0].version.txID >= before || (es[0].status == Committed && first);
      if !Visible(es[0], txID) {
        assert forall i | 0 <= i < |es[1..]| :: es[1..][i] == es[i + 1];
        NothingBelowKept(es[1..], before, if keep then false else first, txID);
      }
    }
  }

  /** Without a first committed version to keep, a read just at the cutoff survives only when
      nothing live lies below it. */
  lemma {:induction false} AtCutoff<V>(es: Chain<V>, before: int)
    requires AnswerKept(es, before, false, before)
    ensures NothingBelow(es, before)
  {
    if es != [] && !Visible(es[0], before) { AtCutoff(es[1..], before); }
  }

  lemma {:induction false} SafeKeepsAnswers<V>(es: Chain<V>, before: int, txID: int)
    requires SafeToCollect(es, before) && txID >= before
    ensures AnswerKept(es, before, true, txID)
  {
    if NothingBelow(es, before) {
      NothingBelowKept(es, before, true, txID);
    } else if es[0].status == Aborted {
      SafeKeepsAnswers(es[1..], before, txID);
    }
  }

  lemma {:induction false} KeptAnswersAreSafe<V>(es: Chain<V>, before: int)
    requires AnswerKept(es, before, true, before)
    ensures SafeToCollect(es, before)
  {
    if es != [] && !Visible(es[0], before) {
      if es[0].version.txID >= before {
        AtCutoff(es[1..], before);
        assert forall i | 1 <= i < |es| :: es[i] == es[1..][i - 1];
      } else {
        KeptAnswersAreSafe(es[1..], before);
      }
    }
  }

  /** All readers at or above the cutoff keep their reads exactly when the chain is safe to
      collect; the newest committed version below the cutoff is lost once a newer one is kept. */
  lemma GcSafeForReaders<V>(es: Chain<V>, before: int)
    ensures (forall txID | txID >= before :: FindVersion(Gc(es, before), txID) == FindVersion(es, txID))
       <==> SafeToCollect(es, before)
  {
    if SafeToCollect(es, before) {
      forall txID | txID >= before ensures FindVersion(Gc(es, before), txID) == FindVersion(es, txID) {
        SafeKeepsAnswers(es, before, txID);
        GcReadExactly(es, before, txID);
      }
    } else {
      GcReadExactly(es, before, before);
      if AnswerKept(es, before, true, before) { KeptAnswersAreSafe(es, before); }
      assert FindVersion(Gc(es, before), before) != FindVersion(es, before);
    }
  }

  /** Versions 5 and 1 committed, cutoff 3: reader 4 loses version 1. */
  lemma GcLosesSnapshot()
    ensures var es := [Entry(Version(5, 0), Some(50), Committed), Entry(Version(1, 0), Some(10), Committed)];
      FindVersion(es, 4).value == Some(10) && FindVersion(Gc(es, 3), 4) == Missing()
  {
    var es := [Entry(Version(5, 0), Some(50), Committed), Entry(Version(1, 0), Some(10), Committed)];
    assert es[1..] == [Entry(Version(1, 0), Some(10), Committed)];
    assert Collect(es[1..][1..], 3, false) == [];
    assert Collect(es[1..], 3, false) == [];
    assert Gc(es, 3) == [es[0]];
  }

  // ---------------------------------------------------------------- whole stores

  /** Number of versions over all keys. */
  ghost function Versions<K, V>(s: Store<K, V>): nat {
    if s == map[] then 0
    else
      var k := AnyKey(s);
      |s[k]| + Versions(s - {k})
  }

  ghost function AnyKey<K, V>(s: Store<K, V>): (k: K)
    requires s != map[]
    ensures k in s
  {
    var k :| k in s;
    k
  }

  /** Any key may be counted first. */
  lemma {:induction false} VersionsWithout<K, V>(s: Store<K, V>, k: K)
    requires k in s
    ensures Versions(s) == |s[k]| + Versions(s - {k})
    decreases |s|
  {
    var j := AnyKey(s);
    if j != k {
      VersionsWithout(s - {j}, k);
      VersionsWithout(s - {k}, j);
      assert s - {j} - {k} == s - {k} - {j};
    }
  }

  lemma VersionsUpdate<K, V>(s: Store<K, V>, k: K, es: Chain<V>)
    ensures Versions(s[k := es]) == Versions(s) - |ChainOf(s, k)| + |es|
  {
    VersionsWithout(s[k := es], k);
    assert s[k := es] - {k} == s - {k};
    if k in s { VersionsWithout(s, k); } else { assert s - {k} == s; }
  }

  /** No key is without versions, and there are n versions in all. */
  ghost predicate Counted<K, V>(s: Store<K, V>, n: int) {
    n == Versions(s) && forall k | k in s :: s[k] != []
  }

  lemma InstallCounted<K, V>(s: Store<K, V>, w: Write<K, V>, n: int)
    requires Counted(s, n)
    ensures Counted(Install(s, w), n + 1)
  {
    VersionsUpdate(s, w.key, Install(s, w)[w.key]);
  }

  lemma MarkSame<V>(es: Chain<V>, version: Version)
    ensures |Mark(es, version)| == |es|
  {}

  lemma CommitOneCounted<K, V>(s: Store<K, V>, w: Write<K, V>, n: int)
    requires Counted(s, n)
    ensures Counted(CommitOne(s, w), n)
  {
    if w.key in s {
      MarkSame(s[w.key], w.version);
      VersionsUpdate(s, w.key, Mark(s[w.key], w.version));
    }
  }

  /** Collecting one key; a key without versions goes. */
  function GcKey<K, V>(s: Store<K, V>, k: K, before: int): Store<K, V>
    requires k in s
  {
    if Gc(s[k], before) == [] then s - {k} else s[k := Gc(s[k], before)]
  }

  /** Collecting every key in `done`. */
  ghost function GcKeys<K, V>(s: Store<K, V>, done: set<K>, before: int): Store<K, V> {
    map k | k in s && (k in done ==> Gc(s[k], before) != []) :: if k in done then Gc(s[k], before) else s[k]
  }

  ghost function GcStore<K, V>(s: Store<K, V>, before: int): Store<K, V> {
    GcKeys(s, s.Keys, before)
  }

  /** Collecting a key in two steps: first its chain, then the key if the chain is empty. */
  lemma GcKeySteps<K, V>(s: Store<K, V>, k: K, before: int)
    requires k in s
    ensures var c := Gc(s[k], before); GcKey(s, k, before) == if c == [] then s[k := c] - {k} else s[k := c]
  {
    if Gc(s[k], before) == [] { assert s[k := Gc(s[k], before)] - {k} == s - {k}; }
  }

  lemma GcKeyFreed<K, V>(s: Store<K, V>, k: K, before: int)
    requires k in s
    ensures Versions(GcKey(s, k, before)) == Versions(s) - |s[k]| + |Gc(s[k], before)|
  {
    VersionsWithout(s, k);
    if Gc(s[k], before) != [] { VersionsUpdate(s, k, Gc(s[k], before)); }
  }

  lemma GcKeysStep<K, V>(s: Store<K, V>, done: set<K>, k: K, before: int)
    requires k in s && k !in done
    ensures k in GcKeys(s, done, before) && GcKey(GcKeys(s, done, before), k, before) == GcKeys(s, done + {k}, before)
  {}

  lemma NothingDone<K, V>(s: Store<K, V>, before: int)
    ensures GcKeys(s, {}, before) == s
  {}

  lemma CollectedCounted<K, V>(s: Store<K, V>, before: int)
    ensures Counted(GcStore(s, before), Versions(GcStore(s, before)))
  {}

  /** A read after a collection reads the collected chain of its key. */
  lemma GcStoreRead<K, V>(s: Store<K, V>, before: int, k: K, txID: int)
    ensures Read(GcStore(s, before), k, txID) == FindVersion(Gc(ChainOf(s, k), before), txID)
  {}

  /** Whatever the run before it, a collection leaves unchanged every read it answered with a
      version at or above the cutoff. */
  lemma GcKeepsRunReads<K, V>(ops: seq<Action<K, V>>, before: int, k: K, txID: int)
    requires Read(Run(ops), k, txID).status != NotFound && Read(Run(ops), k, txID).version.txID >= before
    ensures Read(GcStore(Run(ops), before), k, txID) == Read(Run(ops), k, txID)
  {
    GcStoreRead(Run(ops), before, k, txID);
    GcKeepsRecentReads(ChainOf(Run(ops), k), before, txID);
  }

  /** Collecting a whole store a second time with the same cutoff changes nothing. */
  lemma GcStoreIdempotent<K, V>(s: Store<K, V>, before: int)
    ensures GcStore(GcStore(s, before), before) == GcStore(s, before)
  {
    hide Gc;
    forall k | k in GcStore(s, before) ensures Gc(GcStore(s, before)[k], before) == GcStore(s, before)[k] {
      GcIdempotent(s[k], before);
    }
  }

  // ---------------------------------------------------------------- runs with collections

  datatype Operation<K, V> = Act(action: Action<K, V>) | Sweep(before: int)

  ghost function Perform<K, V>(s: Store<K, V>, op: Operation<K, V>): Store<K, V> {
    match op
    case Act(a) => Apply(s, a)
    case Sweep(before) => GcStore(s, before)
  }

  /** The store after a run of writes, commits and collections from empty. */
  ghost function RunSwept<K, V>(ops: seq<Operation<K, V>>): Store<K, V> {
    if ops == [] then map[] else Perform(RunSwept(ops[..|ops| - 1]), ops[|ops| - 1])
  }

  /** The same run without its collections. */
  function Unswept<K, V>(ops: seq<Operation<K, V>>): seq<Action<K, V>> {
    if ops == [] then []
    else
      var front := Unswept(ops[..|ops| - 1]);
      match ops[|ops| - 1]
      case Act(a) => front + [a]
      case Sweep(_) => front
  }

  ghost predicate SweepsUpTo<K, V>(ops: seq<Operation<K, V>>, bound: int) {
    forall i | 0 <= i < |ops| :: ops[i].Sweep? ==> ops[i].before <= bound
  }

  /** The versions at the front of a chain that lie at or above the bound. */
  function Lead<V>(es: Chain<V>, bound: int): Chain<V> {
    if es == [] || es[0].version.txID < bound then [] else [es[0]] + Lead(es[1..], bound)
  }

  lemma {:induction false} MarkKeepsLead<V>(es: Chain<V>, es': Chain<V>, v: Version, bound: int)
    requires Lead(es, bound) <= es'
    ensures Lead(Mark(es, v), bound) <= Mark(es', v)
  {
    if es != [] && es[0].version.txID >= bound {
      assert es'[0] == Lead(es, bound)[0] == es[0];
      if es[0].version.Compare(v) != 0 {
        assert Lead(es, bound)[1..] == Lead(es[1..], bound);
        MarkKeepsLead(es[1..], es'[1..], v, bound);
      }
    }
  }

  lemma {:induction false} CollectKeepsLead<V>(lead: Chain<V>, es': Chain<V>, before: int, first: bool)
    requires lead <= es' && forall i | 0 <= i < |lead| :: lead[i].version.txID >= before
    ensures lead <= Collect(es', before, first)
  {
    if lead != [] {
      assert es'[0] == lead[0];
      CollectKeepsLead(lead[1..], es'[1..], before, false);
    }
  }

  lemma {:induction false} LeadAtOrAbove<V>(es: Chain<V>, bound: int)
    ensures forall i | 0 <= i < |Lead(es, bound)| :: Lead(es, bound)[i].version.txID >= bound
  {
    if es != [] && es[0].version.txID >= bound { LeadAtOrAbove(es[1..], bound); }
  }

  lemma {:induction false} CommitKeepsLead<K, V>(s: Store<K, V>, s': Store<K, V>,
          ws: seq<Write<K, V>>, k: K, bound: int)
    requires Lead(ChainOf(s, k), bound) <= ChainOf(s', k)
    ensures Lead(ChainOf(Commit(s, ws), k), bound) <= ChainOf(Commit(s', ws), k)
  {
    if ws != [] {
      var front, last := ws[..|ws| - 1], ws[|ws| - 1];
      CommitKeepsLead(s, s', front, k, bound);
      CommitOneChain(Commit(s, front), last, k);
      CommitOneChain(Commit(s', front), last, k);
      hide CommitOne, ChainOf;
      if last.key == k {
        MarkKeepsLead(ChainOf(Commit(s, front), k), ChainOf(Commit(s', front), k), last.version, bound);
      }
    }
  }

  lemma CommitOneChain<K, V>(s: Store<K, V>, w: Write<K, V>, k: K)
    ensures ChainOf(CommitOne(s, w), k) == if w.key == k then Mark(ChainOf(s, k), w.version) else ChainOf(s, k)
  {}

  /** Collections never touch the leading versions at or above their cutoffs. */
  lemma {:induction false} SweptKeepsLead<K, V>(ops: seq<Operation<K, V>>, bound: int, k: K)
    requires SweepsUpTo(ops, bound)
    ensures Lead(ChainOf(Run(Unswept(ops)), k), bound) <= ChainOf(RunSwept(ops), k)
  {
    if ops != [] {
      var front, op := ops[..|ops| - 1], ops[|ops| - 1];
      assert forall i | 0 <= i < |front| :: front[i] == ops[i];
      SweptKeepsLead(front, bound, k);
      var s, s' := Run(Unswept(front)), RunSwept(front);
      match op
      case Act(a) =>
        assert Unswept(ops)[..|Unswept(front)|] == Unswept(front);
        match a {
          case Put(w) =>
            if w.key == k { PutKeepsLead(ChainOf(s, k), ChainOf(s', k), Entry(w.version, w.value, Estimate), bound); }
          case CommitAll(ws) => CommitKeepsLead(s, s', ws, k, bound);
        }
      case Sweep(before) =>
        LeadAtOrAbove(ChainOf(s, k), bound);
        CollectKeepsLead(Lead(ChainOf(s, k), bound), ChainOf(s', k), before, true);
    }
  }

  lemma PutKeepsLead<V>(es: Chain<V>, es': Chain<V>, e: Entry<V>, bound: int)
    requires Lead(es, bound) <= es'
    ensures Lead([e] + es, bound) <= [e] + es'
  {
    assert ([e] + es)[1..] == es;
  }

  lemma {:induction false} LeadAnswers<V>(es: Chain<V>, es': Chain<V>, bound: int, txID: int)
    requires Lead(es, bound) <= es' && forall i | 0 <= i < |es| :: es[i].status != Aborted
    requires FindVersion(es, txID).status != NotFound && FindVersion(es, txID).version.txID >= bound
    ensures FindVersion(es', txID) == FindVersion(es, txID)
  {
    assert es[0].version.txID >= bound;
    assert es'[0] == Lead(es, bound)[0] == es[0];
    if !Visible(es[0], txID) {
      assert Lead(es, bound)[1..] == Lead(es[1..], bound);
      LeadAnswers(es[1..], es'[1..], bound, txID);
    }
  }

  /** In any run of writes, commits and collections with cutoffs up to a bound, a read that would
      be answered at or above the bound without the collections is answered just so with them. */
  lemma SweptKeepsReads<K, V>(ops: seq<Operation<K, V>>, bound: int, k: K, txID: int)
    requires SweepsUpTo(ops, bound)
    requires var r := Read(Run(Unswept(ops)), k, txID); r.status != NotFound && r.version.txID >= bound
    ensures Read(RunSwept(ops), k, txID) == Read(Run(Unswept(ops)), k, txID)
  {
    SweptKeepsLead(ops, bound, k);
    RunMirrors(Unswept(ops), k);
    LeadAnswers(ChainOf(Run(Unswept(ops)), k), ChainOf(RunSwept(ops), k), bound, txID);
  }
}
