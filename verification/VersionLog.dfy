/** What multi-version storage means: chains of versions, newest insertion first, and the log of
    writes they stand for. */
module VersionLog {
  import opened Deque

  datatype Version = Version(txID: int, incarnation: int) {
    function Compare(other: Version): int {
      if txID < other.txID then -1
      else if txID > other.txID then 1
      else if incarnation < other.incarnation then -1
      else if incarnation > other.incarnation then 1
      else 0
    }
  }

  const ZERO_VERSION := Version(0, 0)

  datatype VersionStatus = Committed | Estimate | Aborted

  /** A value of None is the source's nil. */
  datatype Entry<V> = Entry(version: Version, value: Option<V>, status: VersionStatus)

  type Chain<V> = seq<Entry<V>>

  datatype ReadStatus = Found | NotFound | Dependency | Estimated

  datatype ReadResult<V> = ReadResult(status: ReadStatus, value: Option<V>, version: Version, dependency: int)

  /** The fields a not-found read leaves unset are zero, the version included. */
  function Missing<V>(): ReadResult<V> {
    ReadResult(NotFound, None, ZERO_VERSION, 0)
  }

  function Answer<V>(e: Entry<V>): ReadResult<V> {
    if e.status == Committed then ReadResult(Found, e.value, e.version, 0)
    else ReadResult(Estimated, e.value, e.version, e.version.txID)
  }

  predicate Visible<V>(e: Entry<V>, txID: int) {
    e.version.txID < txID && e.status != Aborted
  }

  /** Never answers with a version at or above the reader, nor with status Dependency. */
  function FindVersion<V>(es: Chain<V>, txID: int): (r: ReadResult<V>)
    ensures r.status == NotFound ==> r == Missing() == ReadResult(NotFound, None, Version(0, 0), 0)
    ensures r.status != NotFound ==> r.version.txID < txID
    ensures r.status == Found ==> r.dependency == 0
    ensures r.status == Estimated ==> r.dependency == r.version.txID
    ensures r.status != Dependency
  {
    if es == [] then Missing()
    else if Visible(es[0], txID) then Answer(es[0])
    else FindVersion(es[1..], txID)
  }

  /** The first node with the version becomes committed. */
  function Mark<V>(es: Chain<V>, version: Version): Chain<V> {
    if es == [] then []
    else if es[0].version.Compare(version) == 0 then [es[0].(status := Committed)] + es[1..]
    else [es[0]] + Mark(es[1..], version)
  }

  /** Marking changes the status of the first match only, or nothing. */
  lemma {:induction false} MarkAt<V>(es: Chain<V>, version: Version, i: nat)
    requires i <= |es| && forall j | 0 <= j < i :: es[j].version.Compare(version) != 0
    requires i < |es| ==> es[i].version.Compare(version) == 0
    ensures Mark(es, version) == if i < |es| then es[i := es[i].(status := Committed)] else es
  {
    if i > 0 { MarkAt(es[1..], version, i - 1); }
  }

  /** gcVersionChain from some node on; `first` says that nothing has been kept before it. */
  function Collect<V>(es: Chain<V>, before: int, first: bool): Chain<V> {
    if es == [] then []
    else if es[0].version.txID >= before || (es[0].status == Committed && first) then
      [es[0]] + Collect(es[1..], before, false)
    else
      Collect(es[1..], before, first)
  }

  function Gc<V>(es: Chain<V>, before: int): Chain<V> {
    Collect(es, before, true)
  }

  // ---------------------------------------------------------------- stores

  type Store<!K, V> = map<K, Chain<V>>

  function ChainOf<K, V>(s: Store<K, V>, k: K): Chain<V> {
    if k in s then s[k] else []
  }

  datatype Write<K, V> = Write(key: K, version: Version, value: Option<V>)

  function Install<K, V>(s: Store<K, V>, w: Write<K, V>): Store<K, V> {
    s[w.key := [Entry(w.version, w.value, Estimate)] + ChainOf(s, w.key)]
  }

  function CommitOne<K, V>(s: Store<K, V>, w: Write<K, V>): Store<K, V> {
    if w.key in s then s[w.key := Mark(s[w.key], w.version)] else s
  }

  function Commit<K, V>(s: Store<K, V>, ws: seq<Write<K, V>>): Store<K, V> {
    if ws == [] then s else CommitOne(Commit(s, ws[..|ws| - 1]), ws[|ws| - 1])
  }

  function Read<K, V>(s: Store<K, V>, k: K, txID: int): ReadResult<V> {
    FindVersion(ChainOf(s, k), txID)
  }

  datatype Action<K, V> = Put(w: Write<K, V>) | CommitAll(ws: seq<Write<K, V>>)

  function Apply<K, V>(s: Store<K, V>, op: Action<K, V>): Store<K, V> {
    match op
    case Put(w) => Install(s, w)
    case CommitAll(ws) => Commit(s, ws)
  }

  /** The store after a run of writes and commits from empty. */
  function Run<K, V>(ops: seq<Action<K, V>>): Store<K, V> {
    if ops == [] then map[] else Apply(Run(ops[..|ops| - 1]), ops[|ops| - 1])
  }

  // ---------------------------------------------------------------- the log of writes

  /** The writes of one key, in order. */
  function LogOf<K(==), V>(ops: seq<Action<K, V>>, k: K): seq<Write<K, V>> {
    if ops == [] then []
    else
      var rest, op := LogOf(ops[..|ops| - 1], k), ops[|ops| - 1];
      if op.Put? && op.w.key == k then rest + [op.w] else rest
  }

  function LastBelow<K, V>(log: seq<Write<K, V>>, txID: int): Option<Write<K, V>> {
    if log == [] then None
    else if log[|log| - 1].version.txID < txID then Some(log[|log| - 1])
    else LastBelow(log[..|log| - 1], txID)
  }

  predicate Names<K(==), V>(ws: seq<Write<K, V>>, k: K, v: Version) {
    exists i :: 0 <= i < |ws| && ws[i].key == k && ws[i].version == v
  }

  /** The version was written for the key, and a later commit names it. */
  predicate CommittedIn<K(==), V>(ops: seq<Action<K, V>>, k: K, v: Version) {
    ops != [] &&
    var front, op := ops[..|ops| - 1], ops[|ops| - 1];
    CommittedIn(front, k, v) || (op.CommitAll? && Names(op.ws, k, v) && Names(LogOf(front, k), k, v))
  }

  ghost predicate UniqueVersions<K, V>(log: seq<Write<K, V>>) {
    forall i, j | 0 <= i < j < |log| :: log[i].version != log[j].version
  }

  ghost predicate InVersionOrder<K, V>(log: seq<Write<K, V>>) {
    forall i, j | 0 <= i < j < |log| :: log[i].version.Compare(log[j].version) <= 0
  }

  // ---------------------------------------------------------------- refinement

  /** The chain holds the log's writes, last one first, and no version is aborted. */
  ghost predicate Mirrors<K, V>(es: Chain<V>, log: seq<Write<K, V>>) {
    |es| == |log| && forall i | 0 <= i < |es| ::
      var w := log[|log| - 1 - i];
      es[i].version == w.version && es[i].value == w.value && es[i].status != Aborted
  }

  lemma {:induction false} MarkMirrors<K, V>(es: Chain<V>, v: Version, log: seq<Write<K, V>>)
    requires Mirrors(es, log)
    ensures Mirrors(Mark(es, v), log)
  {
    if es != [] && es[0].version.Compare(v) != 0 { MarkMirrors(es[1..], v, log[..|log| - 1]); }
  }

  lemma {:induction false} CommitMirrors<K, V>(s: Store<K, V>, ws: seq<Write<K, V>>, k: K, log: seq<Write<K, V>>)
    requires Mirrors(ChainOf(s, k), log)
    ensures Mirrors(ChainOf(Commit(s, ws), k), log)
  {
    if ws != [] {
      var last := ws[|ws| - 1];
      CommitMirrors(s, ws[..|ws| - 1], k, log);
      if last.key == k && k in Commit(s, ws[..|ws| - 1]) {
        MarkMirrors(ChainOf(Commit(s, ws[..|ws| - 1]), k), last.version, log);
      }
    }
  }

  lemma {:induction false} RunMirrors<K, V>(ops: seq<Action<K, V>>, k: K)
    ensures Mirrors(ChainOf(Run(ops), k), LogOf(ops, k))
  {
    if ops != [] {
      var front, op := ops[..|ops| - 1], ops[|ops| - 1];
      RunMirrors(front, k);
      if op.CommitAll? {
        CommitMirrors(Run(front), op.ws, k, LogOf(front, k));
      } else if op.w.key == k {
        PutMirrors(ChainOf(Run(front), k), LogOf(front, k), op.w);
      }
    }
  }

  lemma PutMirrors<K, V>(es: Chain<V>, log: seq<Write<K, V>>, w: Write<K, V>)
    requires Mirrors(es, log)
    ensures Mirrors([Entry(w.version, w.value, Estimate)] + es, log + [w])
  {}

  lemma {:induction false} FindMirrors<K, V>(es: Chain<V>, log: seq<Write<K, V>>, txID: int)
    requires Mirrors(es, log)
    ensures var r, last := FindVersion(es, txID), LastBelow(log, txID);
      if last.None? then r == Missing()
      else
        && r.version == last.value.version && r.value == last.value.value
        && (r.status == Found || r.status == Estimated)
  {
    if es != [] && es[0].version.txID >= txID { FindMirrors(es[1..], log[..|log| - 1], txID); }
  }

  /** After any run of writes and commits, a read answers with the last logged write below the
      reader, or not-found when there is none. */
  lemma ReadIsLastWrite<K, V>(ops: seq<Action<K, V>>, k: K, txID: int)
    ensures var r, last := Read(Run(ops), k, txID), LastBelow(LogOf(ops, k), txID);
      if last.None? then r == Missing()
      else
        && r.version == last.value.version && r.value == last.value.value
        && (r.status == Found || r.status == Estimated)
  {
    RunMirrors(ops, k);
    FindMirrors(ChainOf(Run(ops), k), LogOf(ops, k), txID);
  }

  /** Commits change the status of a read's answer, never its value or version. */
  lemma CommitKeepsReads<K, V>(ops: seq<Action<K, V>>, ws: seq<Write<K, V>>, k: K, txID: int)
    ensures var r, r' := Read(Run(ops), k, txID), Read(Run(ops + [CommitAll(ws)]), k, txID);
      r'.version == r.version && r'.value == r.value && (r.status == NotFound <==> r'.status == NotFound)
      && (r.status == Found ==> r' == r)
  {
    assert (ops + [CommitAll(ws)])[..|ops|] == ops;
    ReadIsLastWrite(ops, k, txID);
    ReadIsLastWrite(ops + [CommitAll(ws)], k, txID);
    RunMirrors(ops, k);
    if Read(Run(ops), k, txID).status == Found { CommitKeepsFound(Run(ops), ws, k, txID, LogOf(ops, k)); }
  }

  lemma {:induction false} MarkKeepsFound<V>(es: Chain<V>, v: Version, txID: int)
    requires FindVersion(es, txID).status == Found
    ensures FindVersion(Mark(es, v), txID).status == Found || exists i :: 0 <= i < |es| && es[i].status == Aborted
  {
    if es != [] && es[0].version.Compare(v) != 0 && !Visible(es[0], txID) {
      MarkKeepsFound(es[1..], v, txID);
      if i :| 0 <= i < |es[1..]| && es[1..][i].status == Aborted { assert es[i + 1].status == Aborted; }
    }
  }

  lemma {:induction false} CommitKeepsFound<K, V>(s: Store<K, V>, ws: seq<Write<K, V>>, k: K, txID: int,
                                                  log: seq<Write<K, V>>)
    requires Read(s, k, txID).status == Found && Mirrors(ChainOf(s, k), log)
    ensures Read(Commit(s, ws), k, txID).status == Found
  {
    if ws != [] {
      var front, last := ws[..|ws| - 1], ws[|ws| - 1];
      CommitKeepsFound(s, front, k, txID, log);
      CommitMirrors(s, front, k, log);
      if last.key == k && k in Commit(s, front) { MarkKeepsFound(ChainOf(Commit(s, front), k), last.version, txID); }
    }
  }

  lemma {:induction false} LastBelowHighest<K, V>(log: seq<Write<K, V>>, txID: int, i: nat)
    requires InVersionOrder(log) && i < |log| && log[i].version.txID < txID
    ensures LastBelow(log, txID).Some? && log[i].version.Compare(LastBelow(log, txID).value.version) <= 0
  {
    if log[|log| - 1].version.txID >= txID { LastBelowHighest(log[..|log| - 1], txID, i); }
  }

  /** When a key's writes come in version order, a read answers with the highest version below it. */
  lemma ReadIsHighest<K, V>(ops: seq<Action<K, V>>, k: K, txID: int, i: nat)
    requires InVersionOrder(LogOf(ops, k)) && i < |LogOf(ops, k)| && LogOf(ops, k)[i].version.txID < txID
    ensures var r := Read(Run(ops), k, txID);
      r.status != NotFound && LogOf(ops, k)[i].version.Compare(r.version) <= 0 && r.version.txID < txID
  {
    ReadIsLastWrite(ops, k, txID);
    LastBelowHighest(LogOf(ops, k), txID, i);
    LastBelowIsBelow(LogOf(ops, k), txID);
  }

  lemma {:induction false} LastBelowIsBelow<K, V>(log: seq<Write<K, V>>, txID: int)
    ensures LastBelow(log, txID).Some? ==>
              LastBelow(log, txID).value.version.txID < txID && LastBelow(log, txID).value in log
  {
    if log != [] && log[|log| - 1].version.txID >= txID { LastBelowIsBelow(log[..|log| - 1], txID); }
  }

  // ---------------------------------------------------------------- which answers are Found

  lemma {:induction false} LogKeys<K, V>(ops: seq<Action<K, V>>, k: K)
    ensures forall i | 0 <= i < |LogOf(ops, k)| :: LogOf(ops, k)[i].key == k
  {
    if ops != [] { LogKeys(ops[..|ops| - 1], k); }
  }

  ghost predicate UniqueIn<V>(es: Chain<V>) {
    forall i, j | 0 <= i < j < |es| :: es[i].version != es[j].version
  }

  lemma {:induction false} MarkExactly<V>(es: Chain<V>, v: Version)
    requires UniqueIn(es)
    ensures |Mark(es, v)| == |es|
    ensures forall i | 0 <= i < |es| ::
      Mark(es, v)[i] == if es[i].version == v then es[i].(status := Committed) else es[i]
  {
    if es != [] {
      if es[0].version.Compare(v) != 0 { MarkExactly(es[1..], v); }
    }
  }

  lemma {:induction false} CommitExactly<K, V>(s: Store<K, V>, ws: seq<Write<K, V>>, k: K)
    requires UniqueIn(ChainOf(s, k))
    ensures var es, es' := ChainOf(s, k), ChainOf(Commit(s, ws), k);
      |es'| == |es| && forall i | 0 <= i < |es| ::
        es'[i] == if Names(ws, k, es[i].version) then es[i].(status := Committed) else es[i]
  {
    if ws != [] {
      var front, last := ws[..|ws| - 1], ws[|ws| - 1];
      CommitExactly(s, front, k);
      var es, mid := ChainOf(s, k), ChainOf(Commit(s, front), k);
      assert UniqueIn(mid);
      if last.key == k { MarkExactly(mid, last.version); }
      forall i | 0 <= i < |es|
        ensures Names(ws, k, es[i].version) <==>
          Names(front, k, es[i].version) || (last.key == k && last.version == es[i].version)
      {
        NamesSnoc(ws, k, es[i].version);
      }
    }
  }

  lemma NamesSnoc<K, V>(ws: seq<Write<K, V>>, k: K, v: Version)
    requires ws != []
    ensures var front, last := ws[..|ws| - 1], ws[|ws| - 1];
      Names(ws, k, v) <==> Names(front, k, v) || (last.key == k && last.version == v)
  {
    var front := ws[..|ws| - 1];
    if i :| 0 <= i < |front| && front[i].key == k && front[i].version == v { assert ws[i].key == k; }
  }

  ghost predicate StatusesExact<K, V>(ops: seq<Action<K, V>>, k: K) {
    var es := ChainOf(Run(ops), k);
    UniqueIn(es) && forall i | 0 <= i < |es| ::
      es[i].status == if CommittedIn(ops, k, es[i].version) then Committed else Estimate
  }

  lemma ExactAfterPut<K, V>(front: seq<Action<K, V>>, w: Write<K, V>, k: K)
    requires StatusesExact(front, k) && UniqueVersions(LogOf(front + [Put(w)], k))
    ensures StatusesExact(front + [Put(w)], k)
  {
    var ops := front + [Put(w)];
    assert ops[..|front|] == front;
    RunMirrors(front, k);
    if w.key == k {
      var log := LogOf(front, k);
      assert LogOf(ops, k) == log + [w];
      forall i | 0 <= i < |log| ensures log[i].version != w.version {
        assert LogOf(ops, k)[i].version != LogOf(ops, k)[|log|].version;
      }
      NotCommittedYet(front, k, w.version);
    }
  }

  lemma ExactAfterCommit<K, V>(front: seq<Action<K, V>>, ws: seq<Write<K, V>>, k: K)
    requires StatusesExact(front, k)
    ensures StatusesExact(front + [CommitAll(ws)], k)
  {
    assert (front + [CommitAll(ws)])[..|front|] == front;
    RunMirrors(front, k);
    LogKeys(front, k);
    var es, log := ChainOf(Run(front), k), LogOf(front, k);
    forall i | 0 <= i < |es| ensures Names(log, k, es[i].version) {
      assert log[|es| - 1 - i].version == es[i].version;
    }
    CommitExactly(Run(front), ws, k);
  }

  /** With every version of a key written once, a version is committed exactly when a commit that
      followed its write names it. */
  lemma {:induction false} CommittedExactly<K, V>(ops: seq<Action<K, V>>, k: K)
    requires UniqueVersions(LogOf(ops, k))
    ensures StatusesExact(ops, k)
  {
    if ops != [] {
      var front, op := ops[..|ops| - 1], ops[|ops| - 1];
      assert front + [op] == ops;
      assert LogOf(front, k) <= LogOf(ops, k);
      assert forall i | 0 <= i < |LogOf(front, k)| :: LogOf(front, k)[i] == LogOf(ops, k)[i];
      CommittedExactly(front, k);
      hide StatusesExact;
      match op
      case Put(w) => ExactAfterPut(front, w, k);
      case CommitAll(ws) => ExactAfterCommit(front, ws, k);
    }
  }

  lemma {:induction false} NotCommittedYet<K, V>(ops: seq<Action<K, V>>, k: K, v: Version)
    requires forall i | 0 <= i < |LogOf(ops, k)| :: LogOf(ops, k)[i].version != v
    ensures !CommittedIn(ops, k, v)
  {
    if ops != [] {
      var front := ops[..|ops| - 1];
      assert LogOf(front, k) <= LogOf(ops, k);
      assert forall i | 0 <= i < |LogOf(front, k)| :: LogOf(front, k)[i] == LogOf(ops, k)[i];
      NotCommittedYet(front, k, v);
    }
  }
}
