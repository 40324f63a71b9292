/** Recorded reads, and what it means that the storage still accepts them. */
module ReadSets {
  import opened Deque
  import opened VersionLog

  /** One recorded read; a value of None is the source's nil. */
  datatype ReadDescriptor<K, V> = ReadDescriptor(key: K, version: Version, value: Option<V>)

  /** isReadValid */
  predicate IsReadValid<K, V>(original: ReadDescriptor<K, V>, current: ReadResult<V>) {
    match current.status
    case NotFound => original.value == None
    case Found => current.version.Compare(original.version) == 0
    case Dependency => current.dependency == original.version.txID
    case Estimated => current.dependency == original.version.txID
  }

  /** Every recorded read is still valid. */
  ghost predicate AllValid<K, V>(s: Store<K, V>, readSet: seq<ReadDescriptor<K, V>>, txID: int) {
    forall i | 0 <= i < |readSet| :: IsReadValid(readSet[i], Read(s, readSet[i].key, txID))
  }

  // ---------------------------------------------------------------- soundness over runs

  /** The version was never written for the key. */
  ghost predicate NeverWritten<K, V>(ops: seq<Action<K, V>>, k: K, v: Version) {
    forall i | 0 <= i < |LogOf(ops, k)| :: LogOf(ops, k)[i].version != v
  }

  /** `d` records what transaction txID read after the first m steps of the run. A not-found read is
      recorded as nil, under any version. */
  ghost predicate RecordedAt<K, V>(ops: seq<Action<K, V>>, m: nat, d: ReadDescriptor<K, V>, txID: int)
    requires m <= |ops|
  {
    var r := Read(Run(ops[..m]), d.key, txID);
    if r.status == NotFound then d.value == None
    else d.version == r.version && d.value == r.value
  }

  /** Both reads found nothing, or both were answered by the same write. */
  ghost predicate SameAnswer<V>(r: ReadResult<V>, r': ReadResult<V>) {
    if r.status == NotFound || r'.status == NotFound then r.status == r'.status
    else r.version == r'.version && r.value == r'.value
  }

  lemma {:induction false} LogGrows<K, V>(ops: seq<Action<K, V>>, m: nat, k: K)
    requires m <= |ops|
    ensures LogOf(ops[..m], k) <= LogOf(ops, k)
    decreases |ops|
  {
    if m == |ops| {
      assert ops[..m] == ops;
    } else {
      LogGrows(ops[..|ops| - 1], m, k);
      assert ops[..|ops| - 1][..m] == ops[..m];
    }
  }

  /** The answer of a read is an entry of the log. */
  lemma AnswerLogged<K, V>(ops: seq<Action<K, V>>, k: K, txID: int) returns (i: nat)
    requires Read(Run(ops), k, txID).status != NotFound
    ensures var r := Read(Run(ops), k, txID);
      i < |LogOf(ops, k)| && LogOf(ops, k)[i].version == r.version && LogOf(ops, k)[i].value == r.value
  {
    ReadIsLastWrite(ops, k, txID);
    LastBelowIsBelow(LogOf(ops, k), txID);
    i :| 0 <= i < |LogOf(ops, k)| && LogOf(ops, k)[i] == LastBelow(LogOf(ops, k), txID).value;
  }

  /** Writes are never forgotten: a read that found something finds something later on. */
  lemma {:induction false} LastBelowStays<K, V>(log: seq<Write<K, V>>, log': seq<Write<K, V>>, txID: int)
    requires log <= log' && LastBelow(log, txID).Some?
    ensures LastBelow(log', txID).Some?
    decreases |log'|
  {
    if |log'| > |log| { LastBelowStays(log, log'[..|log'| - 1], txID); } else { assert log == log'; }
  }

  /** The current answer is an estimate that the recorded transaction wrote under another
      incarnation than the recorded one. */
  ghost predicate Rewritten<K, V>(d: ReadDescriptor<K, V>, now: ReadResult<V>) {
    now.status == Estimated && now.version.txID == d.version.txID && now.version.incarnation != d.version.incarnation
  }

  /** The current answer was written under the recorded version, but nothing was read then, or
      another value. */
  ghost predicate Reused<K, V>(r: ReadResult<V>, d: ReadDescriptor<K, V>, now: ReadResult<V>) {
    now.status != NotFound && now.version == d.version && (r.status == NotFound || now.value != d.value)
  }

  /** The ways in which a write goes unnoticed. */
  ghost predicate Hidden<K, V>(r: ReadResult<V>, d: ReadDescriptor<K, V>, now: ReadResult<V>) {
    Rewritten(d, now) || Reused(r, d, now)
  }

  /** Both reads have the same answer exactly when nothing is found any more, or something was read
      and its version and value are still the current ones. */
  lemma SameAnswerExactly<K, V>(ops: seq<Action<K, V>>, m: nat, d: ReadDescriptor<K, V>, txID: int)
    requires m <= |ops| && RecordedAt(ops, m, d, txID)
    ensures var r, now := Read(Run(ops[..m]), d.key, txID), Read(Run(ops), d.key, txID);
      && (now.status == NotFound ==> r.status == NotFound && d.value == None)
      && (SameAnswer(r, now) <==>
            now.status == NotFound || (r.status != NotFound && now.version == d.version && now.value == d.value))
      && (SameAnswer(r, now) ==> now.value == d.value)
  {
    hide Run, LogOf, LastBelow, FindVersion, ChainOf, Read;
    var k, early := d.key, ops[..m];
    LogGrows(ops, m, k);
    ReadIsLastWrite(early, k, txID);
    ReadIsLastWrite(ops, k, txID);
    if Read(Run(early), k, txID).status != NotFound { LastBelowStays(LogOf(early, k), LogOf(ops, k), txID); }
  }

  /** A recorded read is accepted exactly when it would be answered by the same write, or the
      current answer is a write that goes unnoticed. */
  lemma ReadSound<K, V>(ops: seq<Action<K, V>>, m: nat, d: ReadDescriptor<K, V>, txID: int)
    requires m <= |ops| && RecordedAt(ops, m, d, txID)
    ensures var r, now := Read(Run(ops[..m]), d.key, txID), Read(Run(ops), d.key, txID);
      IsReadValid(d, now) <==> SameAnswer(r, now) || Hidden(r, d, now)
  {
    SameAnswerExactly(ops, m, d, txID);
    var now := Read(Run(ops), d.key, txID);
    hide Run, LogOf, Read, RecordedAt, SameAnswer;
  }

  /** Validation over runs without collection: a read set is accepted exactly when every read would
      be answered as it was or meets an unnoticed write; where none does, every recorded value is
      still the current one. */
  lemma ValidationSound<K, V>(ops: seq<Action<K, V>>, readSet: seq<ReadDescriptor<K, V>>, at: seq<nat>, txID: int)
    requires |at| == |readSet| && forall i | 0 <= i < |readSet| ::
               at[i] <= |ops| && RecordedAt(ops, at[i], readSet[i], txID)
    ensures AllValid(Run(ops), readSet, txID) <==> forall i | 0 <= i < |readSet| ::
              var r, now := Read(Run(ops[..at[i]]), readSet[i].key, txID), Read(Run(ops), readSet[i].key, txID);
              SameAnswer(r, now) || Hidden(r, readSet[i], now)
    ensures AllValid(Run(ops), readSet, txID) ==> forall i | 0 <= i < |readSet| ::
              var r, now := Read(Run(ops[..at[i]]), readSet[i].key, txID), Read(Run(ops), readSet[i].key, txID);
              now.value == readSet[i].value || Hidden(r, readSet[i], now)
  {
    hide LogOf, Hidden, SameAnswer, Run, Read;
    forall i | 0 <= i < |readSet|
      ensures var r, now := Read(Run(ops[..at[i]]), readSet[i].key, txID), Read(Run(ops), readSet[i].key, txID);
        && (IsReadValid(readSet[i], now) <==> SameAnswer(r, now) || Hidden(r, readSet[i], now))
        && (IsReadValid(readSet[i], now) ==> now.value == readSet[i].value || Hidden(r, readSet[i], now))
    {
      ReadSound(ops, at[i], readSet[i], txID);
      SameAnswerExactly(ops, at[i], readSet[i], txID);
    }
  }

  /** Whatever the recorded transaction wrote to the key is what was recorded. */
  ghost predicate OneIncarnation<K, V>(ops: seq<Action<K, V>>, d: ReadDescriptor<K, V>) {
    forall i | 0 <= i < |LogOf(ops, d.key)| :: LogOf(ops, d.key)[i].version.txID == d.version.txID ==>
      LogOf(ops, d.key)[i].version == d.version && LogOf(ops, d.key)[i].value == d.value
  }

  /** Then acceptance is sound and complete for every status of the current read, provided that a
      missing key was recorded under a version nobody writes. */
  lemma SoundForOneIncarnation<K, V>(ops: seq<Action<K, V>>, m: nat, d: ReadDescriptor<K, V>, txID: int)
    requires m <= |ops| && RecordedAt(ops, m, d, txID) && OneIncarnation(ops, d)
    requires Read(Run(ops[..m]), d.key, txID).status == NotFound ==> NeverWritten(ops, d.key, d.version)
    ensures var r, now := Read(Run(ops[..m]), d.key, txID), Read(Run(ops), d.key, txID);
      && (IsReadValid(d, now) <==> SameAnswer(r, now))
      && (IsReadValid(d, now) ==> now.value == d.value)
  {
    hide Run, LogOf, Read, RecordedAt, SameAnswer, IsReadValid;
    ReadSound(ops, m, d, txID);
    SameAnswerExactly(ops, m, d, txID);
    var r, now := Read(Run(ops[..m]), d.key, txID), Read(Run(ops), d.key, txID);
    if Hidden(r, d, now) { var i := AnswerLogged(ops, d.key, txID); }
  }

  /** A read that found something is of that kind when no transaction writes the key under two
      versions or with two values. */
  lemma OnePerTransaction<K, V>(ops: seq<Action<K, V>>, m: nat, d: ReadDescriptor<K, V>, txID: int)
    requires m <= |ops| && RecordedAt(ops, m, d, txID) && Read(Run(ops[..m]), d.key, txID).status != NotFound
    requires forall i, j | 0 <= i < |LogOf(ops, d.key)| && 0 <= j < |LogOf(ops, d.key)| ::
               LogOf(ops, d.key)[i].version.txID == LogOf(ops, d.key)[j].version.txID ==>
                 LogOf(ops, d.key)[i] == LogOf(ops, d.key)[j]
    ensures OneIncarnation(ops, d)
  {
    hide Run, Read, LogOf;
    var i := AnswerLogged(ops[..m], d.key, txID);
    LogGrows(ops, m, d.key);
    assert LogOf(ops, d.key)[i] == LogOf(ops[..m], d.key)[i];
  }

  /** A current estimate is accepted exactly when the transaction ids agree, and rightly so exactly
      when the versions and values do. */
  lemma EstimateExactly<K, V>(ops: seq<Action<K, V>>, m: nat, d: ReadDescriptor<K, V>, txID: int)
    requires m <= |ops| && RecordedAt(ops, m, d, txID)
    requires Read(Run(ops), d.key, txID).status == Estimated
    ensures var r, now := Read(Run(ops[..m]), d.key, txID), Read(Run(ops), d.key, txID);
      && (IsReadValid(d, now) <==> now.version.txID == d.version.txID)
      && (SameAnswer(r, now) <==> r.status != NotFound && now.version == d.version && now.value == d.value)
  {
    SameAnswerExactly(ops, m, d, txID);
    hide Run, LogOf, RecordedAt, SameAnswer;
  }

  /** A not-found read recorded as the storage returns it carries version (0,0): it is taken as
      valid exactly when the key is still missing or transaction 0 has meanwhile written it. */
  lemma ZeroVersionExactly<K, V>(ops: seq<Action<K, V>>, k: K, txID: int)
    ensures var now, d := Read(Run(ops), k, txID), ReadDescriptor(k, Missing<V>().version, Missing<V>().value);
      IsReadValid(d, now) <==>
        now.status == NotFound || (now.status == Found && now.version == ZERO_VERSION)
        || (now.status == Estimated && now.version.txID == ZERO_VERSION.txID)
  {
    ReadIsLastWrite(ops, k, txID);
  }

  /** What a key is read as right after a write of it was committed. */
  lemma CommittedPut<V>(ops: seq<Action<int, V>>, w: Write<int, V>)
    ensures var s := Run(ops + [Put(w), CommitAll([w])]);
      forall txID | txID > w.version.txID :: Read(s, w.key, txID) == ReadResult(Found, w.value, w.version, 0)
  {
    var p, c := Put(w), CommitAll([w]);
    var all := ops + [p, c];
    assert all[..|all| - 1] == ops + [p] && (ops + [p])[..|ops|] == ops && [w][..0] == [];
    var s := Run(ops + [p]);
    assert s == Install(Run(ops), w);
    assert Commit(s, []) == s;
    assert Run(all) == Commit(s, [w]) == CommitOne(s, w);
  }

  /** A key read as missing by transaction 3, then written by transaction 0 and committed: the read
      passes although it would now find a value. */
  lemma ZeroVersionHidesWrite()
    ensures var w := Write(7, Version(0, 0), Some(10));
      var r, now := Read(Run<int, int>([]), 7, 3), Read(Run([Put(w), CommitAll([w])]), 7, 3);
      && r == Missing() && now.status == Found && now.value == Some(10)
      && IsReadValid(ReadDescriptor(7, r.version, r.value), now)
  {
    var w := Write(7, Version(0, 0), Some(10));
    CommittedPut([], w);
    assert [] + [Put(w), CommitAll([w])] == [Put(w), CommitAll([w])];
    assert Run<int, int>([]) == map[];
  }

  /** Transaction 2 writes the key twice under one version and commits each time: a read of the
      first value passes although it would now find the second. */
  lemma ReusedVersionHidesWrite()
    ensures var w, w' := Write(7, Version(2, 0), Some(10)), Write(7, Version(2, 0), Some(20));
      var r := Read(Run([Put(w), CommitAll([w])]), 7, 3);
      var now := Read(Run([Put(w), CommitAll([w]), Put(w'), CommitAll([w'])]), 7, 3);
      && r.status == Found && now.status == Found && now.value != r.value
      && IsReadValid(ReadDescriptor(7, r.version, r.value), now)
  {
    var w, w' := Write(7, Version(2, 0), Some(10)), Write(7, Version(2, 0), Some(20));
    CommittedPut([], w);
    CommittedPut([Put(w), CommitAll([w])], w');
    assert [] + [Put(w), CommitAll([w])] == [Put(w), CommitAll([w])];
    assert [Put(w), CommitAll([w])] + [Put(w'), CommitAll([w'])] == [Put(w), CommitAll([w]), Put(w'), CommitAll([w'])];
  }

  /** Transaction 2 rewrites the key: the estimate of its second incarnation passes for the first. */
  lemma EstimateHidesRewrite()
    ensures var s := Run([Put(Write(7, Version(2, 0), Some(10)))]);
      var s' := Run([Put(Write(7, Version(2, 0), Some(10))), Put(Write(7, Version(2, 1), Some(20)))]);
      var r := Read(s, 7, 3);
      IsReadValid(ReadDescriptor(7, r.version, r.value), Read(s', 7, 3)) && Read(s', 7, 3).value != r.value
  {
    var p, q := Put(Write(7, Version(2, 0), Some(10))), Put(Write(7, Version(2, 1), Some(20)));
    assert [p][..0] == [] && [p, q][..1] == [p];
    assert Run([p]) == Install(map[], p.w);
    assert Run([p, q]) == Install(Run([p]), q.w);
  }
}
