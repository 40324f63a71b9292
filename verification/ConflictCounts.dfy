/** How often each conflict is reported: once for every pair of accesses it stands for. */
module ConflictCounts {
  import opened VersionLog
  import opened ReadSets
  import opened FastValidator
  import opened ConflictDetection

  // ---------------------------------------------------------------- accesses of a key

  /** The writes of the key by task t: result and place in its write list. */
  ghost function WritesBy<K(!new), V>(results: seq<ExecutionResult<K, V>>, key: K, t: int): set<(int, int)> {
    set i, j | 0 <= i < |results| && 0 <= j < |results[i].writes|
               && results[i].taskID == t && results[i].writes[j].key == key :: (i, j)
  }

  ghost function ReadsBy<K(!new), V>(results: seq<ExecutionResult<K, V>>, key: K, t: int): set<(int, int)> {
    set i, j | 0 <= i < |results| && 0 <= j < |results[i].readSet|
               && results[i].taskID == t && results[i].readSet[j].key == key :: (i, j)
  }

  /** The places of one list, as pairs with a fixed first component. */
  ghost function WritePlaces<K(!new), V>(n: int, writes: seq<Write<K, V>>, key: K): set<(int, int)> {
    set j | 0 <= j < |writes| && writes[j].key == key :: (n, j)
  }

  ghost function ReadPlaces<K(!new), V>(n: int, readSet: seq<ReadDescriptor<K, V>>, key: K): set<(int, int)> {
    set j | 0 <= j < |readSet| && readSet[j].key == key :: (n, j)
  }

  lemma {:induction false} CountWritesIs<K(!new), V>(n: int, writes: seq<Write<K, V>>, key: K)
    ensures CountWrites(writes, key) == |WritePlaces(n, writes, key)|
  {
    if writes == [] {
      assert WritePlaces(n, writes, key) == {};
    } else {
      var m := |writes| - 1;
      var front := writes[..m];
      CountWritesIs(n, front, key);
      assert WritePlaces(n, writes, key) ==
             WritePlaces(n, front, key) + if writes[m].key == key then {(n, m)} else {};
    }
  }

  lemma {:induction false} CountReadsIs<K(!new), V>(n: int, readSet: seq<ReadDescriptor<K, V>>, key: K)
    ensures CountReads(readSet, key) == |ReadPlaces(n, readSet, key)|
  {
    if readSet == [] {
      assert ReadPlaces(n, readSet, key) == {};
    } else {
      var m := |readSet| - 1;
      var front := readSet[..m];
      CountReadsIs(n, front, key);
      assert ReadPlaces(n, readSet, key) ==
             ReadPlaces(n, front, key) + if readSet[m].key == key then {(n, m)} else {};
    }
  }

  lemma {:induction false} RepeatCounts(x: int, n: nat, t: int)
    ensures multiset(Repeat(x, n))[t] == if t == x then n else 0
  {
    if n > 0 { RepeatCounts(x, n - 1, t); }
  }

  lemma WritesByMore<K(!new), V>(results: seq<ExecutionResult<K, V>>, key: K, t: int)
    requires results != []
    ensures var n := |results| - 1;
      var more := if results[n].taskID == t then WritePlaces(n, results[n].writes, key) else {};
      WritesBy(results, key, t) == WritesBy(results[..n], key, t) + more && WritesBy(results[..n], key, t) !! more
  {}

  lemma ReadsByMore<K(!new), V>(results: seq<ExecutionResult<K, V>>, key: K, t: int)
    requires results != []
    ensures var n := |results| - 1;
      var more := if results[n].taskID == t then ReadPlaces(n, results[n].readSet, key) else {};
      ReadsBy(results, key, t) == ReadsBy(results[..n], key, t) + more && ReadsBy(results[..n], key, t) !! more
  {}

  /** A task is listed among the writers of a key once for each of its writes of it. */
  lemma {:induction false} WritersCount<K(!new), V>(results: seq<ExecutionResult<K, V>>, key: K, t: int)
    ensures multiset(Writers(results, key))[t] == |WritesBy(results, key, t)|
  {
    if results == [] {
      assert WritesBy(results, key, t) == {};
    } else {
      hide WritesBy, WritePlaces, CountWrites, Repeat;
      var n := |results| - 1;
      WritersCount(results[..n], key, t);
      WritesByMore(results, key, t);
      CountWritesIs(n, results[n].writes, key);
      RepeatCounts(results[n].taskID, CountWrites(results[n].writes, key), t);
    }
  }

  lemma {:induction false} ReadersCount<K(!new), V>(results: seq<ExecutionResult<K, V>>, key: K, t: int)
    ensures multiset(Readers(results, key))[t] == |ReadsBy(results, key, t)|
  {
    if results == [] {
      assert ReadsBy(results, key, t) == {};
    } else {
      hide ReadsBy, ReadPlaces, CountReads, Repeat;
      var n := |results| - 1;
      ReadersCount(results[..n], key, t);
      ReadsByMore(results, key, t);
      CountReadsIs(n, results[n].readSet, key);
      RepeatCounts(results[n].taskID, CountReads(results[n].readSet, key), t);
    }
  }

  /** Both lists follow the order of the results. */
  lemma NoAccesses<K, V>(key: K)
    ensures Writers<K, V>([], key) == [] && Readers<K, V>([], key) == []
  {}

  lemma WritersMore<K, V>(front: seq<ExecutionResult<K, V>>, last: ExecutionResult<K, V>, key: K)
    ensures Writers(front + [last], key) == Writers(front, key) + Repeat(last.taskID, CountWrites(last.writes, key))
  {
    assert (front + [last])[..|front|] == front;
  }

  lemma {:induction false} WritersInOrder<K, V>(a: seq<ExecutionResult<K, V>>, b: seq<ExecutionResult<K, V>>, key: K)
    ensures Writers(a + b, key) == Writers(a, key) + Writers(b, key)
  {
    hide *;
    if b == [] {
      assert a + b == a;
      NoAccesses<K, V>(key);
    } else {
      var front, last := b[..|b| - 1], b[|b| - 1];
      WritersInOrder(a, front, key);
      assert a + b == (a + front) + [last] && b == front + [last];
      WritersMore(a + front, last, key);
      WritersMore(front, last, key);
    }
  }

  lemma ReadersMore<K, V>(front: seq<ExecutionResult<K, V>>, last: ExecutionResult<K, V>, key: K)
    ensures Readers(front + [last], key) == Readers(front, key) + Repeat(last.taskID, CountReads(last.readSet, key))
  {
    assert (front + [last])[..|front|] == front;
  }

  lemma {:induction false} ReadersInOrder<K, V>(a: seq<ExecutionResult<K, V>>, b: seq<ExecutionResult<K, V>>, key: K)
    ensures Readers(a + b, key) == Readers(a, key) + Readers(b, key)
  {
    hide *;
    if b == [] {
      assert a + b == a;
      NoAccesses<K, V>(key);
    } else {
      var front, last := b[..|b| - 1], b[|b| - 1];
      ReadersInOrder(a, front, key);
      assert a + b == (a + front) + [last] && b == front + [last];
      ReadersMore(a + front, last, key);
      ReadersMore(front, last, key);
    }
  }

  // ---------------------------------------------------------------- pairs of one key

  lemma {:induction false} AgainstReadersCounts<K>(writer: int, readers: seq<int>, key: K, p: ConflictPair<K>)
    ensures multiset(AgainstReaders(writer, readers, key))[p] ==
              if p == ConflictPair(writer, p.task2, key, ReadWrite) && p.task2 != writer
              then multiset(readers)[p.task2] else 0
  {
    if readers != [] {
      var front, r := readers[..|readers| - 1], readers[|readers| - 1];
      AgainstReadersCounts(writer, front, key, p);
      assert readers == front + [r];
    }
  }

  lemma ReadWriteMore<K>(writers: seq<int>, readers: seq<int>, key: K, p: ConflictPair<K>)
    requires writers != []
    ensures var front, w := writers[..|writers| - 1], writers[|writers| - 1];
      && multiset(ReadWritePairs(writers, readers, key))[p] ==
           multiset(ReadWritePairs(front, readers, key))[p] + multiset(AgainstReaders(w, readers, key))[p]
      && forall t :: multiset(writers)[t] == multiset(front)[t] + if t == w then 1 else 0
  {
    hide AgainstReaders;
    assert writers == writers[..|writers| - 1] + [writers[|writers| - 1]];
  }

  lemma OneMoreRow(m: nat, r: nat)
    ensures (m + 1) * r == m * r + r
  {}

  /** A writer and another reader are reported once for each of their pairs of accesses. */
  lemma {:induction false} ReadWriteCounts<K>(writers: seq<int>, readers: seq<int>, key: K, p: ConflictPair<K>)
    ensures multiset(ReadWritePairs(writers, readers, key))[p] ==
              if p == ConflictPair(p.task1, p.task2, key, ReadWrite) && p.task1 != p.task2
              then multiset(writers)[p.task1] * multiset(readers)[p.task2] else 0
  {
    if writers != [] {
      var front, w := writers[..|writers| - 1], writers[|writers| - 1];
      ReadWriteMore(writers, readers, key, p);
      hide *;
      ReadWriteCounts(front, readers, key, p);
      AgainstReadersCounts(w, readers, key, p);
      OneMoreRow(multiset(front)[p.task1], multiset(readers)[p.task2]);
    }
  }

  /** The places where a writes before b. */
  ghost function PlacesOf(writers: seq<int>, a: int, b: int): set<(int, int)> {
    set i, j | 0 <= i < |writers| && 0 <= j < |writers| && i < j && writers[i] == a && writers[j] == b :: (i, j)
  }

  ghost function RowPlaces(writers: seq<int>, i: int, n: int, b: int): set<(int, int)>
    requires n <= |writers|
  {
    set j | 0 <= j < n && i < j && writers[j] == b :: (i, j)
  }

  ghost function RowsBelow(writers: seq<int>, n: int, a: int, b: int): set<(int, int)>
    requires n <= |writers|
  {
    set i, j | 0 <= i < n && 0 <= j < |writers| && i < j && writers[i] == a && writers[j] == b :: (i, j)
  }

  lemma NoRow<K>(writers: seq<int>, i: nat, key: K, p: ConflictPair<K>)
    requires i < |writers|
    ensures AgainstWriters(writers, i, i + 1, key, false) == [] && RowPlaces(writers, i, i + 1, p.task2) == {}
  {}

  lemma NoRows<K>(writers: seq<int>, key: K, p: ConflictPair<K>)
    ensures PairsOfWriters(writers, 0, key, false) == [] && RowsBelow(writers, 0, p.task1, p.task2) == {}
  {}

  lemma RowSplit<K>(writers: seq<int>, i: nat, j: nat, key: K, p: ConflictPair<K>)
    requires i + 1 < j <= |writers|
    ensures var q := ConflictPair(writers[i], writers[j - 1], key, WriteWrite);
      multiset(AgainstWriters(writers, i, j, key, false))[p] ==
        multiset(AgainstWriters(writers, i, j - 1, key, false))[p] +
        if q == p && writers[i] != writers[j - 1] then 1 else 0
  {}

  lemma RowsSplit<K>(writers: seq<int>, n: nat, key: K, p: ConflictPair<K>)
    requires 0 < n <= |writers|
    ensures multiset(PairsOfWriters(writers, n, key, false))[p] ==
              multiset(PairsOfWriters(writers, n - 1, key, false))[p] +
              multiset(AgainstWriters(writers, n - 1, |writers|, key, false))[p]
  {
    hide AgainstWriters;
  }

  lemma RowMore(writers: seq<int>, i: int, n: int, b: int)
    requires 0 <= i < n < |writers|
    ensures RowPlaces(writers, i, n + 1, b) == RowPlaces(writers, i, n, b) + if writers[n] == b then {(i, n)} else {}
    ensures (i, n) !in RowPlaces(writers, i, n, b)
  {}

  lemma {:induction false} RowCounts<K>(writers: seq<int>, i: nat, j: nat, key: K, p: ConflictPair<K>)
    requires i < j <= |writers|
    ensures multiset(AgainstWriters(writers, i, j, key, false))[p] ==
              if p == ConflictPair(writers[i], p.task2, key, WriteWrite) && p.task2 != writers[i]
              then |RowPlaces(writers, i, j, p.task2)| else 0
  {
    hide *;
    if j == i + 1 {
      NoRow(writers, i, key, p);
    } else {
      RowSplit(writers, i, j, key, p);
      RowCounts(writers, i, j - 1, key, p);
      RowMore(writers, i, j - 1, p.task2);
    }
  }

  lemma RowsMore(writers: seq<int>, n: int, a: int, b: int)
    requires 0 <= n < |writers|
    ensures var row := if writers[n] == a then RowPlaces(writers, n, |writers|, b) else {};
      && RowsBelow(writers, n + 1, a, b) == RowsBelow(writers, n, a, b) + row
      && RowsBelow(writers, n, a, b) !! row
  {}

  lemma {:induction false} RowsCount<K>(writers: seq<int>, n: nat, key: K, p: ConflictPair<K>)
    requires n <= |writers|
    ensures multiset(PairsOfWriters(writers, n, key, false))[p] ==
              if p == ConflictPair(p.task1, p.task2, key, WriteWrite) && p.task1 != p.task2
              then |RowsBelow(writers, n, p.task1, p.task2)| else 0
  {
    hide *;
    if n == 0 {
      NoRows(writers, key, p);
    } else {
      RowsSplit(writers, n, key, p);
      RowsCount(writers, n - 1, key, p);
      RowCounts(writers, n - 1, |writers|, key, p);
      RowsMore(writers, n - 1, p.task1, p.task2);
    }
  }

  /** Two different writers are reported once for each write of the second after one of the first. */
  lemma WriteWriteCounts<K>(writers: seq<int>, key: K, p: ConflictPair<K>)
    ensures multiset(WriteWritePairs(writers, key))[p] ==
              if p == ConflictPair(p.task1, p.task2, key, WriteWrite) && p.task1 != p.task2
              then |PlacesOf(writers, p.task1, p.task2)| else 0
  {
    RowsCount(writers, |writers|, key, p);
    assert RowsBelow(writers, |writers|, p.task1, p.task2) == PlacesOf(writers, p.task1, p.task2);
  }

  // ---------------------------------------------------------------- how many pairs there are

  /** The i-th writer w of key k with each read of another task. */
  ghost function ReadsOfOthers<K(!new)>(k: K, i: int, w: int, readers: seq<int>): set<(K, int, int)> {
    set j | 0 <= j < |readers| && readers[j] != w :: (k, i, j)
  }

  ghost function ReadWritePlaces<K(!new)>(k: K, writers: seq<int>, readers: seq<int>): set<(K, int, int)> {
    set i, j | 0 <= i < |writers| && 0 <= j < |readers| && readers[j] != writers[i] :: (k, i, j)
  }

  lemma ReadsMore<K(!new)>(k: K, i: int, w: int, readers: seq<int>)
    requires readers != []
    ensures var m := |readers| - 1;
      && ReadsOfOthers(k, i, w, readers) ==
           ReadsOfOthers(k, i, w, readers[..m]) + (if readers[m] != w then {(k, i, m)} else {})
      && (k, i, m) !in ReadsOfOthers(k, i, w, readers[..m])
  {}

  lemma {:induction false} AgainstReadersSize<K(!new)>(k: K, i: int, w: int, readers: seq<int>)
    ensures |AgainstReaders(w, readers, k)| == |ReadsOfOthers(k, i, w, readers)|
  {
    if readers == [] {
      assert ReadsOfOthers(k, i, w, readers) == {};
    } else {
      hide ReadsOfOthers;
      AgainstReadersSize(k, i, w, readers[..|readers| - 1]);
      ReadsMore(k, i, w, readers);
    }
  }

  lemma PlacesMore<K(!new)>(k: K, writers: seq<int>, readers: seq<int>)
    requires writers != []
    ensures var m := |writers| - 1;
      && ReadWritePlaces(k, writers, readers) ==
           ReadWritePlaces(k, writers[..m], readers) + ReadsOfOthers(k, m, writers[m], readers)
      && ReadWritePlaces(k, writers[..m], readers) !! ReadsOfOthers(k, m, writers[m], readers)
  {}

  lemma {:induction false} ReadWriteSize<K(!new)>(k: K, writers: seq<int>, readers: seq<int>)
    ensures |ReadWritePairs(writers, readers, k)| == |ReadWritePlaces(k, writers, readers)|
  {
    if writers == [] {
      assert ReadWritePlaces(k, writers, readers) == {};
    } else {
      hide ReadsOfOthers, ReadWritePlaces, AgainstReaders;
      var m := |writers| - 1;
      ReadWriteSize(k, writers[..m], readers);
      AgainstReadersSize(k, m, writers[m], readers);
      PlacesMore(k, writers, readers);
    }
  }

  /** The i-th writer with each later one, up to the n-th, that is another task. */
  ghost function LaterOthers<K(!new)>(k: K, writers: seq<int>, i: int, n: int): set<(K, int, int)>
    requires 0 <= i && n <= |writers|
  {
    set j | 0 <= j < n && i < j && writers[i] != writers[j] :: (k, i, j)
  }

  ghost function RowsOfOthers<K(!new)>(k: K, writers: seq<int>, n: int): set<(K, int, int)>
    requires n <= |writers|
  {
    set i, j | 0 <= i < n && 0 <= j < |writers| && i < j && writers[i] != writers[j] :: (k, i, j)
  }

  ghost function WriteWritePlaces<K(!new)>(k: K, writers: seq<int>): set<(K, int, int)> {
    set i, j | 0 <= i < |writers| && 0 <= j < |writers| && i < j && writers[i] != writers[j] :: (k, i, j)
  }

  lemma LaterMore<K(!new)>(k: K, writers: seq<int>, i: int, n: int)
    requires 0 <= i < n < |writers|
    ensures LaterOthers(k, writers, i, n + 1) ==
              LaterOthers(k, writers, i, n) + if writers[i] != writers[n] then {(k, i, n)} else {}
    ensures (k, i, n) !in LaterOthers(k, writers, i, n)
  {}

  lemma OneLaterMore<K(!new)>(k: K, writers: seq<int>, i: nat, n: nat)
    requires i < n <= |writers|
    ensures n == i + 1 ==> AgainstWriters(writers, i, n, k, false) == [] && LaterOthers(k, writers, i, n) == {}
    ensures n > i + 1 ==>
      |AgainstWriters(writers, i, n, k, false)| ==
        |AgainstWriters(writers, i, n - 1, k, false)| + if writers[i] != writers[n - 1] then 1 else 0
  {}

  lemma {:induction false} LaterSize<K(!new)>(k: K, writers: seq<int>, i: nat, n: nat)
    requires i < n <= |writers|
    ensures |AgainstWriters(writers, i, n, k, false)| == |LaterOthers(k, writers, i, n)|
  {
    hide *;
    OneLaterMore(k, writers, i, n);
    if n > i + 1 {
      LaterSize(k, writers, i, n - 1);
      LaterMore(k, writers, i, n - 1);
    }
  }

  lemma RowsOfMore<K(!new)>(k: K, writers: seq<int>, n: int)
    requires 0 <= n < |writers|
    ensures RowsOfOthers(k, writers, n + 1) == RowsOfOthers(k, writers, n) + LaterOthers(k, writers, n, |writers|)
    ensures RowsOfOthers(k, writers, n) !! LaterOthers(k, writers, n, |writers|)
  {}

  lemma OneWriterMore<K(!new)>(k: K, writers: seq<int>, n: nat)
    requires n <= |writers|
    ensures n == 0 ==> PairsOfWriters(writers, n, k, false) == [] && RowsOfOthers(k, writers, n) == {}
    ensures n > 0 ==> PairsOfWriters(writers, n, k, false) ==
                        PairsOfWriters(writers, n - 1, k, false) + AgainstWriters(writers, n - 1, |writers|, k, false)
  {
    hide AgainstWriters;
  }

  lemma {:induction false} RowsSize<K(!new)>(k: K, writers: seq<int>, n: nat)
    requires n <= |writers|
    ensures |PairsOfWriters(writers, n, k, false)| == |RowsOfOthers(k, writers, n)|
  {
    hide *;
    OneWriterMore(k, writers, n);
    if n > 0 {
      RowsSize(k, writers, n - 1);
      LaterSize(k, writers, n - 1, |writers|);
      RowsOfMore(k, writers, n - 1);
    }
  }

  lemma WriteWriteSize<K(!new)>(k: K, writers: seq<int>)
    ensures |WriteWritePairs(writers, k)| == |WriteWritePlaces(k, writers)|
  {
    RowsSize(k, writers, |writers|);
    assert RowsOfOthers(k, writers, |writers|) == WriteWritePlaces(k, writers);
  }

  // ---------------------------------------------------------------- the whole report

  /** How often the pair is to be reported: for a writer and another reader of a key, once for each
      write and read of theirs; for two different writers, once for each time the second wrote after
      the first. */
  ghost function TimesReported<K(!new), V>(results: seq<ExecutionResult<K, V>>, p: ConflictPair<K>): nat {
    if p.task1 == p.task2 then 0
    else match p.kind
      case ReadWrite => |WritesBy(results, p.key, p.task1)| * |ReadsBy(results, p.key, p.task2)|
      case WriteWrite => |PlacesOf(Writers(results, p.key), p.task1, p.task2)|
      case DependencyViolation => 0
  }

  ghost function SetOf<K>(order: seq<K>): set<K> {
    set k | k in order
  }

  ghost predicate EachOnce<K>(order: seq<K>) {
    forall i, j | 0 <= i < j < |order| :: order[i] != order[j]
  }

  lemma OneKeyMore<K(!new), V>(results: seq<ExecutionResult<K, V>>, order: seq<K>)
    requires EachOnce(order)
    ensures order == [] ==> ReadWriteConflicts(results, order) == [] && WriteWriteConflicts(results, order) == []
    ensures order != [] ==>
      var front, k := order[..|order| - 1], order[|order| - 1];
      && EachOnce(front) && k !in front && k !in SetOf(front) && SetOf(order) == SetOf(front) + {k}
      && (forall key :: key in order <==> key in front || key == k)
      && ReadWriteConflicts(results, order) ==
           ReadWriteConflicts(results, front) + ReadWritePairs(Writers(results, k), Readers(results, k), k)
      && WriteWriteConflicts(results, order) ==
           WriteWriteConflicts(results, front) + WriteWritePairs(Writers(results, k), k)
  {
    hide ReadWritePairs, WriteWritePairs, Writers, Readers;
    if order != [] { assert order == order[..|order| - 1] + [order[|order| - 1]]; }
  }

  lemma ReadWriteOfKey<K(!new), V>(results: seq<ExecutionResult<K, V>>, key: K, p: ConflictPair<K>)
    ensures multiset(ReadWritePairs(Writers(results, key), Readers(results, key), key))[p] ==
              if p.key == key && p.kind == ReadWrite then TimesReported(results, p) else 0
  {
    ReadWriteCounts(Writers(results, key), Readers(results, key), key, p);
    WritersCount(results, key, p.task1);
    ReadersCount(results, key, p.task2);
    hide Writers, Readers, WritesBy, ReadsBy, ReadWritePairs;
  }

  lemma WriteWriteOfKey<K(!new), V>(results: seq<ExecutionResult<K, V>>, key: K, p: ConflictPair<K>)
    ensures multiset(WriteWritePairs(Writers(results, key), key))[p] ==
              if p.key == key && p.kind == WriteWrite then TimesReported(results, p) else 0
  {
    WriteWriteCounts(Writers(results, key), key, p);
    hide Writers, WritesBy, ReadsBy, WriteWritePairs, PlacesOf;
  }

  lemma {:induction false} ReadWriteReported<K(!new), V>(results: seq<ExecutionResult<K, V>>, order: seq<K>,
          p: ConflictPair<K>)
    requires EachOnce(order)
    ensures multiset(ReadWriteConflicts(results, order))[p] ==
              if p.key in order && p.kind == ReadWrite then TimesReported(results, p) else 0
  {
    hide *;
    OneKeyMore(results, order);
    if order != [] {
      ReadWriteReported(results, order[..|order| - 1], p);
      ReadWriteOfKey(results, order[|order| - 1], p);
    }
  }

  lemma {:induction false} WriteWriteReported<K(!new), V>(results: seq<ExecutionResult<K, V>>, order: seq<K>,
          p: ConflictPair<K>)
    requires EachOnce(order)
    ensures multiset(WriteWriteConflicts(results, order))[p] ==
              if p.key in order && p.kind == WriteWrite then TimesReported(results, p) else 0
  {
    hide *;
    OneKeyMore(results, order);
    if order != [] {
      WriteWriteReported(results, order[..|order| - 1], p);
      WriteWriteOfKey(results, order[|order| - 1], p);
    }
  }

  /** A key nobody writes has nothing to report. */
  lemma UnwrittenUnreported<K(!new), V>(results: seq<ExecutionResult<K, V>>, p: ConflictPair<K>)
    requires Writers(results, p.key) == []
    ensures TimesReported(results, p) == 0
  {
    WritersCount(results, p.key, p.task1);
    assert PlacesOf(Writers(results, p.key), p.task1, p.task2) == {};
    assert |WritesBy(results, p.key, p.task1)| == 0;
  }

  /** Over any orders of the keys, detection reports every pair as often as it is to be reported. */
  lemma ReportCounts<K(!new), V>(results: seq<ExecutionResult<K, V>>, rwOrder: seq<K>, wwOrder: seq<K>,
                                 p: ConflictPair<K>)
    requires WrittenKeys(results, rwOrder) && WrittenKeys(results, wwOrder)
    ensures multiset(ReadWriteConflicts(results, rwOrder) + WriteWriteConflicts(results, wwOrder))[p] ==
              TimesReported(results, p)
  {
    ReadWriteReported(results, rwOrder, p);
    WriteWriteReported(results, wwOrder, p);
    if Writers(results, p.key) == [] { UnwrittenUnreported(results, p); }
    hide ReadWriteConflicts, WriteWriteConflicts, Writers;
  }

  /** A write and a read of another task, by key and places in its lists of writers and readers. */
  ghost function AllReadWrites<K(!new), V>(results: seq<ExecutionResult<K, V>>, keys: set<K>): set<(K, int, int)> {
    set k, e | k in keys && e in ReadWritePlaces(k, Writers(results, k), Readers(results, k)) :: e
  }

  ghost function AllWriteWrites<K(!new), V>(results: seq<ExecutionResult<K, V>>, keys: set<K>): set<(K, int, int)> {
    set k, e | k in keys && e in WriteWritePlaces(k, Writers(results, k)) :: e
  }

  lemma AllMore<K(!new), V>(results: seq<ExecutionResult<K, V>>, keys: set<K>, k: K)
    requires k !in keys
    ensures var rw := ReadWritePlaces(k, Writers(results, k), Readers(results, k));
      && AllReadWrites(results, keys + {k}) == AllReadWrites(results, keys) + rw
      && AllReadWrites(results, keys) !! rw
    ensures var ww := WriteWritePlaces(k, Writers(results, k));
      && AllWriteWrites(results, keys + {k}) == AllWriteWrites(results, keys) + ww
      && AllWriteWrites(results, keys) !! ww
  {
    hide Writers, Readers;
    forall e | e in AllReadWrites(results, keys) + AllWriteWrites(results, keys) ensures e.0 in keys {}
  }

  lemma NoKeys<K(!new), V>(results: seq<ExecutionResult<K, V>>)
    ensures AllReadWrites(results, SetOf([])) == {} && AllWriteWrites(results, SetOf([])) == {}
  {}

  lemma {:induction false} ReportSizes<K(!new), V>(results: seq<ExecutionResult<K, V>>, order: seq<K>)
    requires EachOnce(order)
    ensures |ReadWriteConflicts(results, order)| == |AllReadWrites(results, SetOf(order))|
    ensures |WriteWriteConflicts(results, order)| == |AllWriteWrites(results, SetOf(order))|
  {
    hide *;
    OneKeyMore(results, order);
    if order == [] {
      NoKeys(results);
    } else {
      var front, key := order[..|order| - 1], order[|order| - 1];
      ReportSizes(results, front);
      AllMore(results, SetOf(front), key);
      ReadWriteSize(key, Writers(results, key), Readers(results, key));
      WriteWriteSize(key, Writers(results, key));
    }
  }

  /** So the number of conflicts is the number of pairs of accesses of different tasks to one key of
      which the first is a write and the second a read, or a later write. */
  lemma ReportSize<K(!new), V>(results: seq<ExecutionResult<K, V>>, rwOrder: seq<K>, wwOrder: seq<K>)
    requires WrittenKeys(results, rwOrder) && WrittenKeys(results, wwOrder)
    ensures SetOf(rwOrder) == SetOf(wwOrder)
    ensures |ReadWriteConflicts(results, rwOrder) + WriteWriteConflicts(results, wwOrder)| ==
              |AllReadWrites(results, SetOf(rwOrder))| + |AllWriteWrites(results, SetOf(rwOrder))|
  {
    assert SetOf(rwOrder) == SetOf(wwOrder);
    ReportSizes(results, rwOrder);
    ReportSizes(results, wwOrder);
    hide *;
  }

  // ---------------------------------------------------------------- the order of the pairs of one key

  /** Writers come in order, and for each of them the readers. */
  lemma {:induction false} ReadWriteInOrder<K>(a: seq<int>, b: seq<int>, readers: seq<int>, key: K)
    ensures ReadWritePairs(a + b, readers, key) == ReadWritePairs(a, readers, key) + ReadWritePairs(b, readers, key)
  {
    hide AgainstReaders;
    if b == [] {
      assert a + b == a;
    } else {
      var front, w := b[..|b| - 1], b[|b| - 1];
      ReadWriteInOrder(a, front, readers, key);
      assert (a + b)[..|a + b| - 1] == a + front;
      var more := AgainstReaders(w, readers, key);
      assert (ReadWritePairs(a, readers, key) + ReadWritePairs(front, readers, key)) + more ==
             ReadWritePairs(a, readers, key) + (ReadWritePairs(front, readers, key) + more);
    }
  }

  lemma {:induction false} AgainstReadersInOrder<K>(writer: int, a: seq<int>, b: seq<int>, key: K)
    ensures AgainstReaders(writer, a + b, key) == AgainstReaders(writer, a, key) + AgainstReaders(writer, b, key)
  {
    if b == [] {
      assert a + b == a;
    } else {
      AgainstReadersInOrder(writer, a, b[..|b| - 1], key);
      assert (a + b)[..|a + b| - 1] == a + b[..|b| - 1];
    }
  }

  /** The pairs of an earlier writer come before those of a later one, and for one writer those with
      earlier writers first. */
  lemma {:induction false} WriteWriteInOrder<K>(writers: seq<int>, n: nat, key: K, all: bool)
    requires n <= |writers|
    ensures PairsOfWriters(writers, n, key, all) <= PairsOfWriters(writers, |writers|, key, all)
    ensures n < |writers| ==> forall j | n < j <= |writers| ::
              AgainstWriters(writers, n, j, key, all) <= AgainstWriters(writers, n, |writers|, key, all)
    decreases |writers| - n
  {
    if n < |writers| {
      WriteWriteInOrder(writers, n + 1, key, all);
      forall j | n < j <= |writers|
        ensures AgainstWriters(writers, n, j, key, all) <= AgainstWriters(writers, n, |writers|, key, all)
      {
        RowInOrder(writers, n, j, key, all);
      }
    }
  }

  lemma {:induction false} RowInOrder<K>(writers: seq<int>, i: nat, j: nat, key: K, all: bool)
    requires i < j <= |writers|
    ensures AgainstWriters(writers, i, j, key, all) <= AgainstWriters(writers, i, |writers|, key, all)
    decreases |writers| - j
  {
    if j < |writers| { RowInOrder(writers, i, j + 1, key, all); }
  }
}
