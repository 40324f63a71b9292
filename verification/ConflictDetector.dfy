/** The part of the validator that reports conflicts: access maps, then both phases through the cache. */
module ConflictDetector {
  import opened Collections
  import opened Deque
  import opened VersionLog
  import opened ReadSets
  import opened FastValidator
  import opened ConflictDetection
  import opened ConflictCounts

  function Listed<K(==)>(m: map<K, seq<int>>, k: K): seq<int> {
    if k in m then m[k] else []
  }

  ghost predicate IsReadMap<K(!new), V>(m: map<K, seq<int>>, results: seq<ExecutionResult<K, V>>) {
    forall k :: Listed(m, k) == Readers(results, k) && (k in m ==> m[k] != [])
  }

  ghost predicate IsWriteMap<K(!new), V>(m: map<K, seq<int>>, results: seq<ExecutionResult<K, V>>) {
    forall k :: Listed(m, k) == Writers(results, k) && (k in m ==> m[k] != [])
  }

  /** The map when the first j reads of a result have been entered. */
  ghost predicate MidRead<K(!new), V>(m: map<K, seq<int>>, before: seq<ExecutionResult<K, V>>,
                            result: ExecutionResult<K, V>, j: nat)
    requires j <= |result.readSet|
  {
    forall k :: Listed(m, k) == Readers(before, k) + Repeat(result.taskID, CountReads(result.readSet[..j], k))
                && (k in m ==> m[k] != [])
  }

  ghost predicate MidWrite<K(!new), V>(m: map<K, seq<int>>, before: seq<ExecutionResult<K, V>>,
                             result: ExecutionResult<K, V>, j: nat)
    requires j <= |result.writes|
  {
    forall k :: Listed(m, k) == Writers(before, k) + Repeat(result.taskID, CountWrites(result.writes[..j], k))
                && (k in m ==> m[k] != [])
  }

  /** append(m[k], id) */
  function Append<K(==)>(m: map<K, seq<int>>, k: K, id: int): map<K, seq<int>> {
    m[k := Listed(m, k) + [id]]
  }

  lemma NothingListed<K(!new), V>()
    ensures IsReadMap<K, V>(map[], []) && IsWriteMap<K, V>(map[], [])
  {}

  lemma ResultStarts<K(!new), V>(rs: map<K, seq<int>>, ws: map<K, seq<int>>, before: seq<ExecutionResult<K, V>>,
                       result: ExecutionResult<K, V>)
    requires IsReadMap(rs, before) && IsWriteMap(ws, before)
    ensures MidRead(rs, before, result, 0) && MidWrite(ws, before, result, 0)
  {}

  lemma OneMore(before: seq<int>, x: int, n: nat)
    ensures before + Repeat(x, n) + [x] == before + Repeat(x, n + 1)
  {}

  lemma CountReadsStep<K, V>(readSet: seq<ReadDescriptor<K, V>>, j: nat, k: K)
    requires j < |readSet|
    ensures CountReads(readSet[..j + 1], k) == CountReads(readSet[..j], k) + if readSet[j].key == k then 1 else 0
  {
    assert readSet[..j + 1][..j] == readSet[..j];
  }

  lemma CountWritesStep<K, V>(writes: seq<Write<K, V>>, j: nat, k: K)
    requires j < |writes|
    ensures CountWrites(writes[..j + 1], k) == CountWrites(writes[..j], k) + if writes[j].key == k then 1 else 0
  {
    assert writes[..j + 1][..j] == writes[..j];
  }

  lemma AppendRead<K(!new), V>(m: map<K, seq<int>>, before: seq<ExecutionResult<K, V>>,
                     result: ExecutionResult<K, V>, j: nat)
    requires j < |result.readSet| && MidRead(m, before, result, j)
    ensures MidRead(Append(m, result.readSet[j].key, result.taskID), before, result, j + 1)
  {
    hide Readers, Repeat, CountReads;
    var m' := Append(m, result.readSet[j].key, result.taskID);
    forall k
      ensures Listed(m', k) == Readers(before, k) + Repeat(result.taskID, CountReads(result.readSet[..j + 1], k))
      ensures k in m' ==> m'[k] != []
    {
      assert Listed(m, k) == Readers(before, k) + Repeat(result.taskID, CountReads(result.readSet[..j], k));
      OneMore(Readers(before, k), result.taskID, CountReads(result.readSet[..j], k));
      CountReadsStep(result.readSet, j, k);
    }
  }

  lemma AppendWrite<K(!new), V>(m: map<K, seq<int>>, before: seq<ExecutionResult<K, V>>,
                      result: ExecutionResult<K, V>, j: nat)
    requires j < |result.writes| && MidWrite(m, before, result, j)
    ensures MidWrite(Append(m, result.writes[j].key, result.taskID), before, result, j + 1)
  {
    hide Writers, Repeat, CountWrites;
    var m' := Append(m, result.writes[j].key, result.taskID);
    forall k
      ensures Listed(m', k) == Writers(before, k) + Repeat(result.taskID, CountWrites(result.writes[..j + 1], k))
      ensures k in m' ==> m'[k] != []
    {
      assert Listed(m, k) == Writers(before, k) + Repeat(result.taskID, CountWrites(result.writes[..j], k));
      OneMore(Writers(before, k), result.taskID, CountWrites(result.writes[..j], k));
      CountWritesStep(result.writes, j, k);
    }
  }

  lemma ResultEnds<K(!new), V>(rs: map<K, seq<int>>, ws: map<K, seq<int>>, before: seq<ExecutionResult<K, V>>,
                     result: ExecutionResult<K, V>)
    requires MidRead(rs, before, result, |result.readSet|) && MidWrite(ws, before, result, |result.writes|)
    ensures IsReadMap(rs, before + [result]) && IsWriteMap(ws, before + [result])
  {
    assert (before + [result])[..|before|] == before;
    assert result.readSet[..|result.readSet|] == result.readSet && result.writes[..|result.writes|] == result.writes;
  }

  /** No entry says "no conflict". */
  ghost predicate AllTrue<K>(cache: map<CacheKey<K>, bool>) {
    forall k | k in cache :: cache[k]
  }

  lemma KeptLonger<K>(c: map<CacheKey<K>, bool>, c': map<CacheKey<K>, bool>, c'': map<CacheKey<K>, bool>, key: K)
    requires OthersKept(c, c', key) && OthersKept(c', c'', key)
    ensures OthersKept(c, c'', key)
  {}

  lemma KeptAtFirst<K>(c: map<CacheKey<K>, bool>, writers: seq<int>, key: K)
    ensures OthersKept(c, c, key) && PairsOfWriters(writers, 0, key, true) == []
  {}

  lemma WriterStarts<K>(writers: seq<int>, i: nat, key: K)
    requires i < |writers|
    ensures AgainstWriters(writers, i, i + 1, key, true) == []
    ensures PairsOfWriters(writers, i + 1, key, true) ==
              PairsOfWriters(writers, i, key, true) + AgainstWriters(writers, i, |writers|, key, true)
  {}

  lemma WriterStep<K>(writers: seq<int>, i: nat, j: nat, key: K)
    requires i < j < |writers|
    ensures AgainstWriters(writers, i, j + 1, key, true) ==
              AgainstWriters(writers, i, j, key, true) + [ConflictPair(writers[i], writers[j], key, WriteWrite)]
  {}

  /** The keys gone through so far, each once. */
  ghost predicate Visited<K>(order: seq<K>, keys: set<K>, todo: set<K>) {
    && (forall k | k in keys :: k in order <==> k !in todo)
    && (forall i | 0 <= i < |order| :: order[i] in keys)
    && (forall i, j | 0 <= i < j < |order| :: order[i] != order[j])
  }

  lemma PhaseStarts<K, V>(results: seq<ExecutionResult<K, V>>, keys: set<K>)
    ensures Visited([], keys, keys) && ReadWriteConflicts(results, []) == [] && WriteWriteConflicts(results, []) == []
  {}

  lemma VisitOne<K>(order: seq<K>, keys: set<K>, todo: set<K>, key: K)
    requires Visited(order, keys, todo) && key in todo && key in keys
    ensures Visited(order + [key], keys, todo - {key})
  {}

  lemma AllVisited<K(!new), V>(results: seq<ExecutionResult<K, V>>, writeMap: map<K, seq<int>>, order: seq<K>)
    requires IsWriteMap(writeMap, results) && Visited(order, writeMap.Keys, {})
    ensures WrittenKeys(results, order)
  {
    forall k ensures k in order <==> Writers(results, k) != [] {
      assert Listed(writeMap, k) == Writers(results, k);
    }
  }

  lemma StaysTrue<K>(c: map<CacheKey<K>, bool>, c': map<CacheKey<K>, bool>, key: K)
    requires AllTrue(c) && OthersKept(c, c', key) && (KeyOf(key) in c' ==> c'[KeyOf(key)])
    ensures AllTrue(c')
  {}

  lemma ReadWriteStep<K(!new), V>(results: seq<ExecutionResult<K, V>>, readMap: map<K, seq<int>>,
                        writeMap: map<K, seq<int>>, order: seq<K>, key: K)
    requires IsReadMap(readMap, results) && IsWriteMap(writeMap, results) && key in writeMap
    ensures ReadWriteConflicts(results, order + [key]) ==
              ReadWriteConflicts(results, order) +
              if key in readMap then ReadWritePairs(writeMap[key], readMap[key], key) else []
  {
    assert Listed(readMap, key) == Readers(results, key) && Listed(writeMap, key) == Writers(results, key);
    assert (order + [key])[..|order|] == order;
    NoReaders(writeMap[key], key);
  }

  lemma {:induction false} NoReaders<K>(writers: seq<int>, key: K)
    ensures ReadWritePairs(writers, [], key) == []
  {
    if writers != [] { NoReaders(writers[..|writers| - 1], key); }
  }

  lemma WriteWriteStep<K(!new), V>(results: seq<ExecutionResult<K, V>>, writeMap: map<K, seq<int>>, order: seq<K>,
                         key: K, entry: Option<bool>)
    requires IsWriteMap(writeMap, results) && key in writeMap && AllDistinct(Writers(results, key))
    requires entry != Some(false)
    ensures WriteWriteConflicts(results, order + [key]) ==
              WriteWriteConflicts(results, order) + CachedWriteWrite(entry, writeMap[key], key)
    ensures |writeMap[key]| >= 2 ==> CacheAnswer(entry, writeMap[key][0], writeMap[key][1])
  {
    assert Listed(writeMap, key) == Writers(results, key);
    assert (order + [key])[..|order|] == order;
    CachedWriteWriteExactly(entry, writeMap[key], key);
  }

  class ConflictDetector<K(==, !new), V> {
    const conflictCache: ConflictCache<K>
    var conflictsDetected: nat

    constructor (cacheSize: int)
      ensures fresh(conflictCache) && conflictCache.Valid() && conflictCache.cache == map[] && conflictsDetected == 0
    {
      conflictCache := new ConflictCache(cacheSize);
      conflictsDetected := 0;
    }

    method BuildAccessMaps(results: seq<ExecutionResult<K, V>>)
      returns (readMap: map<K, seq<int>>, writeMap: map<K, seq<int>>)
      ensures IsReadMap(readMap, results) && IsWriteMap(writeMap, results)
    {
      hide Readers, Writers, CountReads, CountWrites, Append, MidRead, MidWrite;
      readMap, writeMap := map[], map[];
      NothingListed<K, V>();
      for i := 0 to |results|
        invariant IsReadMap(readMap, results[..i]) && IsWriteMap(writeMap, results[..i])
      {
        var result := results[i];
        ghost var before := results[..i];
        assert before + [result] == results[..i + 1];
        ResultStarts(readMap, writeMap, before, result);
        for j := 0 to |result.readSet|
          invariant MidRead(readMap, before, result, j)
        {
          AppendRead(readMap, before, result, j);
          readMap := Append(readMap, result.readSet[j].key, result.taskID);
        }
        for j := 0 to |result.writes|
          invariant MidWrite(writeMap, before, result, j)
        {
          AppendWrite(writeMap, before, result, j);
          writeMap := Append(writeMap, result.writes[j].key, result.taskID);
        }
        ResultEnds(readMap, writeMap, before, result);
      }
      assert results[..|results|] == results;
    }

    /** The read-write phase for one key, exactly, whatever the cache holds about it. */
    method DetectReadWrite(key: K, writers: seq<int>, readers: seq<int>) returns (conflicts: seq<ConflictPair<K>>)
      requires conflictCache.Valid()
      modifies conflictCache
      ensures conflictCache.Valid()
      ensures conflicts == CachedReadWrite(old(conflictCache.Entry(key)), writers, readers, key)
      ensures conflictCache.Entry(key) == old(conflictCache.Entry(key)) || conflictCache.Entry(key) == Some(true)
      ensures OthersKept(old(conflictCache.cache), conflictCache.cache, key)
    {
      ghost var entry, was := conflictCache.Entry(key), conflictCache.cache;
      conflicts := [];
      for i := 0 to |writers|
        invariant conflictCache.Valid() && conflicts == CachedReadWrite(entry, writers[..i], readers, key)
        invariant conflictCache.Entry(key) == entry || (entry == None && conflictCache.Entry(key) == Some(true))
        invariant OthersKept(was, conflictCache.cache, key)
      {
        ghost var before := conflicts;
        for j := 0 to |readers|
          invariant conflictCache.Valid()
          invariant conflicts == before +
            if entry == Some(false) then [] else AgainstReaders(writers[i], readers[..j], key)
          invariant conflictCache.Entry(key) == entry || (entry == None && conflictCache.Entry(key) == Some(true))
          invariant OthersKept(was, conflictCache.cache, key)
        {
          assert readers[..j + 1][..j] == readers[..j];
          if writers[i] != readers[j] {
            var conflict := conflictCache.HasConflict(writers[i], readers[j], key);
            if conflict { conflicts := conflicts + [ConflictPair(writers[i], readers[j], key, ReadWrite)]; }
          }
        }
        assert readers[..|readers|] == readers;
        assert writers[..i + 1][..i] == writers[..i];
      }
      assert writers[..|writers|] == writers;
    }

    /** The write-write phase for one key, exactly, whatever the cache holds about it. */
    method DetectWriteWrite(key: K, writers: seq<int>) returns (conflicts: seq<ConflictPair<K>>)
      requires conflictCache.Valid()
      modifies conflictCache
      ensures conflictCache.Valid()
      ensures conflicts == CachedWriteWrite(old(conflictCache.Entry(key)), writers, key)
      ensures conflictCache.Entry(key) == if |writers| < 2 then old(conflictCache.Entry(key))
                                          else Some(CacheAnswer(old(conflictCache.Entry(key)), writers[0], writers[1]))
      ensures OthersKept(old(conflictCache.cache), conflictCache.cache, key)
    {
      hide AgainstWriters, PairsOfWriters, OthersKept;
      ghost var entry, was := conflictCache.Entry(key), conflictCache.cache;
      KeptAtFirst(was, writers, key);
      ghost var answer := |writers| >= 2 && CacheAnswer(entry, writers[0], writers[1]);
      conflicts := [];
      for i := 0 to |writers|
        invariant conflictCache.Valid()
        invariant conflicts == if answer then PairsOfWriters(writers, i, key, true) else []
        invariant conflictCache.Entry(key) == if i == 0 || |writers| < 2 then entry else Some(answer)
        invariant OthersKept(was, conflictCache.cache, key)
      {
        ghost var before := conflicts;
        WriterStarts(writers, i, key);
        for j := i + 1 to |writers|
          invariant conflictCache.Valid()
          invariant conflicts == before + if answer then AgainstWriters(writers, i, j, key, true) else []
          invariant conflictCache.Entry(key) == if (i == 0 && j == 1) || |writers| < 2 then entry else Some(answer)
          invariant OthersKept(was, conflictCache.cache, key)
        {
          WriterStep(writers, i, j, key);
          ghost var middle := conflictCache.cache;
          var conflict := conflictCache.HasConflict(writers[i], writers[j], key);
          if conflict { conflicts := conflicts + [ConflictPair(writers[i], writers[j], key, WriteWrite)]; }
          KeptLonger(was, middle, conflictCache.cache, key);
        }
      }
    }

    /** With distinct writers of every key and a cache that holds no "no conflict", both phases
        report exactly what they would without the cache, each pair once for every pair of accesses
        it stands for, and the cache stays that way. */
    method DetectConflicts(results: seq<ExecutionResult<K, V>>)
      returns (conflicts: seq<ConflictPair<K>>, ghost rwOrder: seq<K>, ghost wwOrder: seq<K>)
      requires conflictCache.Valid() && AllTrue(conflictCache.cache)
      requires forall k :: AllDistinct(Writers(results, k))
      modifies this, conflictCache
      ensures conflictCache.Valid() && AllTrue(conflictCache.cache)
      ensures WrittenKeys(results, rwOrder) && WrittenKeys(results, wwOrder)
      ensures conflicts == ReadWriteConflicts(results, rwOrder) + WriteWriteConflicts(results, wwOrder)
      ensures forall p :: multiset(conflicts)[p] == TimesReported(results, p)
      ensures conflictsDetected == old(conflictsDetected) + |conflicts|
      ensures |conflicts| == |AllReadWrites(results, SetOf(rwOrder))| + |AllWriteWrites(results, SetOf(rwOrder))|
    {
      hide *;
      var readMap, writeMap := BuildAccessMaps(results);
      var first, order1 := ReadWritePhase(results, readMap, writeMap);
      var second, order2 := WriteWritePhase(results, writeMap);
      conflicts, rwOrder, wwOrder := first + second, order1, order2;
      conflictsDetected := conflictsDetected + |conflicts|;
      forall p ensures multiset(conflicts)[p] == TimesReported(results, p) {
        ReportCounts(results, rwOrder, wwOrder, p);
      }
      ReportSize(results, rwOrder, wwOrder);
    }

    method ReadWritePhase(ghost results: seq<ExecutionResult<K, V>>, readMap: map<K, seq<int>>,
                          writeMap: map<K, seq<int>>)
      returns (conflicts: seq<ConflictPair<K>>, ghost order: seq<K>)
      requires conflictCache.Valid() && AllTrue(conflictCache.cache)
      requires IsReadMap(readMap, results) && IsWriteMap(writeMap, results)
      modifies conflictCache
      ensures conflictCache.Valid() && AllTrue(conflictCache.cache)
      ensures WrittenKeys(results, order) && conflicts == ReadWriteConflicts(results, order)
    {
      hide ReadWriteConflicts, ReadWritePairs, Visited, WrittenKeys, IsReadMap,
        IsWriteMap, OthersKept, Readers, Writers;
      conflicts, order := [], [];
      var todo := writeMap.Keys;
      PhaseStarts(results, todo);
      while todo != {}
        invariant conflictCache.Valid() && AllTrue(conflictCache.cache)
        invariant todo <= writeMap.Keys && Visited(order, writeMap.Keys, todo)
        invariant conflicts == ReadWriteConflicts(results, order)
        decreases |todo|
      {
        NonemptyHas(todo);
        var key :| key in todo;
        ghost var was := conflictCache.cache;
        if key in readMap {
          var found := DetectReadWrite(key, writeMap[key], readMap[key]);
          conflicts := conflicts + found;
          StaysTrue(was, conflictCache.cache, key);
        }
        ReadWriteStep(results, readMap, writeMap, order, key);
        VisitOne(order, writeMap.Keys, todo, key);
        order := order + [key];
        todo := todo - {key};
      }
      AllVisited(results, writeMap, order);
    }

    method WriteWritePhase(ghost results: seq<ExecutionResult<K, V>>, writeMap: map<K, seq<int>>)
      returns (conflicts: seq<ConflictPair<K>>, ghost order: seq<K>)
      requires conflictCache.Valid() && AllTrue(conflictCache.cache)
      requires IsWriteMap(writeMap, results) && forall k :: AllDistinct(Writers(results, k))
      modifies conflictCache
      ensures conflictCache.Valid() && AllTrue(conflictCache.cache)
      ensures WrittenKeys(results, order) && conflicts == WriteWriteConflicts(results, order)
    {
      hide WriteWriteConflicts, Visited, WrittenKeys, IsWriteMap, OthersKept, Writers;
      conflicts, order := [], [];
      var todo := writeMap.Keys;
      PhaseStarts(results, todo);
      while todo != {}
        invariant conflictCache.Valid() && AllTrue(conflictCache.cache)
        invariant todo <= writeMap.Keys && Visited(order, writeMap.Keys, todo)
        invariant conflicts == WriteWriteConflicts(results, order)
        decreases |todo|
      {
        NonemptyHas(todo);
        var key :| key in todo;
        ghost var was := conflictCache.cache;
        WriteWriteStep(results, writeMap, order, key, conflictCache.Entry(key));
        var found := DetectWriteWrite(key, writeMap[key]);
        conflicts := conflicts + found;
        StaysTrue(was, conflictCache.cache, key);
        VisitOne(order, writeMap.Keys, todo, key);
        order := order + [key];
        todo := todo - {key};
      }
      AllVisited(results, writeMap, order);
    }
  }
}
