/** Conflict detection between execution results, and the lossy cache it consults. */
module ConflictDetection {
  import opened Collections
  import opened Deque
  import opened VersionLog
  import opened ReadSets
  import opened FastValidator

  datatype ConflictPair<K> = ConflictPair(task1: int, task2: int, key: K, kind: ConflictType)

  datatype OperationType = OperationRead | OperationWrite

  /** The tasks are no part of the key. */
  datatype CacheKey<K> = CacheKey(key1: K, key2: K, op1: OperationType, op2: OperationType)

  function KeyOf<K>(key: K): CacheKey<K> {
    CacheKey(key, key, OperationWrite, OperationRead)
  }

  const DEFAULT_CONFLICT_CACHE_SIZE: nat := 10000

  // ---------------------------------------------------------------- the uncached definition

  /** The tasks writing the key, one entry per write, in the order of the results. */
  function Writers<K(==), V>(results: seq<ExecutionResult<K, V>>, key: K): seq<int> {
    if results == [] then []
    else
      var last := results[|results| - 1];
      Writers(results[..|results| - 1], key) + Repeat(last.taskID, CountWrites(last.writes, key))
  }

  function Readers<K(==), V>(results: seq<ExecutionResult<K, V>>, key: K): seq<int> {
    if results == [] then []
    else
      var last := results[|results| - 1];
      Readers(results[..|results| - 1], key) + Repeat(last.taskID, CountReads(last.readSet, key))
  }

  function Repeat(x: int, n: nat): seq<int> {
    if n == 0 then [] else Repeat(x, n - 1) + [x]
  }

  function CountWrites<K(==), V>(writes: seq<Write<K, V>>, key: K): nat {
    if writes == [] then 0
    else CountWrites(writes[..|writes| - 1], key) + if writes[|writes| - 1].key == key then 1 else 0
  }

  function CountReads<K(==), V>(readSet: seq<ReadDescriptor<K, V>>, key: K): nat {
    if readSet == [] then 0
    else CountReads(readSet[..|readSet| - 1], key) + if readSet[|readSet| - 1].key == key then 1 else 0
  }

  /** One writer against every reader, itself excepted. */
  function AgainstReaders<K>(writer: int, readers: seq<int>, key: K): seq<ConflictPair<K>> {
    if readers == [] then []
    else
      var front, r := readers[..|readers| - 1], readers[|readers| - 1];
      AgainstReaders(writer, front, key) + if writer != r then [ConflictPair(writer, r, key, ReadWrite)] else []
  }

  function ReadWritePairs<K>(writers: seq<int>, readers: seq<int>, key: K): seq<ConflictPair<K>> {
    if writers == [] then []
    else ReadWritePairs(writers[..|writers| - 1], readers, key) + AgainstReaders(writers[|writers| - 1], readers, key)
  }

  /** The i-th writer against the later ones before the j-th; with `all` also against itself. */
  function AgainstWriters<K>(writers: seq<int>, i: nat, j: nat, key: K, all: bool): seq<ConflictPair<K>>
    requires i < j <= |writers|
  {
    if j == i + 1 then []
    else AgainstWriters(writers, i, j - 1, key, all) +
         if all || writers[i] != writers[j - 1] then [ConflictPair(writers[i], writers[j - 1], key, WriteWrite)] else []
  }

  /** The first i writers against the later ones. */
  function PairsOfWriters<K>(writers: seq<int>, i: nat, key: K, all: bool): seq<ConflictPair<K>>
    requires i <= |writers|
  {
    if i == 0 then []
    else PairsOfWriters(writers, i - 1, key, all) + AgainstWriters(writers, i - 1, |writers|, key, all)
  }

  function WriteWritePairs<K>(writers: seq<int>, key: K): seq<ConflictPair<K>> {
    PairsOfWriters(writers, |writers|, key, false)
  }

  /** Both phases over the keys in the orders the map iteration happens to give. */
  function ReadWriteConflicts<K(==), V>(results: seq<ExecutionResult<K, V>>, order: seq<K>): seq<ConflictPair<K>> {
    if order == [] then []
    else
      var key := order[|order| - 1];
      ReadWriteConflicts(results, order[..|order| - 1]) +
      ReadWritePairs(Writers(results, key), Readers(results, key), key)
  }

  function WriteWriteConflicts<K(==), V>(results: seq<ExecutionResult<K, V>>, order: seq<K>): seq<ConflictPair<K>> {
    if order == [] then []
    else
      var key := order[|order| - 1];
      WriteWriteConflicts(results, order[..|order| - 1]) + WriteWritePairs(Writers(results, key), key)
  }

  /** The written keys, each once. */
  ghost predicate WrittenKeys<K(!new), V>(results: seq<ExecutionResult<K, V>>, order: seq<K>) {
    && (forall k :: k in order <==> Writers(results, k) != [])
    && (forall i, j | 0 <= i < j < |order| :: order[i] != order[j])
  }

  // ---------------------------------------------------------------- the cache

  /** Entries about other keys are dropped at most. */
  ghost predicate OthersKept<K>(cache: map<CacheKey<K>, bool>, cache': map<CacheKey<K>, bool>, key: K) {
    forall k | k in cache' && k != KeyOf(key) :: k in cache && cache'[k] == cache[k]
  }

  /** A hit leaves the cache alone; a miss enters the answer, in place of some other entry when full. */
  ghost predicate Caches<K(!new)>(maxSize: nat, cache: map<CacheKey<K>, bool>, cache': map<CacheKey<K>, bool>, key: K,
                                  answer: bool) {
    if KeyOf(key) in cache then cache' == cache
    else if |cache| < maxSize then cache' == cache[KeyOf(key) := answer]
    else exists k :: k in cache && cache' == (cache - {k})[KeyOf(key) := answer]
  }

  class ConflictCache<K(==, !new)> {
    const maxSize: nat
    var cache: map<CacheKey<K>, bool>

    ghost predicate Valid()
      reads this
    {
      |cache| <= maxSize && 0 < maxSize
    }

    constructor (size: int)
      ensures Valid() && cache == map[]
      ensures maxSize == if size <= 0 then DEFAULT_CONFLICT_CACHE_SIZE else size
    {
      maxSize := if size <= 0 then DEFAULT_CONFLICT_CACHE_SIZE else size;
      cache := map[];
    }

    /** What the cache holds about the key. */
    function Entry(key: K): Option<bool>
      reads this
    {
      if KeyOf(key) in cache then Some(cache[KeyOf(key)]) else None
    }

    /** A hit changes nothing; a miss records the answer and evicts some other entry when full. */
    method HasConflict(task1: int, task2: int, key: K) returns (conflict: bool)
      requires Valid()
      modifies this
      ensures Valid() && conflict == CacheAnswer(old(Entry(key)), task1, task2)
      ensures Entry(key) == Some(conflict)
      ensures OthersKept(old(cache), cache, key) && Caches(maxSize, old(cache), cache, key, conflict)
    {
      var cacheKey := KeyOf(key);
      if cacheKey in cache {
        return cache[cacheKey];
      }
      conflict := task1 != task2;
      if |cache| >= maxSize {
        var keys := cache.Keys;
        assert |keys| > 0;
        NonemptyHas(keys);
        var k :| k in keys;
        cache := cache - {k};
      }
      cache := cache[cacheKey := conflict];
    }
  }

  predicate CacheAnswer(entry: Option<bool>, task1: int, task2: int) {
    match entry
    case Some(b) => b
    case None => task1 != task2
  }

  // ---------------------------------------------------------------- what the cache makes of one key

  /** The pairs reported for one key when the cache holds `entry` about it beforehand. */
  function CachedReadWrite<K>(entry: Option<bool>, writers: seq<int>, readers: seq<int>, key: K): seq<ConflictPair<K>> {
    if entry == Some(false) then [] else ReadWritePairs(writers, readers, key)
  }

  /** The first pair decides for all. */
  function CachedWriteWrite<K>(entry: Option<bool>, writers: seq<int>, key: K): seq<ConflictPair<K>> {
    if |writers| >= 2 && CacheAnswer(entry, writers[0], writers[1]) then PairsOfWriters(writers, |writers|, key, true)
    else []
  }

  ghost predicate AllDistinct(writers: seq<int>) {
    forall i, j | 0 <= i < j < |writers| :: writers[i] != writers[j]
  }

  ghost predicate AllEqual(writers: seq<int>) {
    forall i, j | 0 <= i < j < |writers| :: writers[i] == writers[j]
  }

  /** No task reads the key that another task writes. */
  ghost predicate NoOtherReader(writers: seq<int>, readers: seq<int>) {
    forall w, r | w in writers && r in readers :: w == r
  }

  lemma NoReadWritePairs<K>(writers: seq<int>, readers: seq<int>, key: K)
    ensures ReadWritePairs(writers, readers, key) == [] <==> NoOtherReader(writers, readers)
  {
    var ps := ReadWritePairs(writers, readers, key);
    if NoOtherReader(writers, readers) {
      if ps != [] { ReadWritePairsExactly(writers, readers, key, ps[0]); }
    } else {
      var w, r :| w in writers && r in readers && w != r;
      ReadWritePairsExactly(writers, readers, key, ConflictPair(w, r, key, ReadWrite));
    }
  }

  /** The read-write pairs of a key are right exactly when the cache does not say "no conflict", or
      no task reads the key that another one writes. */
  lemma CachedReadWriteExactly<K>(entry: Option<bool>, writers: seq<int>, readers: seq<int>, key: K)
    ensures CachedReadWrite(entry, writers, readers, key) == ReadWritePairs(writers, readers, key)
       <==> entry != Some(false) || NoOtherReader(writers, readers)
  {
    NoReadWritePairs(writers, readers, key);
  }

  ghost predicate PairAt<K>(writers: seq<int>, i: int, m: int, key: K, all: bool, p: ConflictPair<K>) {
    0 <= i < m < |writers| && p == ConflictPair(writers[i], writers[m], key, WriteWrite)
    && (all || writers[i] != writers[m])
  }

  ghost predicate PairFrom<K>(writers: seq<int>, i: int, j: int, key: K, all: bool, p: ConflictPair<K>) {
    exists m :: m < j && PairAt(writers, i, m, key, all, p)
  }

  ghost predicate PairBelow<K>(writers: seq<int>, n: int, key: K, all: bool, p: ConflictPair<K>) {
    exists i :: i < n && PairFrom(writers, i, |writers|, key, all, p)
  }

  lemma {:induction false} AgainstLaterExactly<K>(writers: seq<int>, i: nat, j: nat, key: K, all: bool,
                                                  p: ConflictPair<K>)
    requires i < j <= |writers|
    ensures p in AgainstWriters(writers, i, j, key, all) <==> PairFrom(writers, i, j, key, all, p)
  {
    if j > i + 1 {
      AgainstLaterExactly(writers, i, j - 1, key, all, p);
      PairFromStep(writers, i, j, key, all, p);
    }
  }

  lemma PairFromStep<K>(writers: seq<int>, i: nat, j: nat, key: K, all: bool, p: ConflictPair<K>)
    requires i < j - 1 < |writers|
    ensures PairFrom(writers, i, j, key, all, p)
       <==> PairFrom(writers, i, j - 1, key, all, p) || PairAt(writers, i, j - 1, key, all, p)
  {
    hide PairAt;
  }

  lemma PairBelowStep<K>(writers: seq<int>, n: nat, key: K, all: bool, p: ConflictPair<K>)
    requires n > 0
    ensures PairBelow(writers, n, key, all, p)
       <==> PairBelow(writers, n - 1, key, all, p) || PairFrom(writers, n - 1, |writers|, key, all, p)
  {
    hide PairFrom;
  }

  lemma {:induction false} PairsExactly<K>(writers: seq<int>, n: nat, key: K, all: bool, p: ConflictPair<K>)
    requires n <= |writers|
    ensures p in PairsOfWriters(writers, n, key, all) <==> PairBelow(writers, n, key, all, p)
  {
    hide PairBelow, PairFrom, PairAt, AgainstWriters;
    if n == 0 {
      NothingBelow(writers, key, all, p);
    } else {
      PairsExactly(writers, n - 1, key, all, p);
      AgainstLaterExactly(writers, n - 1, |writers|, key, all, p);
      PairBelowStep(writers, n, key, all, p);
    }
  }

  lemma NothingBelow<K>(writers: seq<int>, key: K, all: bool, p: ConflictPair<K>)
    ensures !PairBelow(writers, 0, key, all, p)
  {}

  lemma SomePair<K>(writers: seq<int>, i: nat, j: nat, key: K, all: bool)
    requires i < j < |writers| && (all || writers[i] != writers[j])
    ensures ConflictPair(writers[i], writers[j], key, WriteWrite) in PairsOfWriters(writers, |writers|, key, all)
  {
    var p := ConflictPair(writers[i], writers[j], key, WriteWrite);
    assert PairAt(writers, i, j, key, all, p);
    assert PairFrom(writers, i, |writers|, key, all, p);
    PairsExactly(writers, |writers|, key, all, p);
  }

  lemma OnlyPairs<K>(writers: seq<int>, key: K, all: bool, p: ConflictPair<K>) returns (i: int, j: int)
    requires p in PairsOfWriters(writers, |writers|, key, all)
    ensures PairAt(writers, i, j, key, all, p)
  {
    PairsExactly(writers, |writers|, key, all, p);
    i :| i < |writers| && PairFrom(writers, i, |writers|, key, all, p);
    j :| j < |writers| && PairAt(writers, i, j, key, all, p);
  }

  lemma {:induction false} AgainstAll<K>(writers: seq<int>, i: nat, j: nat, key: K)
    requires i < j <= |writers| && AllDistinct(writers)
    ensures AgainstWriters(writers, i, j, key, true) == AgainstWriters(writers, i, j, key, false)
  {
    if j > i + 1 { AgainstAll(writers, i, j - 1, key); }
  }

  lemma {:induction false} AllPairsOfDistinct<K>(writers: seq<int>, n: nat, key: K)
    requires n <= |writers| && AllDistinct(writers)
    ensures PairsOfWriters(writers, n, key, true) == PairsOfWriters(writers, n, key, false)
  {
    if n > 0 {
      AllPairsOfDistinct(writers, n - 1, key);
      AgainstAll(writers, n - 1, |writers|, key);
    }
  }

  /** The write-write pairs of a key are right exactly when fewer than two writes touch it, or all
      its writers differ and the cache does not say "no conflict", or they are all the same task and
      the cache does not say "conflict". */
  lemma CachedWriteWriteExactly<K>(entry: Option<bool>, writers: seq<int>, key: K)
    ensures CachedWriteWrite(entry, writers, key) == WriteWritePairs(writers, key)
      <==>
      || |writers| < 2
      || (AllDistinct(writers) && entry != Some(false))
      || (AllEqual(writers) && entry != Some(true))
  {
    var n := |writers|;
    if n >= 2 {
      SomePair(writers, 0, 1, key, true);
      if AllDistinct(writers) {
        AllPairsOfDistinct(writers, n, key);
      } else {
        MissesSelf(writers, key);
      }
      if AllEqual(writers) {
        NoPairs(writers, key);
      } else {
        var i, j :| 0 <= i < j < n && writers[i] != writers[j];
        SomePair(writers, i, j, key, false);
      }
      hide PairsOfWriters;
    }
  }

  /** A task writing the key twice makes a pair with itself, which is no conflict. */
  lemma MissesSelf<K>(writers: seq<int>, key: K)
    requires !AllDistinct(writers)
    ensures PairsOfWriters(writers, |writers|, key, true) != PairsOfWriters(writers, |writers|, key, false)
  {
    var i, j :| 0 <= i < j < |writers| && writers[i] == writers[j];
    SomePair(writers, i, j, key, true);
    var p := ConflictPair(writers[i], writers[j], key, WriteWrite);
    if p in PairsOfWriters(writers, |writers|, key, false) {
      var a, b := OnlyPairs(writers, key, false, p);
    }
  }

  /** Task 1 writes key 7 twice, task 2 once: the pair of 1 with itself hides the real conflict. */
  lemma DoubleWriteHidesConflict()
    ensures CachedWriteWrite(None, [1, 1, 2], 7) == []
    ensures ConflictPair(1, 2, 7, WriteWrite) in WriteWritePairs([1, 1, 2], 7)
  {
    SomePair([1, 1, 2], 0, 2, 7, false);
  }

  lemma NoPairs<K>(writers: seq<int>, key: K)
    requires AllEqual(writers)
    ensures WriteWritePairs(writers, key) == []
  {
    var ps := WriteWritePairs(writers, key);
    if ps != [] {
      var i, j := OnlyPairs(writers, key, false, ps[0]);
      assert false;
    }
  }

  // ---------------------------------------------------------------- what is reported

  lemma {:induction false} RepeatExactly(x: int, n: nat)
    ensures |Repeat(x, n)| == n && forall i | 0 <= i < n :: Repeat(x, n)[i] == x
  {
    if n > 0 { RepeatExactly(x, n - 1); }
  }

  /** With distinct task ids the writers of a key differ exactly when no task writes it twice. */
  lemma {:induction false} WritersDistinct<K, V>(results: seq<ExecutionResult<K, V>>, key: K)
    requires forall i, j | 0 <= i < j < |results| :: results[i].taskID != results[j].taskID
    ensures AllDistinct(Writers(results, key)) <==>
      forall i | 0 <= i < |results| :: CountWrites(results[i].writes, key) <= 1
    ensures forall t | t in Writers(results, key) :: exists i :: 0 <= i < |results| && results[i].taskID == t
  {
    if results != [] {
      var front, last := results[..|results| - 1], results[|results| - 1];
      var n, w := CountWrites(last.writes, key), Writers(front, key);
      WritersDistinct(front, key);
      RepeatExactly(last.taskID, n);
      var all := w + Repeat(last.taskID, n);
      if n >= 2 {
        assert all[|w|] == all[|w| + 1];
      } else if !AllDistinct(w) {
        var i, j :| 0 <= i < j < |w| && w[i] == w[j];
        assert all[i] == all[j];
      } else {
        forall i, j | 0 <= i < j < |all| ensures all[i] != all[j] {
          assert w[i] in w;
        }
      }
      forall t | t in all ensures exists i :: 0 <= i < |results| && results[i].taskID == t {
        if t in w {
          var i :| 0 <= i < |front| && front[i].taskID == t;
          assert results[i].taskID == t;
        }
      }
    }
  }

  lemma {:induction false} AgainstReadersExactly<K>(writer: int, readers: seq<int>, key: K, p: ConflictPair<K>)
    ensures p in AgainstReaders(writer, readers, key)
       <==> p == ConflictPair(writer, p.task2, key, ReadWrite) && p.task2 in readers && p.task2 != writer
  {
    if readers != [] {
      var front := readers[..|readers| - 1];
      AgainstReadersExactly(writer, front, key, p);
      assert readers == front + [readers[|readers| - 1]];
    }
  }

  lemma {:induction false} ReadWritePairsExactly<K>(writers: seq<int>, readers: seq<int>, key: K, p: ConflictPair<K>)
    ensures p in ReadWritePairs(writers, readers, key)
       <==> p.key == key && p.kind == ReadWrite && p.task1 in writers && p.task2 in readers && p.task1 != p.task2
  {
    if writers != [] {
      var front, last := writers[..|writers| - 1], writers[|writers| - 1];
      ReadWritePairsExactly(front, readers, key, p);
      AgainstReadersExactly(last, readers, key, p);
      assert writers == front + [last];
    }
  }

  lemma {:induction false} InReadWriteConflicts<K, V>(results: seq<ExecutionResult<K, V>>, order: seq<K>,
                                                      p: ConflictPair<K>)
    ensures p in ReadWriteConflicts(results, order)
      <==>
      && p.key in order && p.kind == ReadWrite
      && p.task1 in Writers(results, p.key) && p.task2 in Readers(results, p.key)
      && p.task1 != p.task2
  {
    if order != [] {
      var front, key := order[..|order| - 1], order[|order| - 1];
      InReadWriteConflicts(results, front, p);
      ReadWritePairsExactly(Writers(results, key), Readers(results, key), key, p);
      assert order == front + [key];
    }
  }

  lemma {:induction false} InWriteWriteConflicts<K, V>(results: seq<ExecutionResult<K, V>>, order: seq<K>,
                                                       p: ConflictPair<K>)
    ensures p in WriteWriteConflicts(results, order)
       <==> p.key in order && PairBelow(Writers(results, p.key), |Writers(results, p.key)|, p.key, false, p)
  {
    if order != [] {
      var front, key := order[..|order| - 1], order[|order| - 1];
      var writers := Writers(results, key);
      InWriteWriteConflicts(results, front, p);
      PairsExactly(writers, |writers|, key, false, p);
      assert order == front + [key];
      if p in WriteWritePairs(writers, key) { var i, j := OnlyPairs(writers, key, false, p); }
      hide PairBelow, WriteWritePairs, PairsOfWriters;
    }
  }

  /** Detection reports exactly the pairs of a writer and another task reading the same key, and the
      pairs of two different tasks writing the same key, the earlier write first. */
  lemma ReportedExactly<K(!new), V>(results: seq<ExecutionResult<K, V>>, rwOrder: seq<K>, wwOrder: seq<K>,
                          p: ConflictPair<K>)
    requires WrittenKeys(results, rwOrder) && WrittenKeys(results, wwOrder)
    ensures var writers := Writers(results, p.key);
      p in ReadWriteConflicts(results, rwOrder) + WriteWriteConflicts(results, wwOrder) <==>
        (p.kind == ReadWrite && p.task1 in writers && p.task2 in Readers(results, p.key) && p.task1 != p.task2)
        || PairBelow(writers, |writers|, p.key, false, p)
  {
    var writers := Writers(results, p.key);
    InReadWriteConflicts(results, rwOrder, p);
    InWriteWriteConflicts(results, wwOrder, p);
    if PairBelow(writers, |writers|, p.key, false, p) {
      var i :| i < |writers| && PairFrom(writers, i, |writers|, p.key, false, p);
      assert writers != [];
    }
  }
}
