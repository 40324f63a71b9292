/** Multi-version storage: hash buckets of version chains, refining a map from keys to chains. */
module LockFreeStorage {
  import opened Collections
  import opened Deque
  import opened PowerOfTwo
  import opened VersionLog
  import opened VersionChains
  import opened ReadSets
  import GC = GarbageCollection

  const DEFAULT_BUCKET_COUNT: nat := 1024

  /** The chain is well formed, and it and its nodes belong to key k. */
  ghost predicate OwnedBy<K, V>(chain: VersionChain<V>, owner: map<object, K>, k: K)
    reads owner.Keys
  {
    && chain in owner && owner[chain] == k
    && (forall i | 0 <= i < |chain.nodes| :: chain.nodes[i] in owner && owner[chain.nodes[i]] == k)
    && chain.Valid()
  }

  /** No two keys share a chain or a node. */
  ghost predicate Separate<K, V>(chains: map<K, VersionChain<V>>, owner: map<object, K>)
    reads owner.Keys
  {
    forall k | k in chains :: OwnedBy(chains[k], owner, k)
  }

  ghost function StoreOf<K, V>(chains: map<K, VersionChain<V>>, owner: map<object, K>): (s: Store<K, V>)
    requires Separate(chains, owner)
    reads owner.Keys
    ensures s.Keys == chains.Keys
  {
    map k | k in chains :: assert OwnedBy(chains[k], owner, k); chains[k].Contents()
  }

  lemma StoreWithout<K, V>(chains: map<K, VersionChain<V>>, owner: map<object, K>, key: K)
    requires Separate(chains, owner) && key in chains
    ensures Separate(chains - {key}, owner)
    ensures StoreOf(chains - {key}, owner) == StoreOf(chains, owner) - {key}
    ensures |chains - {key}| == |chains| - 1
  {
    assert (chains - {key}).Keys == chains.Keys - {key};
    assert |chains| == |chains.Keys| && |chains - {key}| == |(chains - {key}).Keys|;
  }

  lemma AfterInsert<K, V>(chains: map<K, VersionChain<V>>, owner: map<object, K>, key: K, was: Store<K, V>)
    requires was.Keys == chains.Keys && key in chains && chains[key] in owner && owner[chains[key]] == key
    requires chains[key].nodes != [] && chains[key].nodes[0] !in owner && chains[key].Valid()
    requires forall i | 1 <= i < |chains[key].nodes| ::
               chains[key].nodes[i] in owner && owner[chains[key].nodes[i]] == key
    requires forall k | k in chains && k != key :: OwnedBy(chains[k], owner, k) && chains[k].Contents() == was[k]
    ensures Separate(chains, owner[chains[key].nodes[0] := key])
    ensures StoreOf(chains, owner[chains[key].nodes[0] := key]) == was[key := chains[key].Contents()]
  {
    hide VersionChain.Valid, VersionChain.Contents;
    var owner' := owner[chains[key].nodes[0] := key];
    forall k | k in chains ensures OwnedBy(chains[k], owner', k) {
      if k != key { assert OwnedBy(chains[k], owner, k); }
    }
  }

  lemma AllChains<K, V>(chains: map<K, VersionChain<V>>, owner: map<object, K>)
    requires Separate(chains, owner)
    ensures forall k | k in chains ::
              OwnedBy(chains[k], owner, k) && StoreOf(chains, owner)[k] == chains[k].Contents()
  {}

  lemma AddChain<K, V>(chains: map<K, VersionChain<V>>, owner: map<object, K>, key: K, chain: VersionChain<V>)
    requires Separate(chains, owner) && key !in chains && chain !in owner
    requires chain.Valid() && chain.nodes == []
    ensures Separate(chains[key := chain], owner[chain := key])
    ensures StoreOf(chains[key := chain], owner[chain := key]) == StoreOf(chains, owner)[key := []]
  {
    hide VersionChain.Valid;
    forall k | k in chains ensures OwnedBy(chains[k], owner[chain := key], k) {
      assert OwnedBy(chains[k], owner, k);
    }
  }

  ghost predicate Masked(count: nat, mask: nat) {
    count == mask + 1 && exists b :: count == Pow2(b)
  }

  function Slot(h: nat, n: nat): (i: nat)
    requires n > 0
    ensures i < n
  {
    h % n
  }

  type Buckets<!K, V> = seq<map<K, VersionChain<V>>>

  ghost predicate InBucket<K, V>(buckets: Buckets<K, V>, chains: map<K, VersionChain<V>>, k: K, i: nat) {
    i < |buckets| && k in chains && k in buckets[i] && buckets[i][k] == chains[k]
  }

  /** Each key's chain lies in the bucket its hash selects, and nowhere else. */
  ghost predicate Placed<K, V>(buckets: Buckets<K, V>, chains: map<K, VersionChain<V>>, hash: K -> nat) {
    && |buckets| > 0
    && (forall k | k in chains :: InBucket(buckets, chains, k, Slot(hash(k), |buckets|)))
    && (forall i, k | 0 <= i < |buckets| && k in buckets[i] :: k in chains && i == Slot(hash(k), |buckets|))
  }

  lemma KeysPlaced<K, V>(buckets: Buckets<K, V>, chains: map<K, VersionChain<V>>, hash: K -> nat, i: nat)
    requires Placed(buckets, chains, hash) && i < |buckets|
    ensures buckets[i].Keys == set k | k in chains && Slot(hash(k), |buckets|) == i
  {
    hide Slot;
    forall k | k in chains && Slot(hash(k), |buckets|) == i ensures k in buckets[i] {
      assert InBucket(buckets, chains, k, i);
    }
  }

  lemma AddPlaced<K, V>(buckets: Buckets<K, V>, chains: map<K, VersionChain<V>>, hash: K -> nat, key: K, i: nat,
                        chain: VersionChain<V>)
    requires Placed(buckets, chains, hash) && i == Slot(hash(key), |buckets|)
    ensures Placed(buckets[i := buckets[i][key := chain]], chains[key := chain], hash)
  {
    hide Slot;
    var buckets', chains' := buckets[i := buckets[i][key := chain]], chains[key := chain];
    forall k | k in chains' ensures InBucket(buckets', chains', k, Slot(hash(k), |buckets|)) {
      if k != key { assert InBucket(buckets, chains, k, Slot(hash(k), |buckets|)); }
    }
  }

  lemma RemovePlaced<K, V>(buckets: Buckets<K, V>, chains: map<K, VersionChain<V>>, hash: K -> nat, key: K, i: nat)
    requires Placed(buckets, chains, hash) && i == Slot(hash(key), |buckets|)
    ensures Placed(buckets[i := buckets[i] - {key}], chains - {key}, hash)
  {
    hide Slot;
    var buckets', chains' := buckets[i := buckets[i] - {key}], chains - {key};
    forall k | k in chains' ensures InBucket(buckets', chains', k, Slot(hash(k), |buckets|)) {
      assert InBucket(buckets, chains, k, Slot(hash(k), |buckets|));
    }
  }

  /** The keys of the first i buckets. */
  ghost function Below<K, V>(s: Store<K, V>, hash: K -> nat, n: nat, i: nat): set<K>
    requires n > 0
  {
    set k | k in s && Slot(hash(k), n) < i
  }

  /** The store with the first i buckets collected. */
  ghost function Staged<K, V>(s: Store<K, V>, hash: K -> nat, n: nat, i: nat, before: int): Store<K, V>
    requires n > 0
  {
    GC.GcKeys(s, Below(s, hash, n, i), before)
  }

  lemma StartBucket<K, V>(s: Store<K, V>, hash: K -> nat, n: nat, i: nat, before: int, todo: set<K>)
    requires n > 0
    requires var done := Staged(s, hash, n, i, before);
      todo == Below(done, hash, n, i + 1) - Below(done, hash, n, i)
    ensures Below(s, hash, n, i + 1) - todo == Below(s, hash, n, i)
    ensures forall k | k in todo :: k in s && k in Below(s, hash, n, i + 1) && Slot(hash(k), n) == i
  {
    hide Slot;
  }

  lemma AllBuckets<K, V>(s: Store<K, V>, hash: K -> nat, n: nat, before: int)
    requires n > 0
    ensures Staged(s, hash, n, 0, before) == s && Staged(s, hash, n, n, before) == GC.GcStore(s, before)
  {
    hide Slot;
    assert Below(s, hash, n, 0) == {} && Below(s, hash, n, n) == s.Keys;
    GC.NothingDone(s, before);
  }

  lemma OneLess<K>(all: set<K>, todo: set<K>, key: K)
    requires key in all && key in todo
    ensures all - (todo - {key}) == all - todo + {key} && key !in all - todo
  {}

  lemma NoneLeft<K>(all: set<K>, todo: set<K>)
    requires todo == {}
    ensures all - todo == all
  {}

  /** What a collection leaves alone until its end. */
  datatype Rest = Rest(frame: set<object>, count: nat, versions: int, freed: nat)

  lemma TwoSteps<K, V>(s: Store<K, V>, w: Write<K, V>, n: int)
    requires GC.Counted(s, n)
    ensures var mid := s[w.key := ChainOf(s, w.key)];
      var s' := mid[w.key := [Entry(w.version, w.value, Estimate)] + mid[w.key]];
      s' == Install(s, w) && GC.Counted(s', n + 1)
  {
    GC.InstallCounted(s, w, n);
    var mid := s[w.key := ChainOf(s, w.key)];
    assert mid[w.key := [Entry(w.version, w.value, Estimate)] + mid[w.key]] == Install(s, w);
  }

  class LockFreeStorage<K(==), V> {
    const hash: K -> nat
    const bucketMask: nat
    var buckets: seq<map<K, VersionChain<V>>>
    var totalKeys: int
    var totalVersions: int
    var versionsFreed: nat
    ghost var chains: map<K, VersionChain<V>>
    /** The key each chain and each node belongs to. */
    ghost var owner: map<object, K>

    /** Structure and key count; the version count is settled once per collection. */
    ghost predicate Shape()
      reads this, owner.Keys
    {
      && Placed(buckets, chains, hash) && Masked(|buckets|, bucketMask)
      && Separate(chains, owner) && this !in owner
      && totalKeys == |chains|
    }

    /** What the storage holds. */
    ghost function Abs(): (s: Store<K, V>)
      reads this, owner.Keys
      requires Shape()
    {
      StoreOf(chains, owner)
    }

    ghost predicate Valid()
      reads this, owner.Keys
    {
      Shape() && GC.Counted(Abs(), totalVersions)
    }

    constructor (hash: K -> nat, bucketCount: nat)
      requires bucketCount <= WORD / 4
      ensures Valid() && Abs() == map[] && fresh(owner.Keys)
      ensures |buckets| == RoundUp(if bucketCount == 0 then DEFAULT_BUCKET_COUNT else bucketCount)
    {
      var count := RoundUp(if bucketCount == 0 then DEFAULT_BUCKET_COUNT else bucketCount);
      ghost var b := RoundedIsPower(if bucketCount == 0 then DEFAULT_BUCKET_COUNT else bucketCount);
      this.hash := hash;
      bucketMask := count - 1;
      buckets := seq(count, _ => map[]);
      totalKeys, totalVersions, versionsFreed := 0, 0, 0;
      chains, owner := map[], map[];
    }

    /** hash & mask picks a bucket in range for every hash. */
    function BucketIndex(key: K): (i: nat)
      reads this
      requires Placed(buckets, chains, hash) && Masked(|buckets|, bucketMask)
      ensures i == Slot(hash(key), |buckets|)
    {
      ghost var b :| |buckets| == Pow2(b);
      MaskIsRemainder(hash(key), b);
      And(hash(key), bucketMask)
    }

    method Read(key: K, txID: int) returns (r: ReadResult<V>)
      requires Shape()
      ensures r == VersionLog.Read(Abs(), key, txID)
    {
      var i := BucketIndex(key);
      BucketHolds(key, i);
      if key !in buckets[i] {
        return Missing();
      }
      r := buckets[i][key].FindVersion(txID);
    }

    method Validate(readSet: seq<ReadDescriptor<K, V>>, txID: int) returns (ok: bool)
      requires Shape()
      ensures ok <==> AllValid(Abs(), readSet, txID)
    {
      hide Shape, Abs, IsReadValid, VersionLog.Read;
      for i := 0 to |readSet|
        invariant forall j | 0 <= j < i :: IsReadValid(readSet[j], VersionLog.Read(Abs(), readSet[j].key, txID))
      {
        var current := Read(readSet[i].key, txID);
        if !IsReadValid(readSet[i], current) {
          return false;
        }
      }
      return true;
    }

    /** Puts a new empty chain into the bucket of the key. */
    method CreateChain(key: K, i: nat) returns (chain: VersionChain<V>)
      requires Shape() && key !in chains && i == Slot(hash(key), |buckets|)
      modifies this
      ensures Shape() && fresh(chain) && chain.nodes == []
      ensures chains == old(chains)[key := chain] && owner == old(owner)[chain := key]
      ensures totalVersions == old(totalVersions) && Abs() == old(Abs())[key := []]
    {
      hide VersionChain.Valid, Placed, Separate, StoreOf, Masked, Slot;
      chain := new VersionChain();
      AddPlaced(buckets, chains, hash, key, i, chain);
      assert i < |buckets|;
      buckets := buckets[i := buckets[i][key := chain]];
      totalKeys := totalKeys + 1;
      AddChain(chains, owner, key, chain);
      chains, owner := chains[key := chain], owner[chain := key];
    }

    /** Puts a new version in front of the key's chain. */
    method InsertInto(key: K, chain: VersionChain<V>, version: Version, value: Option<V>)
      requires Shape() && key in chains && chain == chains[key]
      modifies chain, this`owner, this`totalVersions
      ensures Shape() && fresh(owner.Keys - old(owner.Keys)) && totalVersions == old(totalVersions) + 1
      ensures Abs() == old(Abs())[key := [Entry(version, value, Estimate)] + old(Abs())[key]]
    {
      hide VersionChain.Valid, VersionChain.Contents, Placed, Masked, Separate, StoreOf;
      AllChains(chains, owner);
      ghost var was := Abs();
      chain.Insert(version, value);
      forall i | 1 <= i < |chain.nodes| ensures chain.nodes[i] in owner && owner[chain.nodes[i]] == key {
        assert chain.nodes[i] == chain.nodes[1..][i - 1];
      }
      forall k | k in chains && k != key ensures OwnedBy(chains[k], owner, k) && chains[k].Contents() == was[k] {
        assert old(OwnedBy(chains[k], owner, k));
      }
      AfterInsert(chains, owner, key, was);
      totalVersions := totalVersions + 1;
      owner := owner[chain.nodes[0] := key];
    }

    /** The chain of the key, created when the key is new. */
    method ChainFor(key: K) returns (chain: VersionChain<V>)
      requires Shape()
      modifies this
      ensures Shape() && key in chains && chain == chains[key] && fresh(owner.Keys - old(owner.Keys))
      ensures totalVersions == old(totalVersions) && Abs() == old(Abs())[key := ChainOf(old(Abs()), key)]
      ensures fresh(chain) || chain in old(owner)
    {
      hide Placed, Separate, Masked, StoreOf, Slot;
      BucketReady();
      var i := BucketIndex(key);
      BucketHolds(key, i);
      if key !in buckets[i] {
        chain := CreateChain(key, i);
      } else {
        chain := buckets[i][key];
      }
    }

    method Write(key: K, value: Option<V>, version: Version)
      requires Valid()
      modifies this, owner.Keys
      ensures Valid() && fresh(owner.Keys - old(owner.Keys))
      ensures Abs() == Install(old(Abs()), VersionLog.Write(key, version, value))
    {
      hide Shape, Abs, GC.Counted, ChainOf, Install;
      TwoSteps(Abs(), VersionLog.Write(key, version, value), totalVersions);
      var chain := ChainFor(key);
      InsertInto(key, chain, version, value);
    }

    lemma BucketReady()
      requires Shape()
      ensures Placed(buckets, chains, hash) && Masked(|buckets|, bucketMask)
    {}

    lemma BucketHolds(key: K, i: nat)
      requires Shape() && i == Slot(hash(key), |buckets|)
      ensures i < |buckets| && (key in buckets[i] <==> key in chains)
      ensures key in chains ==> buckets[i][key] == chains[key] && OwnedBy(chains[key], owner, key)
      ensures key in Abs() <==> key in chains
      ensures key in chains ==> Abs()[key] == chains[key].Contents()
    {
      if key in chains { assert InBucket(buckets, chains, key, i); }
    }

    /** Marks a version in the chain of one key. */
    method MarkIn(key: K, chain: VersionChain<V>, version: Version)
      requires Shape() && key in chains && chain == chains[key]
      modifies chain.nodes
      ensures unchanged(this) && Shape() && Abs() == old(Abs())[key := Mark(old(Abs())[key], version)]
    {
      hide VersionChain.Valid, VersionChain.Contents, Placed, Masked;
      assert OwnedBy(chain, owner, key);
      chain.MarkVersionAsCommitted(version);
      forall k | k in chains && k != key
        ensures OwnedBy(chains[k], owner, k) && chains[k].Contents() == old(chains[k].Contents())
      {
        assert old(OwnedBy(chains[k], owner, k));
      }
    }

    method CommitOne(write: Write<K, V>)
      requires Shape()
      modifies owner.Keys
      ensures unchanged(this) && Shape() && Abs() == VersionLog.CommitOne(old(Abs()), write)
    {
      BucketReady();
      var i := BucketIndex(write.key);
      BucketHolds(write.key, i);
      hide Shape, Abs, Slot;
      if write.key in buckets[i] {
        MarkIn(write.key, buckets[i][write.key], write.version);
      }
    }

    method Commit(writes: seq<Write<K, V>>)
      requires Valid()
      modifies owner.Keys
      ensures unchanged(this) && Valid() && Abs() == VersionLog.Commit(old(Abs()), writes)
    {
      hide Shape, Abs, GC.Counted, VersionLog.CommitOne;
      for i := 0 to |writes|
        invariant unchanged(this) && Valid() && Abs() == VersionLog.Commit(old(Abs()), writes[..i])
      {
        GC.CommitOneCounted(Abs(), writes[i], totalVersions);
        CommitOne(writes[i]);
        assert writes[..i + 1][..i] == writes[..i];
      }
      assert writes[..|writes|] == writes;
    }

    /** Collects the chain of one key. */
    method GcIn(key: K, chain: VersionChain<V>, before: int) returns (freed: nat)
      requires Shape() && key in chains && chain == chains[key]
      modifies chain, chain.nodes
      ensures unchanged(this) && Shape() && Abs() == old(Abs())[key := Gc(old(Abs())[key], before)]
      ensures freed == |old(Abs())[key]| - |Gc(old(Abs())[key], before)|
    {
      hide VersionChain.Valid, VersionChain.Contents, Placed, Masked;
      assert OwnedBy(chain, owner, key);
      ghost var es := chain.Contents();
      assert |es| == |chain.nodes|;
      freed := chain.Gc(before);
      assert |chain.Contents()| == |chain.nodes| && chain.Contents() == Gc(es, before);
      forall i | 0 <= i < |chain.nodes| ensures chain.nodes[i] in owner && owner[chain.nodes[i]] == key {
        assert chain.nodes[i] in chain.nodes;
      }
      forall k | k in chains && k != key
        ensures OwnedBy(chains[k], owner, k) && chains[k].Contents() == old(chains[k].Contents())
      {
        assert old(OwnedBy(chains[k], owner, k));
      }
    }

    /** Takes a key out of its bucket. */
    method DeleteKey(key: K, i: nat)
      requires Shape() && key in chains && i == Slot(hash(key), |buckets|)
      modifies this
      ensures Shape() && Abs() == old(Abs()) - {key} && |buckets| == |old(buckets)|
      ensures owner == old(owner) && totalVersions == old(totalVersions) && versionsFreed == old(versionsFreed)
    {
      hide VersionChain.Valid, VersionChain.Contents, OwnedBy, Separate, StoreOf, Placed, Masked, Slot;
      RemovePlaced(buckets, chains, hash, key, i);
      StoreWithout(chains, owner, key);
      assert i < |buckets|;
      buckets := buckets[i := buckets[i] - {key}];
      totalKeys := totalKeys - 1;
      chains := chains - {key};
    }

    /** Deletes a key whose chain is empty. */
    method DropIfEmpty(key: K, chain: VersionChain<V>, i: nat)
      requires Shape() && key in chains && chain == chains[key] && i == Slot(hash(key), |buckets|)
      modifies this
      ensures Shape() && |buckets| == |old(buckets)|
      ensures owner == old(owner) && totalVersions == old(totalVersions) && versionsFreed == old(versionsFreed)
      ensures Abs() == if old(Abs())[key] == [] then old(Abs()) - {key} else old(Abs())
    {
      EmptyChain(key);
      hide Shape, Abs, Slot;
      if chain.head == null { DeleteKey(key, i); }
    }

    /** The storage holds s while a collection is under way. */
    ghost predicate Holds(s: Store<K, V>, rest: Rest)
      reads this, owner.Keys
    {
      && Shape() && Abs() == s
      && rest == Rest(owner.Keys, |buckets|, totalVersions, versionsFreed)
    }

    method CollectKey(key: K, i: nat, before: int, ghost s: Store<K, V>, ghost rest: Rest) returns (freed: nat)
      requires Holds(s, rest) && key in s && i == Slot(hash(key), |buckets|)
      modifies this, rest.frame
      ensures Holds(GC.GcKey(s, key, before), rest)
      ensures freed == GC.Versions(s) - GC.Versions(GC.GcKey(s, key, before))
    {
      BucketHolds(key, i);
      GC.GcKeyFreed(s, key, before);
      GC.GcKeySteps(s, key, before);
      hide Shape, Abs, GC.Versions, GC.GcKey, Gc, Slot;
      var chain := buckets[i][key];
      freed := GcIn(key, chain, before);
      DropIfEmpty(key, chain, i);
    }

    lemma EmptyChain(key: K)
      requires Shape() && key in chains
      ensures key in Abs() && (chains[key].head == null <==> Abs()[key] == [])
    {
      assert OwnedBy(chains[key], owner, key);
    }

    lemma BucketKeys(i: nat)
      requires Shape() && i < |buckets|
      ensures buckets[i].Keys == Below(Abs(), hash, |buckets|, i + 1) - Below(Abs(), hash, |buckets|, i)
    {
      hide VersionChain.Valid, OwnedBy, VersionChain.Contents, Masked, Slot, Placed;
      KeysPlaced(buckets, chains, hash, i);
    }

    /** The store with the first i of n buckets collected. */
    ghost function Stage(s: Store<K, V>, n: nat, i: nat, before: int): Store<K, V>
      requires n > 0
    {
      Staged(s, hash, n, i, before)
    }

    /** Collects every key of one bucket; those of the buckets before it are done. */
    method CollectBucket(i: nat, before: int, ghost s: Store<K, V>, ghost rest: Rest) returns (freed: nat)
      requires i < rest.count && Holds(Stage(s, rest.count, i, before), rest)
      modifies this, rest.frame
      ensures Holds(Stage(s, rest.count, i + 1, before), rest)
      ensures freed == GC.Versions(Stage(s, rest.count, i, before)) -
                       GC.Versions(Stage(s, rest.count, i + 1, before))
    {
      BucketKeys(i);
      freed := 0;
      var todo := buckets[i].Keys;
      ghost var n := rest.count;
      ghost var all := Below(s, hash, n, i + 1);
      StartBucket(s, hash, n, i, before, todo);
      hide Holds, GC.GcKey, GC.GcKeys, GC.Versions, Slot, Below;
      while todo != {}
        invariant Holds(GC.GcKeys(s, all - todo, before), rest)
        invariant forall k | k in todo :: k in s && k in all && Slot(hash(k), n) == i
        invariant freed == GC.Versions(Stage(s, n, i, before)) - GC.Versions(GC.GcKeys(s, all - todo, before))
      {
        NonemptyHas(todo);
        var key :| key in todo;
        OneLess(all, todo, key);
        GC.GcKeysStep(s, all - todo, key, before);
        BucketCount(GC.GcKeys(s, all - todo, before), rest);
        var f := CollectKey(key, i, before, GC.GcKeys(s, all - todo, before), rest);
        freed := freed + f;
        todo := todo - {key};
      }
      NoneLeft(all, todo);
    }

    lemma AllStages(s: Store<K, V>, n: nat, before: int)
      requires n > 0
      ensures Stage(s, n, 0, before) == s && Stage(s, n, n, before) == GC.GcStore(s, before)
    {
      AllBuckets(s, hash, n, before);
    }

    lemma BucketCount(s: Store<K, V>, rest: Rest)
      requires Holds(s, rest)
      ensures rest.count == |buckets| > 0
    {}

    /** Collects every bucket. */
    method CollectBuckets(before: int, ghost s: Store<K, V>, ghost rest: Rest) returns (freed: nat)
      requires Holds(s, rest)
      modifies this, rest.frame
      ensures Holds(GC.GcStore(s, before), rest)
      ensures freed == GC.Versions(s) - GC.Versions(GC.GcStore(s, before))
    {
      hide *;
      BucketCount(s, rest);
      AllStages(s, rest.count, before);
      freed := 0;
      for i := 0 to |buckets|
        invariant Holds(Stage(s, rest.count, i, before), rest)
        invariant freed == GC.Versions(s) - GC.Versions(Stage(s, rest.count, i, before))
      {
        var f := CollectBucket(i, before, s, rest);
        freed := freed + f;
      }
    }

    /** Collects every key; the version counts are settled at the end. */
    method CollectGarbage(before: int) returns (freed: nat)
      requires Valid()
      modifies this, owner.Keys
      ensures Valid() && Abs() == GC.GcStore(old(Abs()), before)
      ensures freed == GC.Versions(old(Abs())) - GC.Versions(Abs()) && versionsFreed == old(versionsFreed) + freed
    {
      GC.CollectedCounted(Abs(), before);
      assert totalVersions == GC.Versions(Abs());
      freed := CollectBuckets(before, Abs(), Rest(owner.Keys, |buckets|, totalVersions, versionsFreed));
      hide Shape, Abs, GC.GcStore, GC.Versions, GC.Counted;
      SettleCounts(freed);
    }

    method SettleCounts(freed: nat)
      requires Shape()
      modifies this`totalVersions, this`versionsFreed
      ensures Shape() && Abs() == old(Abs())
      ensures totalVersions == old(totalVersions) - freed && versionsFreed == old(versionsFreed) + freed
    {
      hide VersionChain.Valid, VersionChain.Contents, OwnedBy, Placed, Masked;
      versionsFreed := versionsFreed + freed;
      totalVersions := totalVersions - freed;
    }
  }
}
