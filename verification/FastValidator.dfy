/** Validation of execution results: the fast path, the full path and the batch. */
module FastValidator {
  import opened Deque
  import opened VersionLog
  import opened PowerOfTwo
  import opened ReadSets
  import Storage = LockFreeStorage

  datatype ConflictType = ReadWrite | WriteWrite | DependencyViolation

  /** The fields a kind of conflict leaves unset are absent here. */
  datatype Conflict<K> = Conflict(taskID: Option<int>, key: Option<K>, kind: ConflictType)

  datatype ValidationResult<K> = ValidationResult(taskID: int, valid: bool, conflict: Option<Conflict<K>>)

  datatype ExecutionResult<K, V> =
    ExecutionResult(taskID: int, readSet: seq<ReadDescriptor<K, V>>, writes: seq<Write<K, V>>)

  /** What a validation looks at; no caller fills in the dependencies. */
  datatype Context<K, V> =
    Context(taskID: int, readSet: seq<ReadDescriptor<K, V>>, writes: seq<Write<K, V>>, dependencies: seq<int>)

  function Pass<K>(taskID: int): ValidationResult<K> {
    ValidationResult(taskID, true, None)
  }

  predicate IsReadStillValid<K, V>(original: ReadDescriptor<K, V>, current: ReadResult<V>) {
    match current.status
    case Found => original.version.Compare(current.version) == 0
    case NotFound => original.value == None
    case Dependency => current.dependency == original.version.txID
    case Estimated => current.dependency == original.version.txID
  }

  /** The validator and the storage decide alike. */
  lemma SameDecision<K, V>(original: ReadDescriptor<K, V>, current: ReadResult<V>)
    ensures IsReadStillValid(original, current) <==> IsReadValid(original, current)
  {}

  predicate CanUseFastPath<K, V>(ctx: Context<K, V>) {
    |ctx.readSet| <= 10 && |ctx.writes| <= 5 && |ctx.dependencies| <= 3
  }

  predicate IsDependencyValid(depID: int, taskID: int) {
    depID < taskID
  }

  predicate IsWriteValid<K, V>(write: Write<K, V>, result: ReadResult<V>) {
    result.status == NotFound || result.version.txID < write.version.txID
  }

  /** The verdict on the reads alone: the first read that no longer holds is the conflict. */
  function Verdict<K, V>(s: Store<K, V>, taskID: int, readSet: seq<ReadDescriptor<K, V>>): ValidationResult<K> {
    if readSet == [] then Pass(taskID)
    else if IsReadValid(readSet[0], Read(s, readSet[0].key, taskID)) then Verdict(s, taskID, readSet[1..])
    else ValidationResult(taskID, false, Some(Conflict(None, Some(readSet[0].key), ReadWrite)))
  }

  /** The verdict on the dependencies, once reads and writes have passed. */
  function DependencyVerdict<K>(taskID: int, dependencies: seq<int>): ValidationResult<K> {
    if dependencies == [] then Pass(taskID)
    else if IsDependencyValid(dependencies[0], taskID) then DependencyVerdict(taskID, dependencies[1..])
    else ValidationResult(taskID, false, Some(Conflict(Some(dependencies[0]), None, DependencyViolation)))
  }

  /** The verdict on the writes: each needs the version a reader of its own transaction sees to be older. */
  function WriteVerdict<K, V>(s: Store<K, V>, taskID: int, writes: seq<Write<K, V>>): ValidationResult<K> {
    if writes == [] then Pass(taskID)
    else if IsWriteValid(writes[0], Read(s, writes[0].key, writes[0].version.txID)) then
      WriteVerdict(s, taskID, writes[1..])
    else ValidationResult(taskID, false, Some(Conflict(None, Some(writes[0].key), WriteWrite)))
  }

  function FullVerdict<K, V>(s: Store<K, V>, ctx: Context<K, V>): ValidationResult<K> {
    var r, w := Verdict(s, ctx.taskID, ctx.readSet), WriteVerdict(s, ctx.taskID, ctx.writes);
    if !r.valid then r
    else if !w.valid then w
    else DependencyVerdict(ctx.taskID, ctx.dependencies)
  }

  // ---------------------------------------------------------------- what the verdicts mean

  ghost predicate FirstInvalid<K, V>(s: Store<K, V>, taskID: int, readSet: seq<ReadDescriptor<K, V>>, i: int) {
    0 <= i < |readSet| && !IsReadValid(readSet[i], Read(s, readSet[i].key, taskID)) && AllValid(s, readSet[..i], taskID)
  }

  /** A result is valid exactly when the storage accepts its read set, and an invalid one names the
      first read that does not hold. */
  lemma {:induction false} VerdictExactly<K, V>(s: Store<K, V>, taskID: int, readSet: seq<ReadDescriptor<K, V>>)
    ensures var v := Verdict(s, taskID, readSet);
      v.taskID == taskID && (v.valid <==> AllValid(s, readSet, taskID)) && (v.valid <==> v.conflict == None)
      && (!v.valid ==> exists i :: FirstInvalid(s, taskID, readSet, i)
                                   && v.conflict == Some(Conflict(None, Some(readSet[i].key), ReadWrite)))
  {
    if readSet != [] {
      if IsReadValid(readSet[0], Read(s, readSet[0].key, taskID)) {
        var rest := readSet[1..];
        VerdictExactly(s, taskID, rest);
        if AllValid(s, rest, taskID) {
          forall i | 0 <= i < |readSet| ensures IsReadValid(readSet[i], Read(s, readSet[i].key, taskID)) {
            if i > 0 { assert readSet[i] == rest[i - 1]; }
          }
        } else {
          var i :| FirstInvalid(s, taskID, rest, i)
                   && Verdict(s, taskID, rest).conflict == Some(Conflict(None, Some(rest[i].key), ReadWrite));
          assert readSet[i + 1] == rest[i];
          var front := readSet[..i + 1];
          forall j | 0 <= j < |front| ensures IsReadValid(front[j], Read(s, front[j].key, taskID)) {
            if j > 0 { assert front[j] == rest[..i][j - 1]; }
          }
          assert FirstInvalid(s, taskID, readSet, i + 1);
        }
      } else {
        assert FirstInvalid(s, taskID, readSet, 0);
      }
    }
  }

  ghost predicate AllBefore(dependencies: seq<int>, taskID: int) {
    forall i | 0 <= i < |dependencies| :: dependencies[i] < taskID
  }

  ghost predicate FirstLater(dependencies: seq<int>, taskID: int, i: int) {
    0 <= i < |dependencies| && dependencies[i] >= taskID && AllBefore(dependencies[..i], taskID)
  }

  function Violation<K>(taskID: int, depID: int): ValidationResult<K> {
    ValidationResult(taskID, false, Some(Conflict(Some(depID), None, DependencyViolation)))
  }

  /** The dependencies pass exactly when each precedes the task; otherwise the first that does not is
      the conflict. */
  lemma {:induction false} DependenciesExactly<K>(taskID: int, dependencies: seq<int>)
    ensures var v := DependencyVerdict<K>(taskID, dependencies);
      && (AllBefore(dependencies, taskID) ==> v == Pass(taskID))
      && (!AllBefore(dependencies, taskID) ==>
            exists i :: FirstLater(dependencies, taskID, i) && v == Violation(taskID, dependencies[i]))
  {
    if dependencies != [] {
      var rest := dependencies[1..];
      if dependencies[0] >= taskID {
        assert FirstLater(dependencies, taskID, 0);
      } else {
        DependenciesExactly<K>(taskID, rest);
        if AllBefore(rest, taskID) {
          forall i | 0 <= i < |dependencies| ensures dependencies[i] < taskID {
            if i > 0 { assert dependencies[i] == rest[i - 1]; }
          }
        } else {
          var i :| FirstLater(rest, taskID, i) && DependencyVerdict<K>(taskID, rest) == Violation(taskID, rest[i]);
          var front := dependencies[..i + 1];
          assert dependencies[i + 1] == rest[i];
          forall k | 0 <= k < |front| ensures front[k] < taskID {
            if k > 0 { assert front[k] == rest[..i][k - 1]; }
          }
          assert FirstLater(dependencies, taskID, i + 1);
        }
      }
    }
  }

  /** On this storage no write check ever fails: a read never returns a version at or above its reader. */
  lemma {:induction false} WritesPass<K, V>(s: Store<K, V>, taskID: int, writes: seq<Write<K, V>>)
    ensures WriteVerdict(s, taskID, writes) == Pass(taskID)
  {
    if writes != [] { WritesPass(s, taskID, writes[1..]); }
  }

  /** The fast path gives the full path's result exactly when the reads fail or every dependency
      precedes the task, as an empty list does. */
  lemma FastIsFull<K, V>(s: Store<K, V>, ctx: Context<K, V>)
    ensures Verdict(s, ctx.taskID, ctx.readSet) == FullVerdict(s, ctx)
       <==> !AllValid(s, ctx.readSet, ctx.taskID) || AllBefore(ctx.dependencies, ctx.taskID)
  {
    VerdictExactly(s, ctx.taskID, ctx.readSet);
    DependenciesExactly<K>(ctx.taskID, ctx.dependencies);
    PassesAlike(s, ctx.taskID, ctx.readSet);
    WritesPass(s, ctx.taskID, ctx.writes);
  }

  /** No caller fills in dependencies, so both paths give every execution result the same verdict. */
  lemma FastIsFullWithoutDependencies<K, V>(s: Store<K, V>, ctx: Context<K, V>)
    requires ctx.dependencies == []
    ensures Verdict(s, ctx.taskID, ctx.readSet) == FullVerdict(s, ctx)
  {
    FastIsFull(s, ctx);
  }

  lemma {:induction false} PassesAlike<K, V>(s: Store<K, V>, taskID: int, readSet: seq<ReadDescriptor<K, V>>)
    ensures Verdict(s, taskID, readSet).valid ==> Verdict(s, taskID, readSet) == Pass(taskID)
  {
    if readSet != [] { PassesAlike(s, taskID, readSet[1..]); }
  }

  class FastValidator<K(==), V> {
    const enableFastPath: bool
    const enableBatchValidation: bool
    const concurrentValidations: nat

    constructor (enableFastPath: bool, enableBatchValidation: bool, concurrentValidations: int)
      ensures this.concurrentValidations == (if concurrentValidations <= 0 then 4 else concurrentValidations)
      ensures this.enableFastPath == enableFastPath && this.enableBatchValidation == enableBatchValidation
    {
      this.enableFastPath, this.enableBatchValidation := enableFastPath, enableBatchValidation;
      this.concurrentValidations := if concurrentValidations <= 0 then 4 else concurrentValidations;
    }

    method ValidateFastPath(ctx: Context<K, V>, stor: Storage.LockFreeStorage<K, V>) returns (r: ValidationResult<K>)
      requires stor.Shape()
      ensures r == Verdict(stor.Abs(), ctx.taskID, ctx.readSet)
    {
      hide *;
      ghost var s := stor.Abs();
      for i := 0 to |ctx.readSet|
        invariant Verdict(s, ctx.taskID, ctx.readSet) == Verdict(s, ctx.taskID, ctx.readSet[i..])
      {
        var read := ctx.readSet[i];
        var current := stor.Read(read.key, ctx.taskID);
        NextRead(s, ctx.taskID, ctx.readSet, i, current);
        if !IsReadStillValid(read, current) {
          return ValidationResult(ctx.taskID, false, Some(Conflict(None, Some(read.key), ReadWrite)));
        }
      }
      NoneLeft(s, Context(ctx.taskID, ctx.readSet, [], []));
      return Pass(ctx.taskID);
    }

    method ValidateFull(ctx: Context<K, V>, stor: Storage.LockFreeStorage<K, V>) returns (r: ValidationResult<K>)
      requires stor.Shape()
      ensures r == FullVerdict(stor.Abs(), ctx)
    {
      hide *;
      ghost var s := stor.Abs();
      FullSteps(s, ctx);
      for i := 0 to |ctx.readSet|
        invariant Verdict(s, ctx.taskID, ctx.readSet) == Verdict(s, ctx.taskID, ctx.readSet[i..])
      {
        var read := ctx.readSet[i];
        var current := stor.Read(read.key, ctx.taskID);
        NextRead(s, ctx.taskID, ctx.readSet, i, current);
        if !IsReadStillValid(read, current) {
          return ValidationResult(ctx.taskID, false, Some(Conflict(None, Some(read.key), ReadWrite)));
        }
      }
      NoneLeft(s, ctx);
      for i := 0 to |ctx.writes|
        invariant WriteVerdict(s, ctx.taskID, ctx.writes) == WriteVerdict(s, ctx.taskID, ctx.writes[i..])
      {
        var write := ctx.writes[i];
        var result := stor.Read(write.key, write.version.txID);
        NextWrite(s, ctx.taskID, ctx.writes, i);
        if !IsWriteValid(write, result) {
          return ValidationResult(ctx.taskID, false, Some(Conflict(None, Some(write.key), WriteWrite)));
        }
      }
      for i := 0 to |ctx.dependencies|
        invariant DependencyVerdict<K>(ctx.taskID, ctx.dependencies) ==
          DependencyVerdict<K>(ctx.taskID, ctx.dependencies[i..])
      {
        var depID := ctx.dependencies[i];
        NextDependency<K>(ctx.taskID, ctx.dependencies, i);
        if !IsDependencyValid(depID, ctx.taskID) {
          return ValidationResult(ctx.taskID, false, Some(Conflict(Some(depID), None, DependencyViolation)));
        }
      }
      return Pass(ctx.taskID);
    }

    /** Whichever path is taken, the result is the verdict on the reads. */
    method Validate(result: ExecutionResult<K, V>, stor: Storage.LockFreeStorage<K, V>) returns (r: ValidationResult<K>)
      requires stor.Shape()
      ensures r == Verdict(stor.Abs(), result.taskID, result.readSet)
      ensures r.valid <==> AllValid(stor.Abs(), result.readSet, result.taskID)
    {
      hide *;
      var ctx := Context(result.taskID, result.readSet, result.writes, []);
      FastIsFullWithoutDependencies(stor.Abs(), ctx);
      VerdictExactly(stor.Abs(), result.taskID, result.readSet);
      if enableFastPath && CanUseFastPath(ctx) {
        r := ValidateFastPath(ctx, stor);
      } else {
        r := ValidateFull(ctx, stor);
      }
    }

    /** One worker's share of a batch: every numWorkers-th result from its own id on. */
    method ValidateShare(results: seq<ExecutionResult<K, V>>, stor: Storage.LockFreeStorage<K, V>,
                         out: array<ValidationResult<K>>, workerID: nat, numWorkers: nat)
      requires stor.Shape() && out.Length == |results| && workerID < numWorkers && out as object !in stor.owner
      modifies out
      ensures stor.Shape() && stor.Abs() == old(stor.Abs())
      ensures forall x | 0 <= x < |results| ::
                out[x] == if x % numWorkers == workerID then Expected(stor.Abs(), results[x]) else old(out[x])
    {
      hide *;
      ghost var s := stor.Abs();
      var j := workerID;
      InShare(workerID, numWorkers);
      while j < |results|
        invariant j % numWorkers == workerID && stor.Shape() && stor.Abs() == s
        invariant forall x | 0 <= x < |results| ::
                    out[x] == if x < j && x % numWorkers == workerID then Expected(s, results[x]) else old(out[x])
      {
        var r := Validate(results[j], stor);
        Expectation(s, results[j]);
        out[j] := r;
        NextShare(j, numWorkers);
        j := j + numWorkers;
      }
    }

    /** Every result gets its verdict, in its own place, whether in a batch or one by one. The
        workers of a batch write disjoint shares, so their order is immaterial. */
    method ValidateBatch(results: seq<ExecutionResult<K, V>>, stor: Storage.LockFreeStorage<K, V>)
      returns (out: array<ValidationResult<K>>)
      requires stor.Shape() && (enableBatchValidation ==> concurrentValidations > 0)
      ensures fresh(out) && out.Length == |results|
      ensures forall i | 0 <= i < |results| :: out[i] == Expected(old(stor.Abs()), results[i])
    {
      hide *;
      ghost var s := stor.Abs();
      out := new ValidationResult<K>[|results|](_ => Pass(0));
      var numWorkers := if !enableBatchValidation then 1
                        else if concurrentValidations > |results| then |results|
                        else concurrentValidations;
      for w := 0 to numWorkers
        invariant stor.Shape() && stor.Abs() == s
        invariant forall x | 0 <= x < |results| :: x % numWorkers < w ==> out[x] == Expected(s, results[x])
      {
        ValidateShare(results, stor, out, w, numWorkers);
      }
      forall x | 0 <= x < |results| ensures x % numWorkers < numWorkers {}
    }
  }

  ghost function Expected<K, V>(s: Store<K, V>, result: ExecutionResult<K, V>): ValidationResult<K> {
    Verdict(s, result.taskID, result.readSet)
  }

  lemma Expectation<K, V>(s: Store<K, V>, result: ExecutionResult<K, V>)
    ensures Expected(s, result) == Verdict(s, result.taskID, result.readSet)
  {}

  lemma InShare(w: nat, n: nat)
    requires w < n
    ensures w % n == w
  {}

  lemma NextShare(j: nat, n: nat)
    requires n > 0
    ensures (j + n) % n == j % n
    ensures forall x | j < x < j + n :: x % n != j % n
  {
    NoMultipleBetween(n, (j + n) / n - j / n - 1);
    NoMultipleBetween(n, j / n + 1 - (j + n) / n);
    assert j == n * (j / n) + j % n && j + n == n * ((j + n) / n) + (j + n) % n;
    assert n * ((j + n) / n - j / n - 1) == n * ((j + n) / n) - n * (j / n) - n;
    assert n * (j / n + 1 - (j + n) / n) == n * (j / n) + n - n * ((j + n) / n);
    forall x | j < x < j + n ensures x % n != j % n {
      DistinctSlots(j, x, n);
    }
  }

  lemma NextRead<K, V>(s: Store<K, V>, taskID: int, readSet: seq<ReadDescriptor<K, V>>, i: nat, current: ReadResult<V>)
    requires i < |readSet| && current == Read(s, readSet[i].key, taskID)
    ensures Verdict(s, taskID, readSet[i..]) ==
              if IsReadStillValid(readSet[i], current) then Verdict(s, taskID, readSet[i + 1..])
              else ValidationResult(taskID, false, Some(Conflict(None, Some(readSet[i].key), ReadWrite)))
  {
    assert readSet[i..][1..] == readSet[i + 1..];
    SameDecision(readSet[i], current);
  }

  lemma NextWrite<K, V>(s: Store<K, V>, taskID: int, writes: seq<Write<K, V>>, i: nat)
    requires i < |writes|
    ensures WriteVerdict(s, taskID, writes[i..]) ==
              if IsWriteValid(writes[i], Read(s, writes[i].key, writes[i].version.txID)) then
                WriteVerdict(s, taskID, writes[i + 1..])
              else ValidationResult(taskID, false, Some(Conflict(None, Some(writes[i].key), WriteWrite)))
  {
    assert writes[i..][1..] == writes[i + 1..];
  }

  lemma NextDependency<K>(taskID: int, dependencies: seq<int>, i: nat)
    requires i < |dependencies|
    ensures DependencyVerdict<K>(taskID, dependencies[i..]) ==
              if IsDependencyValid(dependencies[i], taskID) then DependencyVerdict<K>(taskID, dependencies[i + 1..])
              else ValidationResult(taskID, false, Some(Conflict(Some(dependencies[i]), None, DependencyViolation)))
  {
    assert dependencies[i..][1..] == dependencies[i + 1..];
  }

  /** Each loop starts with its whole list and has passed when nothing is left. */
  lemma NoneLeft<K, V>(s: Store<K, V>, ctx: Context<K, V>)
    ensures Verdict(s, ctx.taskID, ctx.readSet[|ctx.readSet|..]) == Pass(ctx.taskID) && ctx.readSet[0..] == ctx.readSet
    ensures WriteVerdict(s, ctx.taskID, ctx.writes[|ctx.writes|..]) == Pass(ctx.taskID) && ctx.writes[0..] == ctx.writes
    ensures DependencyVerdict<K>(ctx.taskID, ctx.dependencies[|ctx.dependencies|..]) == Pass(ctx.taskID)
    ensures ctx.dependencies[0..] == ctx.dependencies && Pass<K>(ctx.taskID).valid
  {}

  lemma FullSteps<K, V>(s: Store<K, V>, ctx: Context<K, V>)
    ensures var r, w := Verdict(s, ctx.taskID, ctx.readSet), WriteVerdict(s, ctx.taskID, ctx.writes);
      FullVerdict(s, ctx) == if !r.valid then r else if !w.valid then w else
        DependencyVerdict(ctx.taskID, ctx.dependencies)
  {}
}
