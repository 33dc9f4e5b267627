/** Any number of entity handlers at work at the same time. A step is what one handler does between
    two points at which another one can come in: a call of the pool, which runs under the pool's own
    lock, taking or giving back a mutex, and one access to the store. */
module EntityProtocol {
  import opened Http
  import opened EntityStore
  import opened MutexPools
  import opened EntityHandlers

  /** The configuration arguments and the request that one handler is built for. */
  datatype Job = Job(args: map<string, string>, request: HttpRequest)

  /** Where a handler is. `Refused` is the exception for a missing root argument; `MutexMissing` is
      the exception of the pool, which no run reaches. */
  datatype Phase =
    | New
    | Refused
    | Constructed
    | Ready(mutex: MutexId)
    | Locked(mutex: MutexId)
    | Numbered(mutex: MutexId, newId: string)
    | Answered(mutex: MutexId, response: HttpResponse)
    | Unlocked(response: HttpResponse)
    | Gone(response: HttpResponse)
    | MutexMissing

  /** `holder` maps each mutex that is locked to the handler that locked it. `log` lists the handlers
      in the order in which they got their mutex. */
  datatype System = System(
    pool: Pool,
    holder: map<MutexId, nat>,
    disk: map<string, Data>,
    phases: seq<Phase>,
    log: seq<nat>)

  function Dir(job: Job): string {
    if "root" in job.args then job.args["root"] else ""
  }

  function DataOf(disk: map<string, Data>, dir: string): Data {
    if dir in disk then disk[dir] else map[]
  }

  function Start(jobs: seq<Job>): System {
    System(EMPTY_POOL, map[], map[], seq(|jobs|, _ => New), [])
  }

  ghost predicate Fits(jobs: seq<Job>, s: System) {
    |s.phases| == |jobs| && Paired(s.pool)
  }

  function Move(s: System, i: nat, p: Phase): System
    requires i < |s.phases|
  {
    s.(phases := s.phases[i := p])
  }

  /** The access to the store that ends with a response. */
  function Store(s: System, i: nat, m: MutexId, dir: string, request: HttpRequest, newId: string): System
    requires i < |s.phases|
  {
    var (after, response) := Access(DataOf(s.disk, dir), request, newId);
    Move(s.(disk := s.disk[dir := after]), i, Answered(m, response))
  }

  /** One step of handler i. It changes nothing when the handler is done or waits for a mutex. */
  function Step(jobs: seq<Job>, s: System, i: nat): (t: System)
    requires Fits(jobs, s) && i < |jobs|
    ensures Fits(jobs, t)
  {
    var dir, request := Dir(jobs[i]), jobs[i].request;
    match s.phases[i]
    case New =>
      if "root" !in jobs[i].args then Move(s, i, Refused)
      else Move(s.(pool := Inserted(s.pool, dir)), i, Constructed)
    case Constructed =>
      var mutex := Requested(s.pool, dir);
      Move(s, i, if mutex.Some? then Ready(mutex.value) else MutexMissing)
    case Ready(m) =>
      if m in s.holder then s
      else Move(s.(holder := s.holder[m := i], log := s.log + [i]), i, Locked(m))
    case Locked(m) =>
      if request.verb == "POST" then Move(s, i, Numbered(m, NewId(DataOf(s.disk, dir), request)))
      else Store(s, i, m, dir, request, "")
    case Numbered(m, newId) => Store(s, i, m, dir, request, newId)
    case Answered(m, response) => Move(s.(holder := s.holder - {m}), i, Unlocked(response))
    case Unlocked(response) =>
      if dir == "" then Move(s, i, Gone(response))
      else
        var pool := Erased(s.pool, dir);
        if pool.Some? then Move(s.(pool := pool.value), i, Gone(response)) else Move(s, i, MutexMissing)
    case Refused => s
    case Gone(_) => s
    case MutexMissing => s
  }

  ghost predicate IsSchedule(jobs: seq<Job>, schedule: seq<nat>) {
    forall p :: 0 <= p < |schedule| ==> schedule[p] < |jobs|
  }

  /** A run: at each point the schedule says which handler goes on. */
  ghost function Execute(jobs: seq<Job>, schedule: seq<nat>): (s: System)
    requires IsSchedule(jobs, schedule)
    ensures Fits(jobs, s)
    decreases |schedule|
  {
    if schedule == [] then Start(jobs)
    else
      var n := |schedule| - 1;
      Step(jobs, Execute(jobs, schedule[..n]), schedule[n])
  }

  // ---------- what every step keeps ----------

  predicate HasMutex(p: Phase) {
    p.Ready? || HoldsLock(p)
  }

  predicate HoldsLock(p: Phase) {
    p.Locked? || p.Numbered? || p.Answered?
  }

  predicate Refers(job: Job, p: Phase, key: string) {
    Dir(job) == key && (p.Constructed? || HasMutex(p) || p.Unlocked? || (p.Gone? && key == ""))
  }

  predicate GotLock(p: Phase) {
    HoldsLock(p) || p.Unlocked? || p.Gone?
  }

  /** How many handlers hold a reference to a key of the pool. */
  function References(jobs: seq<Job>, phases: seq<Phase>, key: string): nat
    requires |jobs| == |phases|
  {
    if jobs == [] then 0
    else
      var n := |jobs| - 1;
      References(jobs[..n], phases[..n], key) + if Refers(jobs[n], phases[n], key) then 1 else 0
  }

  function CountIn(p: Pool, key: string): int {
    if key in p.counts then p.counts[key] else 0
  }

  ghost predicate Counted(jobs: seq<Job>, phases: seq<Phase>, pool: Pool)
    requires |jobs| == |phases|
  {
    && (forall k :: References(jobs, phases, k) == CountIn(pool, k))
    && (forall k :: k in pool.counts ==> pool.counts[k] > 0)
  }

  ghost predicate MutexesInPool(jobs: seq<Job>, s: System)
    requires |jobs| == |s.phases|
  {
    forall i :: 0 <= i < |jobs| && HasMutex(s.phases[i]) ==>
      Dir(jobs[i]) in s.pool.mutexes && s.pool.mutexes[Dir(jobs[i])] == s.phases[i].mutex
  }

  ghost predicate HeldByHolders(s: System) {
    && (forall i :: 0 <= i < |s.phases| && HoldsLock(s.phases[i]) ==>
          s.phases[i].mutex in s.holder && s.holder[s.phases[i].mutex] == i)
    && (forall m :: m in s.holder ==>
          s.holder[m] < |s.phases| && HoldsLock(s.phases[s.holder[m]]) && s.phases[s.holder[m]].mutex == m)
  }

  ghost predicate NoneMissing(s: System) {
    forall i :: 0 <= i < |s.phases| ==> !s.phases[i].MutexMissing?
  }

  /** A handler exists exactly when there is a root argument. */
  ghost predicate Rooted(jobs: seq<Job>, s: System)
    requires |jobs| == |s.phases|
  {
    forall i :: 0 <= i < |jobs| && !s.phases[i].New? ==> (s.phases[i].Refused? <==> "root" !in jobs[i].args)
  }

  ghost predicate Logged(s: System) {
    && (forall i: nat :: i in s.log <==> i < |s.phases| && GotLock(s.phases[i]))
    && (forall p, q :: 0 <= p < q < |s.log| ==> s.log[p] != s.log[q])
  }

  ghost predicate Inv(jobs: seq<Job>, s: System) {
    && Fits(jobs, s)
    && Counted(jobs, s.phases, s.pool)
    && DistinctMutexes(s.pool)
    && MutexesInPool(jobs, s)
    && HeldByHolders(s)
    && NoneMissing(s)
    && Rooted(jobs, s)
    && Logged(s)
  }

  lemma {:induction false} ReferencesMove(jobs: seq<Job>, phases: seq<Phase>, i: nat, p: Phase, key: string)
    requires |jobs| == |phases| && i < |jobs|
    ensures References(jobs, phases[i := p], key) ==
            References(jobs, phases, key)
            - (if Refers(jobs[i], phases[i], key) then 1 else 0) + (if Refers(jobs[i], p, key) then 1 else 0)
    decreases |jobs|
  {
    hide Refers;
    var n := |jobs| - 1;
    if i == n {
      assert phases[i := p][..n] == phases[..n];
    } else {
      assert phases[i := p][..n] == phases[..n][i := p];
      ReferencesMove(jobs[..n], phases[..n], i, p, key);
    }
  }

  lemma {:induction false} ReferencesPositive(jobs: seq<Job>, phases: seq<Phase>, i: nat, key: string)
    requires |jobs| == |phases| && i < |jobs| && Refers(jobs[i], phases[i], key)
    ensures References(jobs, phases, key) > 0
    decreases |jobs|
  {
    hide Refers;
    var n := |jobs| - 1;
    if i < n {
      ReferencesPositive(jobs[..n], phases[..n], i, key);
    }
  }

  lemma {:induction false} ReferencesZero(jobs: seq<Job>, phases: seq<Phase>, key: string)
    requires |jobs| == |phases|
    requires forall i :: 0 <= i < |jobs| ==> !Refers(jobs[i], phases[i], key)
    ensures References(jobs, phases, key) == 0
    decreases |jobs|
  {
    hide Refers;
    if jobs != [] {
      var n := |jobs| - 1;
      ReferencesZero(jobs[..n], phases[..n], key);
    }
  }

  /** A key that some handler refers to is in the pool. */
  lemma ReferredIsThere(jobs: seq<Job>, s: System, i: nat)
    requires Fits(jobs, s) && Counted(jobs, s.phases, s.pool)
    requires i < |jobs| && Refers(jobs[i], s.phases[i], Dir(jobs[i]))
    ensures Dir(jobs[i]) in s.pool.mutexes
  {
    hide References;
    hide Refers;
    var key := Dir(jobs[i]);
    ReferencesPositive(jobs, s.phases, i, key);
    assert References(jobs, s.phases, key) == CountIn(s.pool, key);
  }

  lemma StepCounts(jobs: seq<Job>, s: System, i: nat)
    requires Inv(jobs, s) && i < |jobs|
    ensures Counted(jobs, Step(jobs, s, i).phases, Step(jobs, s, i).pool)
  {
    hide References;
    hide Access;
    hide NewId;
    hide DataOf;
    hide MutexesInPool;
    hide HeldByHolders;
    hide Logged;
    hide DistinctMutexes;
    var t, dir := Step(jobs, s, i), Dir(jobs[i]);
    if t != s {
      if s.phases[i].Constructed? || s.phases[i].Unlocked? {
        ReferredIsThere(jobs, s, i);
      }
      forall k ensures References(jobs, t.phases, k) == CountIn(t.pool, k) {
        ReferencesMove(jobs, s.phases, i, t.phases[i], k);
        assert References(jobs, s.phases, k) == CountIn(s.pool, k);
      }
    }
  }

  lemma StepFindsMutex(jobs: seq<Job>, s: System, i: nat)
    requires Inv(jobs, s) && i < |jobs|
    ensures NoneMissing(Step(jobs, s, i))
  {
    hide References;
    hide Access;
    hide NewId;
    hide DataOf;
    if s.phases[i].Constructed? || s.phases[i].Unlocked? {
      ReferredIsThere(jobs, s, i);
    }
  }

  /** A key keeps its mutex as long as it is in the pool, and a new mutex is unlike all others. */
  lemma StepKeepsPool(jobs: seq<Job>, s: System, i: nat)
    requires Fits(jobs, s) && DistinctMutexes(s.pool) && i < |jobs|
    ensures DistinctMutexes(Step(jobs, s, i).pool) && SameMutexes(s.pool, Step(jobs, s, i).pool)
  {
    hide Access;
    hide NewId;
    hide DataOf;
    hide Requested;
    hide Inserted;
    hide Erased;
    hide DistinctMutexes;
    InsertedKeepsMutexes(s.pool, Dir(jobs[i]));
    if Erased(s.pool, Dir(jobs[i])).Some? {
      ErasedKeepsMutexes(s.pool, Dir(jobs[i]));
    }
  }

  /** The mutex a handler got stays the mutex of its key in the pool for as long as it has it. */
  lemma StepKeepsMutexes(jobs: seq<Job>, s: System, i: nat)
    requires Inv(jobs, s) && i < |jobs|
    ensures MutexesInPool(jobs, Step(jobs, s, i))
  {
    hide References;
    hide Access;
    hide NewId;
    hide DataOf;
    hide Counted;
    hide Logged;
    hide HeldByHolders;
    hide DistinctMutexes;
    hide Inserted;
    hide Erased;
    hide NoneMissing;
    var t := Step(jobs, s, i);
    StepCounts(jobs, s, i);
    StepKeepsPool(jobs, s, i);
    forall j | 0 <= j < |jobs| && HasMutex(t.phases[j])
      ensures Dir(jobs[j]) in t.pool.mutexes && t.pool.mutexes[Dir(jobs[j])] == t.phases[j].mutex
    {
      ReferredIsThere(jobs, t, j);
    }
  }

  lemma LockTaken(s: System, i: nat, m: MutexId)
    requires HeldByHolders(s) && i < |s.phases| && !HoldsLock(s.phases[i]) && m !in s.holder
    ensures HeldByHolders(Move(s.(holder := s.holder[m := i], log := s.log + [i]), i, Locked(m)))
  {
  }

  lemma LockGivenBack(s: System, i: nat, p: Phase)
    requires HeldByHolders(s) && i < |s.phases| && HoldsLock(s.phases[i]) && !HoldsLock(p)
    ensures HeldByHolders(Move(s.(holder := s.holder - {s.phases[i].mutex}), i, p))
  {
  }

  lemma LocksUntouched(s: System, t: System, i: nat)
    requires HeldByHolders(s) && i < |s.phases| == |t.phases|
    requires t.holder == s.holder && t.phases == s.phases[i := t.phases[i]]
    requires HoldsLock(t.phases[i]) == HoldsLock(s.phases[i])
    requires HoldsLock(t.phases[i]) ==> t.phases[i].mutex == s.phases[i].mutex
    ensures HeldByHolders(t)
  {
  }

  lemma StepKeepsHolders(jobs: seq<Job>, s: System, i: nat)
    requires Inv(jobs, s) && i < |jobs|
    ensures HeldByHolders(Step(jobs, s, i))
  {
    hide References;
    hide Access;
    hide NewId;
    hide DataOf;
    hide Counted;
    hide Logged;
    hide HeldByHolders;
    hide DistinctMutexes;
    hide MutexesInPool;
    hide NoneMissing;
    hide Inserted;
    hide Erased;
    hide Requested;
    hide Refers;
    hide Dir;
    var p := s.phases[i];
    if p.Ready? && p.mutex !in s.holder {
      LockTaken(s, i, p.mutex);
    } else if p.Answered? {
      LockGivenBack(s, i, Unlocked(p.response));
    } else {
      LocksUntouched(s, Step(jobs, s, i), i);
    }
  }

  lemma StepKeepsLog(jobs: seq<Job>, s: System, i: nat)
    requires Inv(jobs, s) && i < |jobs|
    ensures Logged(Step(jobs, s, i))
  {
    hide References;
    hide Access;
    hide NewId;
    hide DataOf;
    hide Counted;
    hide HeldByHolders;
    hide DistinctMutexes;
    hide MutexesInPool;
    var t := Step(jobs, s, i);
    StepFindsMutex(jobs, s, i);
    assert i in s.log <==> GotLock(s.phases[i]);
    assert t.log == if s.phases[i].Ready? && s.phases[i].mutex !in s.holder then s.log + [i] else s.log;
    forall j: nat ensures j in t.log <==> j < |t.phases| && GotLock(t.phases[j]) {
      assert j in s.log <==> j < |s.phases| && GotLock(s.phases[j]);
      assert j in t.log <==> j in s.log || (j == i && t.log != s.log);
    }
  }

  lemma StepKeepsRoots(jobs: seq<Job>, s: System, i: nat)
    requires Fits(jobs, s) && Rooted(jobs, s) && i < |jobs|
    ensures Rooted(jobs, Step(jobs, s, i))
  {
    hide Access;
    hide NewId;
    hide DataOf;
    hide Inserted;
    hide Erased;
    hide Requested;
  }

  lemma StepKeepsInv(jobs: seq<Job>, s: System, i: nat)
    requires Inv(jobs, s) && i < |jobs|
    ensures Inv(jobs, Step(jobs, s, i))
  {
    hide Step;
    hide Counted;
    hide DistinctMutexes;
    hide MutexesInPool;
    hide HeldByHolders;
    hide NoneMissing;
    hide Rooted;
    hide Logged;
    StepCounts(jobs, s, i);
    StepKeepsRoots(jobs, s, i);
    StepFindsMutex(jobs, s, i);
    StepKeepsPool(jobs, s, i);
    StepKeepsMutexes(jobs, s, i);
    StepKeepsHolders(jobs, s, i);
    StepKeepsLog(jobs, s, i);
  }

  lemma StartInv(jobs: seq<Job>)
    ensures Inv(jobs, Start(jobs))
  {
    hide References;
    var s := Start(jobs);
    forall k ensures References(jobs, s.phases, k) == CountIn(s.pool, k) {
      ReferencesZero(jobs, s.phases, k);
    }
  }

  lemma {:induction false} AlwaysInv(jobs: seq<Job>, schedule: seq<nat>)
    requires IsSchedule(jobs, schedule)
    ensures Inv(jobs, Execute(jobs, schedule))
    decreases |schedule|
  {
    hide Inv;
    hide Step;
    if schedule == [] {
      StartInv(jobs);
    } else {
      var n := |schedule| - 1;
      AlwaysInv(jobs, schedule[..n]);
      StepKeepsInv(jobs, Execute(jobs, schedule[..n]), schedule[n]);
    }
  }

  // ---------- safety over whole runs ----------

  /** Two handlers that asked for a mutex have the same one exactly when they work on the same
      directory, although the mutex of a directory comes and goes with its handlers. */
  lemma MutexesFollowDirectories(jobs: seq<Job>, schedule: seq<nat>, i: nat, j: nat)
    requires IsSchedule(jobs, schedule) && i < |jobs| && j < |jobs|
    requires var s := Execute(jobs, schedule); HasMutex(s.phases[i]) && HasMutex(s.phases[j])
    ensures var s := Execute(jobs, schedule);
            && (s.phases[i].mutex == s.phases[j].mutex <==> Dir(jobs[i]) == Dir(jobs[j]))
            && Dir(jobs[i]) in s.pool.mutexes && s.pool.mutexes[Dir(jobs[i])] == s.phases[i].mutex
  {
    hide Execute;
    hide Counted;
    AlwaysInv(jobs, schedule);
  }

  /** The same in terms of the root arguments: handlers share a mutex exactly when these are equal, and
      it is the one that the pool has under that key. */
  lemma MutexesFollowRoots(jobs: seq<Job>, schedule: seq<nat>, i: nat, j: nat)
    requires IsSchedule(jobs, schedule) && i < |jobs| && j < |jobs|
    requires var s := Execute(jobs, schedule); HasMutex(s.phases[i]) && HasMutex(s.phases[j])
    ensures "root" in jobs[i].args && "root" in jobs[j].args
    ensures var s := Execute(jobs, schedule);
            && (s.phases[i].mutex == s.phases[j].mutex <==> jobs[i].args["root"] == jobs[j].args["root"])
            && jobs[i].args["root"] in s.pool.mutexes
            && s.pool.mutexes[jobs[i].args["root"]] == s.phases[i].mutex
  {
    hide Execute;
    hide Counted;
    AlwaysInv(jobs, schedule);
    MutexesFollowDirectories(jobs, schedule, i, j);
  }

  /** The two states have the same store, count and mutex for this directory. */
  ghost predicate SameAt(s: System, t: System, dir: string) {
    && (dir in t.disk <==> dir in s.disk) && (dir in s.disk ==> t.disk[dir] == s.disk[dir])
    && (dir in t.pool.counts <==> dir in s.pool.counts)
    && (dir in s.pool.counts ==> t.pool.counts[dir] == s.pool.counts[dir])
    && (dir in t.pool.mutexes <==> dir in s.pool.mutexes)
    && (dir in s.pool.mutexes ==> t.pool.mutexes[dir] == s.pool.mutexes[dir])
  }

  /** A step of a handler touches no directory but its root, and none if it has no root. */
  lemma StepStaysInRoot(jobs: seq<Job>, s: System, i: nat, dir: string)
    requires Inv(jobs, s) && i < |jobs|
    requires "root" in jobs[i].args ==> jobs[i].args["root"] != dir
    ensures SameAt(s, Step(jobs, s, i), dir)
  {
    hide References;
    hide Access;
    hide NewId;
    hide DataOf;
    hide Counted;
    hide Logged;
    hide HeldByHolders;
    hide MutexesInPool;
    hide DistinctMutexes;
    hide NoneMissing;
    hide Requested;
  }

  /** At most one handler of a directory is between taking and giving back the mutex. */
  lemma MutualExclusion(jobs: seq<Job>, schedule: seq<nat>, i: nat, j: nat)
    requires IsSchedule(jobs, schedule) && i < |jobs| && j < |jobs|
    requires var s := Execute(jobs, schedule); HoldsLock(s.phases[i]) && HoldsLock(s.phases[j])
    ensures Dir(jobs[i]) == Dir(jobs[j]) ==> i == j
  {
    hide Execute;
    AlwaysInv(jobs, schedule);
    if Dir(jobs[i]) == Dir(jobs[j]) {
      ExclusionIn(jobs, Execute(jobs, schedule), i, j);
    }
  }

  lemma ExclusionIn(jobs: seq<Job>, s: System, i: nat, j: nat)
    requires Inv(jobs, s) && i < |jobs| && j < |jobs|
    requires HoldsLock(s.phases[i]) && HasMutex(s.phases[j]) && Dir(jobs[i]) == Dir(jobs[j])
    ensures s.phases[j].mutex in s.holder && s.holder[s.phases[j].mutex] == i
    ensures HoldsLock(s.phases[j]) ==> i == j
  {
    hide Counted;
    hide Logged;
  }

  /** The pool counts the handlers that refer to a key, keeps a key for as long as there is one, and
      never misses a key. For a directory other than the empty string these are the handlers that
      have been built and not yet destroyed. */
  lemma PoolCountsHandlers(jobs: seq<Job>, schedule: seq<nat>, key: string)
    requires IsSchedule(jobs, schedule)
    ensures var s := Execute(jobs, schedule);
            && s.pool.mutexes.Keys == s.pool.counts.Keys
            && CountIn(s.pool, key) == References(jobs, s.phases, key)
            && (key in s.pool.mutexes <==>
                  exists i :: 0 <= i < |jobs| && Refers(jobs[i], s.phases[i], key))
            && NoneMissing(s)
  {
    hide Execute;
    hide References;
    hide Refers;
    AlwaysInv(jobs, schedule);
    var s := Execute(jobs, schedule);
    if i :| 0 <= i < |jobs| && Refers(jobs[i], s.phases[i], key) {
      ReferencesPositive(jobs, s.phases, i, key);
    } else {
      ReferencesZero(jobs, s.phases, key);
    }
    assert References(jobs, s.phases, key) == CountIn(s.pool, key);
  }

  // ---------- progress ----------

  predicate Done(p: Phase) {
    p.Refused? || p.Gone? || p.MutexMissing?
  }

  predicate Enabled(s: System, i: nat)
    requires i < |s.phases|
  {
    var p := s.phases[i];
    !Done(p) && (p.Ready? ==> p.mutex !in s.holder)
  }

  ghost predicate AllDone(s: System) {
    forall i :: 0 <= i < |s.phases| ==> Done(s.phases[i])
  }

  /** How many steps a handler has in front of it, at most. */
  function Rank(p: Phase): nat {
    match p
    case New => 7
    case Constructed => 6
    case Ready(_) => 5
    case Locked(_) => 4
    case Numbered(_, _) => 3
    case Answered(_, _) => 2
    case Unlocked(_) => 1
    case Refused => 0
    case Gone(_) => 0
    case MutexMissing => 0
  }

  function TotalRank(phases: seq<Phase>): nat {
    if phases == [] then 0 else TotalRank(phases[..|phases| - 1]) + Rank(phases[|phases| - 1])
  }

  lemma {:induction false} TotalRankMove(phases: seq<Phase>, i: nat, p: Phase)
    requires i < |phases|
    ensures TotalRank(phases[i := p]) == TotalRank(phases) - Rank(phases[i]) + Rank(p)
    decreases |phases|
  {
    hide Rank;
    var n := |phases| - 1;
    if i == n {
      assert phases[i := p][..n] == phases[..n];
    } else {
      assert phases[i := p][..n] == phases[..n][i := p];
      TotalRankMove(phases[..n], i, p);
    }
  }

  /** A step acts exactly when it is enabled, and each step that acts uses up a part of the rank. */
  lemma StepActs(jobs: seq<Job>, s: System, i: nat)
    requires Fits(jobs, s) && i < |jobs|
    ensures Step(jobs, s, i) != s <==> Enabled(s, i)
    ensures Enabled(s, i) ==> TotalRank(Step(jobs, s, i).phases) < TotalRank(s.phases)
  {
    hide TotalRank;
    hide Access;
    hide NewId;
    hide DataOf;
    hide Inserted;
    hide Erased;
    hide Requested;
    TotalRankMove(s.phases, i, Step(jobs, s, i).phases[i]);
  }

  /** No reachable state is stuck: while a handler is unfinished, some handler can go on. */
  lemma SomeoneCanGoOn(jobs: seq<Job>, s: System, i: nat) returns (j: nat)
    requires Inv(jobs, s) && i < |jobs| && !Done(s.phases[i])
    ensures j < |jobs| && Enabled(s, j)
  {
    hide Counted;
    hide Logged;
    hide DistinctMutexes;
    hide MutexesInPool;
    j := if Enabled(s, i) then i else s.holder[s.phases[i].mutex];
  }

  lemma NoDeadlock(jobs: seq<Job>, schedule: seq<nat>)
    requires IsSchedule(jobs, schedule)
    ensures var s := Execute(jobs, schedule);
            AllDone(s) <==> forall i: nat :: i < |jobs| ==> Step(jobs, s, i) == s
  {
    hide Execute;
    hide Step;
    hide Inv;
    AlwaysInv(jobs, schedule);
    var s := Execute(jobs, schedule);
    forall i: nat | i < |jobs| ensures Step(jobs, s, i) != s <==> Enabled(s, i) {
      StepActs(jobs, s, i);
    }
    if i: nat :| i < |jobs| && !Done(s.phases[i]) {
      var j := SomeoneCanGoOn(jobs, s, i);
    }
  }

  /** The steps of a run that act. */
  ghost function ActingSteps(jobs: seq<Job>, schedule: seq<nat>): nat
    requires IsSchedule(jobs, schedule)
    decreases |schedule|
  {
    if schedule == [] then 0
    else
      var n := |schedule| - 1;
      ActingSteps(jobs, schedule[..n])
      + if Enabled(Execute(jobs, schedule[..n]), schedule[n]) then 1 else 0
  }

  lemma {:induction false} StartRank(phases: seq<Phase>)
    requires forall i :: 0 <= i < |phases| ==> phases[i] == New
    ensures TotalRank(phases) == 7 * |phases|
    decreases |phases|
  {
    if phases != [] {
      StartRank(phases[..|phases| - 1]);
    }
  }

  /** Every run ends: however it is scheduled, at most seven steps of each handler act. */
  lemma {:induction false} RunsEnd(jobs: seq<Job>, schedule: seq<nat>)
    requires IsSchedule(jobs, schedule)
    ensures ActingSteps(jobs, schedule) + TotalRank(Execute(jobs, schedule).phases) <= 7 * |jobs|
    decreases |schedule|
  {
    hide Step;
    hide Enabled;
    hide TotalRank;
    if schedule == [] {
      StartRank(Start(jobs).phases);
    } else {
      var n := |schedule| - 1;
      RunsEnd(jobs, schedule[..n]);
      StepActs(jobs, Execute(jobs, schedule[..n]), schedule[n]);
    }
  }

  /** Every run can be continued until all handlers are done. */
  lemma {:induction false} RunsCanFinish(jobs: seq<Job>, schedule: seq<nat>) returns (more: seq<nat>)
    requires IsSchedule(jobs, schedule)
    ensures IsSchedule(jobs, schedule + more) && AllDone(Execute(jobs, schedule + more))
    decreases TotalRank(Execute(jobs, schedule).phases)
  {
    hide Step;
    hide Enabled;
    hide TotalRank;
    hide Inv;
    hide Done;
    AlwaysInv(jobs, schedule);
    var s := Execute(jobs, schedule);
    if i: nat :| i < |jobs| && !Done(s.phases[i]) {
      var j := SomeoneCanGoOn(jobs, s, i);
      StepActs(jobs, s, j);
      var longer := schedule + [j];
      assert longer[..|schedule|] == schedule;
      more := RunsCanFinish(jobs, longer);
      assert schedule + ([j] + more) == longer + more;
      more := [j] + more;
    } else {
      more := [];
      assert schedule + [] == schedule;
    }
  }

  /** The life of a handler, step by step: a POST takes its id in one step and writes in another, and
      between them, as between all others, other handlers can come in. */
  lemma LifeOfHandler(jobs: seq<Job>, s: System, i: nat)
    requires Inv(jobs, s) && i < |jobs| && Enabled(s, i)
    ensures var p, t := s.phases[i], Step(jobs, s, i);
            var q := t.phases[i];
            && (forall j :: 0 <= j < |jobs| && j != i ==> t.phases[j] == s.phases[j])
            && (p.New? ==> if "root" in jobs[i].args then q.Constructed? else q.Refused? && t.pool == s.pool)
            && (p.Constructed? ==> q.Ready? && t.pool == s.pool)
            && (p.Ready? ==> q == Locked(p.mutex) && t.holder == s.holder[p.mutex := i] && t.log == s.log + [i])
            && (p.Locked? && jobs[i].request.verb == "POST" ==> q.Numbered? && t.disk == s.disk)
            && (p.Locked? && jobs[i].request.verb != "POST" ==> q.Answered?)
            && (p.Numbered? ==> q.Answered?)
            && (p.Answered? ==> q == Unlocked(p.response) && p.mutex !in t.holder && t.pool == s.pool)
            && (p.Unlocked? ==> q == Gone(p.response) && t.holder == s.holder)
            && (!p.Ready? ==> t.log == s.log)
            && (!p.Locked? && !p.Numbered? ==> t.disk == s.disk)
  {
    hide References;
    hide Access;
    hide NewId;
    hide DataOf;
    hide Counted;
    hide Logged;
    hide HeldByHolders;
    hide MutexesInPool;
    hide DistinctMutexes;
    hide Inserted;
    hide Erased;
    StepFindsMutex(jobs, s, i);
  }

  /** More steps either act, and use up rank, or change nothing because none of them could act. */
  lemma {:induction false} StillOrLess(jobs: seq<Job>, schedule: seq<nat>, block: seq<nat>)
    requires IsSchedule(jobs, schedule) && IsSchedule(jobs, block)
    ensures IsSchedule(jobs, schedule + block)
    ensures var s, t := Execute(jobs, schedule), Execute(jobs, schedule + block);
            || TotalRank(t.phases) < TotalRank(s.phases)
            || (t == s && forall p :: 0 <= p < |block| ==> !Enabled(s, block[p]))
    decreases |block|
  {
    hide Step;
    hide Enabled;
    hide TotalRank;
    if block == [] {
      assert schedule + [] == schedule;
    } else {
      var n := |block| - 1;
      assert (schedule + block)[..|schedule| + n] == schedule + block[..n];
      StillOrLess(jobs, schedule, block[..n]);
      StepActs(jobs, Execute(jobs, schedule + block[..n]), block[n]);
    }
  }

  lemma {:induction false} NoRankIsDone(phases: seq<Phase>)
    ensures TotalRank(phases) == 0 <==> forall i :: 0 <= i < |phases| ==> Done(phases[i])
    decreases |phases|
  {
    if phases != [] {
      NoRankIsDone(phases[..|phases| - 1]);
    }
  }

  ghost predicate NamesEveryone(jobs: seq<Job>, block: seq<nat>) {
    IsSchedule(jobs, block) && forall i: nat :: i < |jobs| ==> i in block
  }

  function Flatten(blocks: seq<seq<nat>>): seq<nat> {
    if blocks == [] then [] else Flatten(blocks[..|blocks| - 1]) + blocks[|blocks| - 1]
  }

  /** Steps that name every handler use up rank, unless none is left. */
  lemma BlockUsesRank(jobs: seq<Job>, schedule: seq<nat>, block: seq<nat>)
    requires IsSchedule(jobs, schedule) && NamesEveryone(jobs, block)
    ensures IsSchedule(jobs, schedule + block)
    ensures var s, t := Execute(jobs, schedule), Execute(jobs, schedule + block);
            TotalRank(t.phases) < TotalRank(s.phases) || TotalRank(t.phases) == 0
  {
    hide Execute;
    hide Enabled;
    hide TotalRank;
    hide Inv;
    hide Done;
    AlwaysInv(jobs, schedule);
    var s := Execute(jobs, schedule);
    StillOrLess(jobs, schedule, block);
    NoRankIsDone(s.phases);
    if i: nat :| i < |jobs| && !Done(s.phases[i]) {
      var j := SomeoneCanGoOn(jobs, s, i);
      assert j in block;
    }
  }

  lemma {:induction false} BlocksUseRank(jobs: seq<Job>, blocks: seq<seq<nat>>)
    requires forall b :: b in blocks ==> NamesEveryone(jobs, b)
    ensures IsSchedule(jobs, Flatten(blocks))
    ensures var rank := TotalRank(Execute(jobs, Flatten(blocks)).phases);
            rank + |blocks| <= 7 * |jobs| || rank == 0
    decreases |blocks|
  {
    hide TotalRank;
    hide NamesEveryone;
    if blocks == [] {
      StartRank(Start(jobs).phases);
    } else {
      var n := |blocks| - 1;
      BlocksUseRank(jobs, blocks[..n]);
      BlockUsesRank(jobs, Flatten(blocks[..n]), blocks[n]);
    }
  }

  /** A fair run finishes: after as many rounds as there are steps, each naming every handler in any
      order and any number of times, all handlers are done. */
  lemma FairRunsFinish(jobs: seq<Job>, blocks: seq<seq<nat>>)
    requires (forall b :: b in blocks ==> NamesEveryone(jobs, b)) && |blocks| >= 7 * |jobs|
    ensures IsSchedule(jobs, Flatten(blocks)) && AllDone(Execute(jobs, Flatten(blocks)))
  {
    hide TotalRank;
    hide NamesEveryone;
    hide Flatten;
    BlocksUseRank(jobs, blocks);
    NoRankIsDone(Execute(jobs, Flatten(blocks)).phases);
  }

  /** When all handlers are done no mutex is held, and the pool has no key but the empty string,
      which the destructor leaves. */
  lemma Cleanup(jobs: seq<Job>, schedule: seq<nat>)
    requires IsSchedule(jobs, schedule) && AllDone(Execute(jobs, schedule))
    ensures var s := Execute(jobs, schedule);
            && s.holder == map[]
            && s.pool.mutexes.Keys <= {""}
            && ("" in s.pool.mutexes <==>
                  exists i :: 0 <= i < |jobs| && "root" in jobs[i].args && jobs[i].args["root"] == "")
  {
    hide Execute;
    hide Counted;
    AlwaysInv(jobs, schedule);
    var s := Execute(jobs, schedule);
    forall key | key in s.pool.mutexes ensures key == "" {
      PoolCountsHandlers(jobs, schedule, key);
    }
    PoolCountsHandlers(jobs, schedule, "");
    if i :| 0 <= i < |jobs| && "root" in jobs[i].args && jobs[i].args["root"] == "" {
      assert s.phases[i].Gone?;
      assert Refers(jobs[i], s.phases[i], "");
    }
  }

  lemma StepLog(jobs: seq<Job>, s: System, i: nat)
    requires Fits(jobs, s) && i < |jobs|
    ensures s.log <= Step(jobs, s, i).log
  {
    hide Access;
    hide NewId;
    hide DataOf;
    hide Inserted;
    hide Erased;
    hide Requested;
  }

  /** Handlers keep their places in the order of locking. */
  lemma {:induction false} LogGrows(jobs: seq<Job>, schedule: seq<nat>, more: seq<nat>)
    requires IsSchedule(jobs, schedule) && IsSchedule(jobs, schedule + more)
    ensures Execute(jobs, schedule).log <= Execute(jobs, schedule + more).log
    decreases |more|
  {
    hide Step;
    if more == [] {
      assert schedule + [] == schedule;
    } else {
      var n := |more| - 1;
      assert (schedule + more)[..|schedule| + n] == schedule + more[..n];
      LogGrows(jobs, schedule, more[..n]);
      assert (schedule + more)[|schedule| + n] == more[n];
      StepLog(jobs, Execute(jobs, schedule + more[..n]), more[n]);
    }
  }
}
