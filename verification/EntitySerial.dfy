/** Any interleaving of entity handlers does what serving the requests one at a time does, in the
    order in which the handlers got their mutexes. */
module EntitySerial {
  import opened Http
  import opened EntityStore
  import opened MutexPools
  import opened EntityHandlers
  import opened EntityProtocol

  datatype Sequential = Sequential(disk: map<string, Data>, answers: map<nat, HttpResponse>)

  ghost predicate InRange(jobs: seq<Job>, log: seq<nat>) {
    forall p :: 0 <= p < |log| ==> log[p] < |jobs|
  }

  /** The requests of a log, served one after the other, each by a handler alone. */
  ghost function Serial(jobs: seq<Job>, log: seq<nat>): Sequential
    requires InRange(jobs, log)
    decreases |log|
  {
    if log == [] then Sequential(map[], map[])
    else
      var before, i := Serial(jobs, log[..|log| - 1]), log[|log| - 1];
      var (after, response) := Serve(DataOf(before.disk, Dir(jobs[i])), jobs[i].request);
      Sequential(before.disk[Dir(jobs[i]) := after], before.answers[i := response])
  }

  predicate InSection(p: Phase) {
    p.Locked? || p.Numbered?
  }

  predicate HasAnswer(p: Phase) {
    p.Answered? || p.Unlocked? || p.Gone?
  }

  /** No handler is at work on the store of this directory. */
  ghost predicate Quiet(jobs: seq<Job>, phases: seq<Phase>, dir: string)
    requires |jobs| == |phases|
  {
    forall i :: 0 <= i < |jobs| && InSection(phases[i]) ==> Dir(jobs[i]) != dir
  }

  /** The serial run is what the store will be when this handler has finished its access. */
  ghost predicate Ahead(jobs: seq<Job>, s: System, run: Sequential, i: nat)
    requires |s.phases| == |jobs| && i < |jobs|
  {
    var dir, request := Dir(jobs[i]), jobs[i].request;
    && i in run.answers
    && Serve(DataOf(s.disk, dir), request) == (DataOf(run.disk, dir), run.answers[i])
    && (s.phases[i].Numbered? ==> s.phases[i].newId == NewId(DataOf(s.disk, dir), request))
  }

  ghost predicate AnswersAgree(s: System, run: Sequential) {
    forall i :: 0 <= i < |s.phases| && HasAnswer(s.phases[i]) ==>
      i in run.answers && s.phases[i].response == run.answers[i]
  }

  ghost predicate SectionsAhead(jobs: seq<Job>, s: System, run: Sequential)
    requires |s.phases| == |jobs|
  {
    forall i :: 0 <= i < |jobs| && InSection(s.phases[i]) ==> Ahead(jobs, s, run, i)
  }

  ghost predicate DisksAgree(jobs: seq<Job>, s: System, run: Sequential)
    requires |s.phases| == |jobs|
  {
    forall dir :: Quiet(jobs, s.phases, dir) ==> DataOf(s.disk, dir) == DataOf(run.disk, dir)
  }

  ghost predicate Refines(jobs: seq<Job>, s: System) {
    && |s.phases| == |jobs|
    && InRange(jobs, s.log)
    && var run := Serial(jobs, s.log);
       AnswersAgree(s, run) && SectionsAhead(jobs, s, run) && DisksAgree(jobs, s, run)
  }

  lemma SerialMore(jobs: seq<Job>, log: seq<nat>, i: nat)
    requires InRange(jobs, log) && i < |jobs|
    ensures var before := Serial(jobs, log);
            var (after, response) := Serve(DataOf(before.disk, Dir(jobs[i])), jobs[i].request);
            && InRange(jobs, log + [i])
            && Serial(jobs, log + [i])
               == Sequential(before.disk[Dir(jobs[i]) := after], before.answers[i := response])
  {
    hide Serve;
    assert (log + [i])[..|log|] == log;
  }

  /** Nobody is at work on a directory when its mutex is free. */
  lemma FreeMeansQuiet(jobs: seq<Job>, s: System, i: nat)
    requires Inv(jobs, s) && i < |jobs| && HasMutex(s.phases[i])
    requires s.phases[i].mutex in s.holder ==> s.holder[s.phases[i].mutex] == i && !InSection(s.phases[i])
    ensures Quiet(jobs, s.phases, Dir(jobs[i]))
  {
    forall j | 0 <= j < |jobs| && InSection(s.phases[j]) ensures Dir(jobs[j]) != Dir(jobs[i]) {
      if Dir(jobs[j]) == Dir(jobs[i]) {
        ExclusionIn(jobs, s, j, i);
      }
    }
  }

  lemma AnsweredMeansQuiet(jobs: seq<Job>, s: System, i: nat)
    requires Inv(jobs, s) && i < |jobs| && s.phases[i].Answered?
    ensures Quiet(jobs, s.phases, Dir(jobs[i]))
  {
    FreeMeansQuiet(jobs, s, i);
  }

  lemma LockRefines(jobs: seq<Job>, s: System, i: nat)
    requires Inv(jobs, s) && Refines(jobs, s) && i < |jobs|
    requires s.phases[i].Ready? && s.phases[i].mutex !in s.holder
    ensures Refines(jobs, Step(jobs, s, i))
  {
    hide Serve;
    hide NewId;
    hide Access;
    hide Serial;
    hide Counted;
    hide HeldByHolders;
    hide MutexesInPool;
    hide DistinctMutexes;
    FreeMeansQuiet(jobs, s, i);
    SerialMore(jobs, s.log, i);
    var t := Step(jobs, s, i);
    var dir, run := Dir(jobs[i]), Serial(jobs, t.log);
    assert i !in s.log;
    forall d | Quiet(jobs, t.phases, d) ensures DataOf(t.disk, d) == DataOf(run.disk, d) {
      assert d != dir by {
        assert InSection(t.phases[i]);
      }
      assert Quiet(jobs, s.phases, d) by {
        forall j | 0 <= j < |jobs| && InSection(s.phases[j]) ensures Dir(jobs[j]) != d {
          assert t.phases[j] == s.phases[j];
        }
      }
    }
    forall j | 0 <= j < |jobs| && InSection(t.phases[j]) ensures Ahead(jobs, t, run, j) {
      if j != i {
        assert Ahead(jobs, s, Serial(jobs, s.log), j);
      }
    }
  }

  /** The access of handler i carries the store to where the serial run already is. */
  lemma StoreRefines(jobs: seq<Job>, s: System, i: nat)
    requires Inv(jobs, s) && Refines(jobs, s) && i < |jobs|
    requires s.phases[i].Numbered? || (s.phases[i].Locked? && jobs[i].request.verb != "POST")
    ensures Refines(jobs, Step(jobs, s, i))
  {
    hide Access;
    hide NextId;
    hide EntityOf;
    hide Serial;
    hide Counted;
    hide HeldByHolders;
    hide MutexesInPool;
    hide DistinctMutexes;
    hide Logged;
    var t, run := Step(jobs, s, i), Serial(jobs, s.log);
    StepKeepsInv(jobs, s, i);
    assert Ahead(jobs, s, run, i);
    AnsweredMeansQuiet(jobs, t, i);
    var dir := Dir(jobs[i]);
    forall d | Quiet(jobs, t.phases, d) ensures DataOf(t.disk, d) == DataOf(run.disk, d) {
      if d != dir {
        assert Quiet(jobs, s.phases, d) by {
          forall j | 0 <= j < |jobs| && InSection(s.phases[j]) ensures Dir(jobs[j]) != d {
            assert j != i ==> t.phases[j] == s.phases[j];
          }
        }
      }
    }
    forall j | 0 <= j < |jobs| && InSection(t.phases[j]) ensures Ahead(jobs, t, run, j) {
      assert t.phases[j] == s.phases[j];
      assert Ahead(jobs, s, run, j);
      assert Dir(jobs[j]) != dir;
    }
  }

  /** Steps that change neither the log nor the store. */
  lemma OtherStepRefines(jobs: seq<Job>, s: System, i: nat)
    requires Inv(jobs, s) && Refines(jobs, s) && i < |jobs|
    requires var p := s.phases[i];
             p.Locked? ==> jobs[i].request.verb == "POST"
    requires !s.phases[i].Numbered? && (s.phases[i].Ready? ==> s.phases[i].mutex in s.holder)
    ensures Refines(jobs, Step(jobs, s, i))
  {
    hide Access;
    hide NewId;
    hide Serve;
    hide Serial;
    hide Counted;
    hide HeldByHolders;
    hide MutexesInPool;
    hide DistinctMutexes;
    hide Logged;
    hide Inserted;
    hide Erased;
    hide Requested;
    hide References;
    var t, run := Step(jobs, s, i), Serial(jobs, s.log);
    assert InSection(t.phases[i]) == InSection(s.phases[i]);
    assert t.disk == s.disk && t.log == s.log;
    forall d | Quiet(jobs, t.phases, d) ensures Quiet(jobs, s.phases, d) {
      forall j | 0 <= j < |jobs| && InSection(s.phases[j]) ensures Dir(jobs[j]) != d {
        assert InSection(t.phases[j]);
      }
    }
    forall j | 0 <= j < |jobs| && InSection(t.phases[j]) ensures Ahead(jobs, t, run, j) {
      assert Ahead(jobs, s, run, j);
    }
  }

  lemma {:induction false} AlwaysRefines(jobs: seq<Job>, schedule: seq<nat>)
    requires IsSchedule(jobs, schedule)
    ensures Refines(jobs, Execute(jobs, schedule))
    decreases |schedule|
  {
    hide Inv;
    hide Refines;
    hide Step;
    if schedule == [] {
      StartRefines(jobs);
    } else {
      var n := |schedule| - 1;
      var s, i := Execute(jobs, schedule[..n]), schedule[n];
      AlwaysRefines(jobs, schedule[..n]);
      AlwaysInv(jobs, schedule[..n]);
      var p := s.phases[i];
      if p.Ready? && p.mutex !in s.holder {
        LockRefines(jobs, s, i);
      } else if p.Numbered? || (p.Locked? && jobs[i].request.verb != "POST") {
        StoreRefines(jobs, s, i);
      } else {
        OtherStepRefines(jobs, s, i);
      }
    }
  }

  lemma StartRefines(jobs: seq<Job>)
    ensures Refines(jobs, Start(jobs))
  {
  }

  /** In every reachable state, each response is the one that the serial run gives, and so is the
      store of every directory that no handler is at work on. The serial order lists the handlers
      that got their mutex, each once. */
  lemma SerialEquivalence(jobs: seq<Job>, schedule: seq<nat>)
    requires IsSchedule(jobs, schedule)
    ensures var s := Execute(jobs, schedule);
            && InRange(jobs, s.log)
            && (forall i: nat :: i in s.log <==> i < |jobs| && GotLock(s.phases[i]))
            && (forall p, q :: 0 <= p < q < |s.log| ==> s.log[p] != s.log[q])
            && AnswersAgree(s, Serial(jobs, s.log))
            && DisksAgree(jobs, s, Serial(jobs, s.log))
  {
    hide Execute;
    hide Serial;
    hide Counted;
    AlwaysInv(jobs, schedule);
    AlwaysRefines(jobs, schedule);
  }

  /** When all handlers are done, the store is that of the serial run in every directory. */
  lemma SerialAtTheEnd(jobs: seq<Job>, schedule: seq<nat>, dir: string)
    requires IsSchedule(jobs, schedule) && AllDone(Execute(jobs, schedule))
    ensures var s := Execute(jobs, schedule);
            && InRange(jobs, s.log)
            && DataOf(s.disk, dir) == DataOf(Serial(jobs, s.log).disk, dir)
            && (forall i: nat :: i in s.log <==> i < |jobs| && "root" in jobs[i].args)
  {
    hide Execute;
    hide Serial;
    SerialEquivalence(jobs, schedule);
    AlwaysInv(jobs, schedule);
    var s := Execute(jobs, schedule);
    assert Quiet(jobs, s.phases, dir);
  }

  /** The serial order respects real time: a handler that had got its mutex before another one got
      its own stands before it. */
  lemma RealTimeOrder(jobs: seq<Job>, schedule: seq<nat>, more: seq<nat>, i: nat, j: nat) returns (p: nat, q: nat)
    requires IsSchedule(jobs, schedule) && IsSchedule(jobs, schedule + more) && i < |jobs| && j < |jobs|
    requires var s := Execute(jobs, schedule); GotLock(s.phases[i]) && !GotLock(s.phases[j])
    requires GotLock(Execute(jobs, schedule + more).phases[j])
    ensures var log := Execute(jobs, schedule + more).log;
            p < q < |log| && log[p] == i && log[q] == j
  {
    hide Execute;
    hide Serial;
    SerialEquivalence(jobs, schedule);
    SerialEquivalence(jobs, schedule + more);
    LogGrows(jobs, schedule, more);
    var before, log := Execute(jobs, schedule).log, Execute(jobs, schedule + more).log;
    p :| p < |before| && before[p] == i;
    q :| q < |log| && log[q] == j;
    assert forall x :: 0 <= x < |before| ==> log[x] == before[x] && before[x] in before;
  }

  // ---------- ids given to concurrent requests ----------

  /** The answer to the p-th request of a serial run is the one given after the p requests before it. */
  lemma {:induction false} AnswerAt(jobs: seq<Job>, log: seq<nat>, p: nat)
    requires InRange(jobs, log) && p < |log|
    requires forall x, y :: 0 <= x < y < |log| ==> log[x] != log[y]
    ensures var before := Serial(jobs, log[..p]);
            var i := log[p];
            && i in Serial(jobs, log).answers
            && Serial(jobs, log).answers[i] == Serve(DataOf(before.disk, Dir(jobs[i])), jobs[i].request).1
    decreases |log|
  {
    hide Serve;
    hide Dir;
    var n := |log| - 1;
    if p < n {
      assert log[..n][..p] == log[..p];
      AnswerAt(jobs, log[..n], p);
    }
  }

  predicate Deletes(job: Job, dir: string, name: string, id: string) {
    Dir(job) == dir && job.request.verb == "DELETE" && EntityOf(job.request.path) == (name, id)
  }

  /** Only the DELETE of an entry removes it. */
  lemma ServeKeepsEntry(data: Data, r: HttpRequest, name: string, id: string)
    requires Has(data, name, id) && !(r.verb == "DELETE" && EntityOf(r.path) == (name, id))
    ensures Has(Serve(data, r).0, name, id)
  {
    hide EntityOf;
    hide NextId;
    hide ValidId;
    hide IdsOf;
  }

  lemma {:induction false} EntryStays(jobs: seq<Job>, log: seq<nat>, p: nat, dir: string, name: string, id: string)
    requires InRange(jobs, log) && p <= |log|
    requires Has(DataOf(Serial(jobs, log[..p]).disk, dir), name, id)
    requires forall t :: p <= t < |log| ==> !Deletes(jobs[log[t]], dir, name, id)
    ensures Has(DataOf(Serial(jobs, log).disk, dir), name, id)
    decreases |log|
  {
    hide Serve;
    hide Has;
    hide EntityOf;
    if p == |log| {
      assert log[..p] == log;
    } else {
      var n := |log| - 1;
      assert log[..n][..p] == log[..p];
      EntryStays(jobs, log[..n], p, dir, name, id);
      if Dir(jobs[log[n]]) == dir {
        ServeKeepsEntry(DataOf(Serial(jobs, log[..n]).disk, dir), jobs[log[n]].request, name, id);
      }
    }
  }

  /** A POST that succeeds stores a new entry and tells its id. */
  lemma PostAnswers(data: Data, r: HttpRequest)
    requires r.verb == "POST" && Serve(data, r).1.status == OK
    ensures var (name, id) := (EntityOf(r.path).0, NewId(data, r));
            && Serve(data, r).1 == JsonResponse(IdText(id))
            && !Has(data, name, id) && Has(Serve(data, r).0, name, id)
  {
    hide EntityOf;
    hide ValidId;
    hide NextId;
    NextIdIsFresh(data, EntityOf(r.path).0);
  }

  lemma IdTextTellsId(a: string, b: string)
    requires JsonResponse(IdText(a)) == JsonResponse(IdText(b))
    ensures a == b
  {
    var left := "{\"id\": \"";
    assert IdText(a)[|left|..|IdText(a)| - 2] == a;
    assert IdText(b)[|left|..|IdText(b)| - 2] == b;
  }

  ghost predicate DeletedBetween(jobs: seq<Job>, log: seq<nat>, p: nat, q: nat, dir: string, name: string, id: string)
    requires InRange(jobs, log) && q <= |log|
  {
    exists t :: p < t < q && Deletes(jobs[log[t]], dir, name, id)
  }

  /** What the store of the p-th request holds just before it, in the serial run. */
  ghost function DataBefore(jobs: seq<Job>, log: seq<nat>, p: nat): Data
    requires InRange(jobs, log) && p < |log|
  {
    DataOf(Serial(jobs, log[..p]).disk, Dir(jobs[log[p]]))
  }

  lemma EntryStaysBetween(jobs: seq<Job>, log: seq<nat>, p: nat, q: nat, name: string, id: string)
    requires InRange(jobs, log) && p < q < |log| && Dir(jobs[log[p]]) == Dir(jobs[log[q]])
    requires Has(Serve(DataBefore(jobs, log, p), jobs[log[p]].request).0, name, id)
    requires !DeletedBetween(jobs, log, p, q, Dir(jobs[log[p]]), name, id)
    ensures Has(DataBefore(jobs, log, q), name, id)
  {
    hide Serve;
    hide Has;
    hide Deletes;
    hide Dir;
    assert log[..p + 1] == log[..p] + [log[p]];
    SerialMore(jobs, log[..p], log[p]);
    assert log[..q][..p + 1] == log[..p + 1];
    EntryStays(jobs, log[..q], p + 1, Dir(jobs[log[p]]), name, id);
  }

  ghost predicate PostsToOneEntity(a: Job, b: Job) {
    && Dir(a) == Dir(b)
    && a.request.verb == b.request.verb == "POST"
    && EntityOf(a.request.path).0 == EntityOf(b.request.path).0
  }

  /** The store gives one id twice only when the entry was deleted in between. */
  lemma IdReuseNeedsDelete(jobs: seq<Job>, log: seq<nat>, p: nat, q: nat)
    requires InRange(jobs, log) && p < q < |log| && PostsToOneEntity(jobs[log[p]], jobs[log[q]])
    requires Serve(DataBefore(jobs, log, p), jobs[log[p]].request).1.status == OK
    requires Serve(DataBefore(jobs, log, p), jobs[log[p]].request).1
          == Serve(DataBefore(jobs, log, q), jobs[log[q]].request).1
    ensures var r := jobs[log[p]].request;
            var id := NewId(DataBefore(jobs, log, p), r);
            && Serve(DataBefore(jobs, log, p), r).1 == JsonResponse(IdText(id))
            && DeletedBetween(jobs, log, p, q, Dir(jobs[log[p]]), EntityOf(r.path).0, id)
  {
    hide Serve;
    hide Has;
    hide NewId;
    hide DataBefore;
    hide DeletedBetween;
    hide JsonResponse;
    hide EntityOf;
    hide Dir;
    var a, b := DataBefore(jobs, log, p), DataBefore(jobs, log, q);
    var r, name := jobs[log[p]].request, EntityOf(jobs[log[p]].request.path).0;
    PostAnswers(a, r);
    PostAnswers(b, jobs[log[q]].request);
    IdTextTellsId(NewId(a, r), NewId(b, jobs[log[q]].request));
    if !DeletedBetween(jobs, log, p, q, Dir(jobs[log[p]]), name, NewId(a, r)) {
      EntryStaysBetween(jobs, log, p, q, name, NewId(a, r));
      assert false;
    }
  }

  /** Two POSTs to one entity that have both succeeded were told the same id only when a DELETE of
      that entry got the mutex between them. */
  lemma SameIdOnlyAfterDelete(jobs: seq<Job>, schedule: seq<nat>, p: nat, q: nat)
    requires IsSchedule(jobs, schedule) && p < q < |Execute(jobs, schedule).log|
    requires InRange(jobs, Execute(jobs, schedule).log)
    requires var s := Execute(jobs, schedule);
             PostsToOneEntity(jobs[s.log[p]], jobs[s.log[q]])
    requires var s := Execute(jobs, schedule);
             && |s.phases| == |jobs| && HasAnswer(s.phases[s.log[p]]) && HasAnswer(s.phases[s.log[q]])
             && s.phases[s.log[p]].response.status == OK
             && s.phases[s.log[p]].response == s.phases[s.log[q]].response
    ensures var s := Execute(jobs, schedule);
            var r := jobs[s.log[p]].request;
            exists id :: s.phases[s.log[p]].response == JsonResponse(IdText(id))
              && DeletedBetween(jobs, s.log, p, q, Dir(jobs[s.log[p]]), EntityOf(r.path).0, id)
  {
    hide Execute;
    hide Serial;
    hide Serve;
    hide NewId;
    hide PostsToOneEntity;
    hide DeletedBetween;
    hide JsonResponse;
    hide DisksAgree;
    hide EntityOf;
    hide Dir;
    SerialEquivalence(jobs, schedule);
    var log := Execute(jobs, schedule).log;
    AnswerAt(jobs, log, p);
    AnswerAt(jobs, log, q);
    IdReuseNeedsDelete(jobs, log, p, q);
  }

  // ---------- a handler that nobody interrupts ----------

  /** So many steps of handler i in a row. */
  function Alone(jobs: seq<Job>, s: System, i: nat, steps: nat): (t: System)
    requires Fits(jobs, s) && i < |jobs|
    ensures Fits(jobs, t)
  {
    if steps == 0 then s else Step(jobs, Alone(jobs, s, i, steps - 1), i)
  }

  lemma AloneGetsLock(jobs: seq<Job>, s: System, i: nat)
    requires Inv(jobs, s) && i < |jobs| && s.phases[i].New? && "root" in jobs[i].args
    requires forall j :: 0 <= j < |jobs| && HoldsLock(s.phases[j]) ==> Dir(jobs[j]) != Dir(jobs[i])
    ensures var t := Alone(jobs, s, i, 3);
            t.phases[i].Locked? && t.disk == s.disk && t.log == s.log + [i]
  {
    hide Access;
    hide NewId;
    hide References;
    hide Counted;
    hide Logged;
    var dir := Dir(jobs[i]);
    var t := Alone(jobs, s, i, 2);
    assert Alone(jobs, s, i, 1) == Step(jobs, s, i);
    StepKeepsInv(jobs, s, i);
    StepKeepsInv(jobs, Alone(jobs, s, i, 1), i);
    assert t.phases[i].Ready? && t.holder == s.holder;
  }

  lemma AloneLeaves(jobs: seq<Job>, s: System, i: nat)
    requires Inv(jobs, s) && i < |jobs| && s.phases[i].Answered?
    ensures var t := Step(jobs, Step(jobs, s, i), i);
            t.phases[i] == Gone(s.phases[i].response) && t.disk == s.disk && t.log == s.log
    ensures Step(jobs, Step(jobs, Step(jobs, s, i), i), i) == Step(jobs, Step(jobs, s, i), i)
  {
    hide Access;
    hide NewId;
    hide References;
    hide Counted;
    hide Logged;
    hide HeldByHolders;
    hide MutexesInPool;
    hide DistinctMutexes;
    hide Inserted;
    hide Erased;
    hide Requested;
    StepKeepsInv(jobs, s, i);
    StepFindsMutex(jobs, Step(jobs, s, i), i);
  }

  lemma AloneToTheEnd(jobs: seq<Job>, s: System, i: nat)
    requires Inv(jobs, s) && i < |jobs| && s.phases[i].Locked?
    ensures var t := Alone(jobs, s, i, 4);
            var dir := Dir(jobs[i]);
            && t.phases[i].Gone? && dir in t.disk
            && (DataOf(t.disk, dir), t.phases[i].response) == Serve(DataOf(s.disk, dir), jobs[i].request)
            && t.log == s.log
  {
    hide Access;
    hide NextId;
    hide EntityOf;
    hide References;
    hide Counted;
    hide Logged;
    hide HeldByHolders;
    hide MutexesInPool;
    hide DistinctMutexes;
    hide Inserted;
    hide Erased;
    hide Requested;
    AloneFour(jobs, s, i);
    StepKeepsInv(jobs, s, i);
    var a := Step(jobs, s, i);
    if a.phases[i].Answered? {
      AloneLeaves(jobs, a, i);
    } else {
      StepKeepsInv(jobs, a, i);
      AloneLeaves(jobs, Step(jobs, a, i), i);
    }
  }

  lemma AloneFour(jobs: seq<Job>, s: System, i: nat)
    requires Fits(jobs, s) && i < |jobs|
    ensures Alone(jobs, s, i, 4) == Step(jobs, Step(jobs, Step(jobs, Step(jobs, s, i), i), i), i)
  {
    hide Step;
    assert Alone(jobs, s, i, 1) == Step(jobs, s, i);
    assert Alone(jobs, s, i, 2) == Step(jobs, Alone(jobs, s, i, 1), i);
    assert Alone(jobs, s, i, 3) == Step(jobs, Alone(jobs, s, i, 2), i);
  }

  lemma {:induction false} AloneInParts(jobs: seq<Job>, s: System, i: nat, m: nat, n: nat)
    requires Fits(jobs, s) && i < |jobs|
    ensures Alone(jobs, s, i, m + n) == Alone(jobs, Alone(jobs, s, i, m), i, n)
  {
    hide Step;
    if n > 0 {
      AloneInParts(jobs, s, i, m, n - 1);
    }
  }

  /** Seven steps in a row are the whole life of a handler: they do to the store, and answer, what
      `HandleRequest` does. */
  lemma AloneServes(jobs: seq<Job>, s: System, i: nat)
    requires Inv(jobs, s) && i < |jobs| && s.phases[i].New? && "root" in jobs[i].args
    requires forall j :: 0 <= j < |jobs| && HoldsLock(s.phases[j]) ==> Dir(jobs[j]) != Dir(jobs[i])
    ensures var t := Alone(jobs, s, i, 7);
            var dir := Dir(jobs[i]);
            && t.phases[i].Gone? && dir in t.disk
            && (DataOf(t.disk, dir), t.phases[i].response) == Serve(DataOf(s.disk, dir), jobs[i].request)
            && t.log == s.log + [i]
  {
    hide Step;
    hide Counted;
    hide Logged;
    hide Serve;
    AloneGetsLock(jobs, s, i);
    AloneKeepsInv(jobs, s, i, 3);
    AloneToTheEnd(jobs, Alone(jobs, s, i, 3), i);
    AloneInParts(jobs, s, i, 3, 4);
  }

  lemma {:induction false} AloneKeepsInv(jobs: seq<Job>, s: System, i: nat, steps: nat)
    requires Inv(jobs, s) && i < |jobs|
    ensures Inv(jobs, Alone(jobs, s, i, steps))
  {
    hide Step;
    if steps > 0 {
      AloneKeepsInv(jobs, s, i, steps - 1);
      StepKeepsInv(jobs, Alone(jobs, s, i, steps - 1), i);
    }
  }

  lemma SameTwice(s: System, t: System, u: System, dir: string)
    ensures SameAt(s, s, dir)
    ensures SameAt(s, t, dir) && SameAt(t, u, dir) ==> SameAt(s, u, dir)
  {
  }

  lemma {:induction false} AloneStaysInRoot(jobs: seq<Job>, s: System, i: nat, steps: nat, dir: string)
    requires Inv(jobs, s) && i < |jobs|
    requires "root" in jobs[i].args ==> jobs[i].args["root"] != dir
    ensures SameAt(s, Alone(jobs, s, i, steps), dir)
  {
    hide Step;
    hide SameAt;
    if steps > 0 {
      AloneKeepsInv(jobs, s, i, steps - 1);
      AloneStaysInRoot(jobs, s, i, steps - 1, dir);
      StepStaysInRoot(jobs, Alone(jobs, s, i, steps - 1), i, dir);
      SameTwice(s, Alone(jobs, s, i, steps - 1), Alone(jobs, s, i, steps), dir);
    } else {
      SameTwice(s, s, s, dir);
    }
  }

  /** The same in terms of the root argument: the seven steps replace the store of that directory, which
      is empty if there was none, by what one request makes of it, and touch no other directory. */
  lemma AloneServesItsRoot(jobs: seq<Job>, s: System, i: nat)
    requires Inv(jobs, s) && i < |jobs| && s.phases[i].New? && "root" in jobs[i].args
    requires forall j :: 0 <= j < |jobs| && HoldsLock(s.phases[j]) && "root" in jobs[j].args ==>
               jobs[j].args["root"] != jobs[i].args["root"]
    ensures var t, root := Alone(jobs, s, i, 7), jobs[i].args["root"];
            var before: Data := if root in s.disk then s.disk[root] else map[];
            && t.phases[i].Gone? && root in t.disk
            && (t.disk[root], t.phases[i].response) == Serve(before, jobs[i].request)
            && forall dir :: dir != root ==> SameAt(s, t, dir)
  {
    hide Counted;
    hide Logged;
    hide DistinctMutexes;
    hide MutexesInPool;
    hide HeldByHolders;
    hide Serve;
    hide Alone;
    hide Step;
    hide SameAt;
    assert forall j :: 0 <= j < |jobs| && HoldsLock(s.phases[j]) ==> "root" in jobs[j].args;
    AloneServes(jobs, s, i);
    forall dir | dir != jobs[i].args["root"] ensures SameAt(s, Alone(jobs, s, i, 7), dir) {
      AloneStaysInRoot(jobs, s, i, 7, dir);
    }
  }
}
