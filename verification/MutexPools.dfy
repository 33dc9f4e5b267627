/** The pool of mutexes by key, with a reference count for each. A mutex is named by the number of
    mutexes created before it, so that a mutex created again for a key is a different one. */
module MutexPools {
  import opened Text

  type MutexId = nat

  datatype Pool = Pool(mutexes: map<string, MutexId>, counts: map<string, int>, created: nat)

  const EMPTY_POOL := Pool(map[], map[], 0)

  /** The two maps have the same keys. */
  ghost predicate Paired(p: Pool) {
    p.mutexes.Keys == p.counts.Keys
  }

  function Inserted(p: Pool, key: string): (r: Pool)
    requires Paired(p)
    ensures Paired(r)
  {
    if key !in p.mutexes
    then Pool(p.mutexes[key := p.created], p.counts[key := 1], p.created + 1)
    else p.(counts := p.counts[key := p.counts[key] + 1])
  }

  /** `None` is the exception for a missing key. */
  function Requested(p: Pool, key: string): Option<MutexId> {
    if key in p.mutexes then Some(p.mutexes[key]) else None
  }

  function Erased(p: Pool, key: string): (r: Option<Pool>)
    requires Paired(p)
    ensures r.Some? ==> Paired(r.value)
  {
    if key !in p.mutexes then None
    else if p.counts[key] - 1 <= 0 then Some(p.(mutexes := p.mutexes - {key}, counts := p.counts - {key}))
    else Some(p.(counts := p.counts[key := p.counts[key] - 1]))
  }

  // ---------- mutexes of keys over time ----------

  ghost predicate DistinctMutexes(pool: Pool) {
    && (forall k :: k in pool.mutexes ==> pool.mutexes[k] < pool.created)
    && (forall k, l :: k in pool.mutexes && l in pool.mutexes && pool.mutexes[k] == pool.mutexes[l] ==> k == l)
  }

  ghost predicate SameMutexes(p: Pool, q: Pool) {
    forall k :: k in p.mutexes && k in q.mutexes ==> p.mutexes[k] == q.mutexes[k]
  }

  lemma InsertedKeepsMutexes(p: Pool, key: string)
    requires Paired(p) && DistinctMutexes(p)
    ensures DistinctMutexes(Inserted(p, key)) && SameMutexes(p, Inserted(p, key))
  {
  }

  lemma ErasedKeepsMutexes(p: Pool, key: string)
    requires Paired(p) && DistinctMutexes(p) && Erased(p, key).Some?
    ensures DistinctMutexes(Erased(p, key).value) && SameMutexes(p, Erased(p, key).value)
  {
  }

  /** The erase of a reference undoes its insert, except that a mutex made for it is used up. */
  lemma EraseUndoesInsert(p: Pool, key: string)
    requires Paired(p) && forall k :: k in p.counts ==> p.counts[k] > 0
    ensures Erased(Inserted(p, key), key).Some?
    ensures var q := Erased(Inserted(p, key), key).value;
            && q.mutexes == p.mutexes && q.counts == p.counts
            && q.created == p.created + if key in p.mutexes then 0 else 1
  {
  }

  class MutexPool {
    var mutexPool: map<string, MutexId>
    var mutexCount: map<string, int>
    var created: nat

    ghost function View(): Pool
      reads this
    {
      Pool(mutexPool, mutexCount, created)
    }

    constructor ()
      ensures View() == EMPTY_POOL
    {
      mutexPool, mutexCount, created := map[], map[], 0;
    }

    method Insert(key: string)
      requires Paired(View())
      modifies this
      ensures View() == Inserted(old(View()), key)
    {
      if key !in mutexPool {
        mutexPool := mutexPool[key := created];
        created := created + 1;
        mutexCount := mutexCount[key := 1];
      } else {
        mutexCount := mutexCount[key := mutexCount[key] + 1];
      }
    }

    method Request(key: string) returns (r: Option<MutexId>)
      ensures r == Requested(View(), key)
    {
      if key !in mutexPool {
        return None;
      }
      r := Some(mutexPool[key]);
    }

    method Erase(key: string) returns (ok: bool)
      requires Paired(View())
      modifies this
      ensures ok == Erased(old(View()), key).Some?
      ensures View() == if ok then Erased(old(View()), key).value else old(View())
    {
      if key !in mutexPool {
        return false;
      }
      mutexCount := mutexCount[key := mutexCount[key] - 1];
      if mutexCount[key] <= 0 {
        mutexCount := mutexCount - {key};
        mutexPool := mutexPool - {key};
      }
      ok := true;
    }
  }

  /** The mutexes that are locked. A lock that would have to wait is not taken. */
  class LockTable {
    var held: set<MutexId>

    constructor ()
      ensures held == {}
    {
      held := {};
    }

    method TryLock(m: MutexId) returns (free: bool)
      modifies this
      ensures free == (m !in old(held)) && held == old(held) + {m}
    {
      free := m !in held;
      held := held + {m};
    }

    method Unlock(m: MutexId)
      requires m in held
      modifies this
      ensures held == old(held) - {m}
    {
      held := held - {m};
    }
  }
}
