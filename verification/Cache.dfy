/**
 `internal/pbsjob/cache.go`: the job cache.  Every operation reads the clock before it takes
 the lock; the reading is its argument `now`, which may be stale when the operation acts.
 */
module Cache {
  import opened Wrappers
  import opened Strconv
  import opened Jobs
  import opened Listings

  // ---- the cache as a value ----

  datatype Entry = Entry(expiration: int, isRunning: bool, job: Job)

  type CacheMap = map<string, Entry>

  datatype Action =
    | Set(id: string, job: Option<Job>)
    | Delete(id: string)
    | Cleanup
    | Get(id: string)
    | IsRunning(id: string)
    | List

  /** An action together with the clock reading it took. */
  datatype Timed = Timed(now: int, action: Action)

  /** `Set` computes an expiration only for a job and a non-empty id; a wall time it cannot read panics. */
  predicate NoPanic(a: Action) {
    a.Set? && a.job.Some? && a.id != "" ==> HasReadableWalltime(a.job.value)
  }

  predicate Accepted(timeout: int, t: Timed)
    requires NoPanic(t.action)
  {
    && t.action.Set? && t.action.job.Some? && t.action.id != ""
    && Expiration(t.action.job.value, timeout) >= t.now
  }

  predicate Stale(e: Entry, now: int) { !e.isRunning && e.expiration < now }

  function Graced(e: Entry, timeout: int, now: int): Entry {
    e.(isRunning := false, expiration := Wrap64(now + timeout))
  }

  function Cleaned(m: CacheMap, now: int): CacheMap {
    map id | id in m && !Stale(m[id], now) :: m[id]
  }

  /** The cache after an action. */
  function Apply(timeout: int, m: CacheMap, t: Timed): CacheMap
    requires NoPanic(t.action)
  {
    match t.action
    case Set(id, job) =>
      if Accepted(timeout, t) then m[id := Entry(Expiration(job.value, timeout), true, job.value)] else m
    case Delete(id) =>
      if id !in m then m
      else if m[id].isRunning then m[id := Graced(m[id], timeout, t.now)]
      else if m[id].expiration < t.now then m - {id}
      else m
    case Cleanup => Cleaned(m, t.now)
    case _ => m
  }

  function Lookup(m: CacheMap, id: string, now: int): Option<Job> {
    if id in m && m[id].expiration >= now then Some(m[id].job) else None
  }

  function Running(m: CacheMap, id: string): bool { id in m && m[id].isRunning }

  /** The jobs `List` returns, by their keys. */
  function Active(m: CacheMap, now: int): map<string, Job> {
    map id | id in m && m[id].expiration >= now :: m[id].job
  }

  // ---- the program ----

  class PbsJob {
    var expiration: int
    var isRunning: bool
    var job: Job

    constructor (expiration: int, isRunning: bool, job: Job)
      ensures this.expiration == expiration && this.isRunning == isRunning && this.job == job
    {
      this.expiration, this.isRunning, this.job := expiration, isRunning, job;
    }
  }

  class JobCache {
    var jobs: map<string, PbsJob>
    const timeout: int

    /** No entry object stands under two keys. */
    ghost predicate Valid()
      reads this
    {
      forall a, b :: a in jobs && b in jobs && jobs[a] == jobs[b] ==> a == b
    }

    ghost function Contents(): CacheMap
      reads this, jobs.Values
    {
      map id | id in jobs :: Entry(jobs[id].expiration, jobs[id].isRunning, jobs[id].job)
    }

    constructor (timeout: int)
      ensures Valid() && Contents() == map[] && this.timeout == timeout && jobs == map[]
    {
      jobs := map[];
      this.timeout := timeout;
    }

    method Get(now: int, jobId: string) returns (job: Option<Job>)
      requires Valid()
      ensures job == Lookup(Contents(), jobId, now)
    {
      if jobId !in jobs {
        return None;
      }
      var pbsJob := jobs[jobId];
      if pbsJob.expiration < now {
        return None;
      }
      job := Some(pbsJob.job);
    }

    method IsRunning(jobId: string) returns (running: bool)
      requires Valid()
      ensures running == Running(Contents(), jobId)
    {
      running := jobId in jobs && jobs[jobId].isRunning;
    }

    method List(now: int) returns (activeJobs: seq<Job>)
      requires Valid()
      ensures Lists(activeJobs, Active(Contents(), now))
    {
      activeJobs := [];
      var todo := jobs.Keys;
      ghost var keys: seq<string> := [];
      while todo != {}
        invariant todo <= Contents().Keys
        invariant ListsBy(activeJobs, ActiveExcept(Contents(), now, todo), keys)
        decreases todo
      {
        var id :| id in todo;
        OneMoreListed(activeJobs, Contents(), now, todo, keys, id);
        todo := todo - {id};
        if jobs[id].expiration >= now {
          activeJobs := activeJobs + [jobs[id].job];
          keys := keys + [id];
        }
      }
      assert ActiveExcept(Contents(), now, {}) == Active(Contents(), now);
    }

    method Set(now: int, jobId: string, job: Option<Job>)
      requires Valid() && NoPanic(Action.Set(jobId, job))
      modifies this`jobs
      ensures Valid() && Contents() == Apply(timeout, old(Contents()), Timed(now, Action.Set(jobId, job)))
      ensures forall id :: id in jobs ==> fresh(jobs[id]) || (id in old(jobs) && jobs[id] == old(jobs)[id])
    {
      hide Expiration, HasReadableWalltime;
      if job.None? {
        return;
      }
      if jobId == "" {
        return;
      }
      var expiration := Expiration(job.value, timeout);
      if expiration < now {
        return;
      }
      var entry := new PbsJob(expiration, true, job.value);
      jobs := jobs[jobId := entry];
    }

    method Delete(now: int, jobId: string)
      requires Valid()
      modifies this`jobs, jobs.Values
      ensures Valid() && Contents() == Apply(timeout, old(Contents()), Timed(now, Action.Delete(jobId)))
      ensures jobs.Keys <= old(jobs).Keys && forall id :: id in jobs ==> jobs[id] == old(jobs)[id]
    {
      if jobId in jobs {
        var job := jobs[jobId];
        if job.isRunning {
          job.isRunning := false;
          job.expiration := Wrap64(now + timeout);
        } else if job.expiration < now {
          jobs := jobs - {jobId};
        }
      }
    }

    method Cleanup(now: int)
      requires Valid()
      modifies this`jobs
      ensures Valid() && Contents() == Apply(timeout, old(Contents()), Timed(now, Action.Cleanup))
      ensures jobs.Keys <= old(jobs).Keys && forall id :: id in jobs ==> jobs[id] == old(jobs)[id]
    {
      var todo := jobs.Keys;
      while todo != {}
        invariant todo <= jobs.Keys <= old(jobs).Keys
        invariant forall id :: id in jobs ==> jobs[id] == old(jobs)[id]
        invariant forall id :: id in old(jobs) && id !in todo ==>
                    (id in jobs <==> !Stale(old(Contents())[id], now))
        decreases todo
      {
        var jobId :| jobId in todo;
        var job := jobs[jobId];
        if !job.isRunning && job.expiration < now {
          jobs := jobs - {jobId};
        }
        todo := todo - {jobId};
      }
      assert Contents() == Cleaned(old(Contents()), now);
    }
  }

  ghost function ActiveExcept(m: CacheMap, now: int, todo: set<string>): map<string, Job> {
    map id | id in m && id !in todo && m[id].expiration >= now :: m[id].job
  }

  lemma OneMoreListed(
    listed: seq<Job>, m: CacheMap, now: int, todo: set<string>, keys: seq<string>, id: string)
    requires id in todo && id in m && ListsBy(listed, ActiveExcept(m, now, todo), keys)
    ensures if m[id].expiration >= now
            then ListsBy(listed + [m[id].job], ActiveExcept(m, now, todo - {id}), keys + [id])
            else ListsBy(listed, ActiveExcept(m, now, todo - {id}), keys)
  {
    var before, after := ActiveExcept(m, now, todo), ActiveExcept(m, now, todo - {id});
    if m[id].expiration >= now {
      assert after == before[id := m[id].job];
      assert id !in before;
    } else {
      assert after == before;
    }
  }
}
