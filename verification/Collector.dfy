/**
 `internal/collector/job.go`: filling the cache at start-up, and the series one collection
 emits: their metrics and labels, not their values.
 */
module Collector {
  import opened Wrappers
  import opened GoStrings
  import opened Strconv
  import opened Utils
  import opened Jobs
  import opened Listings
  import opened Cache
  import opened CacheHistory
  import opened ExecVnodes
  import Events
  import Select

  // ---- start-up ----

  /** Each entry stands under its job's id, and its wall time can be read. */
  ghost predicate Keyed(m: CacheMap) {
    forall id :: id in m ==> id == JobId(m[id].job) && HasReadableWalltime(m[id].job)
  }

  ghost predicate KeyedJobs(jobs: map<string, Job>) {
    forall id :: id in jobs ==> id == JobId(jobs[id])
  }

  /**
   `ParseJobFiles`: the files in the order in which their goroutines store their jobs; files that
   fail are skipped.
   */
  function ParsedFiles(ram: HumanUnits, files: seq<string>): map<string, Job> {
    if files == [] then map[]
    else
      var before := ParsedFiles(ram, files[..|files| - 1]);
      var (outcome, job) := Events.DecodeJob(ram, files[|files| - 1]);
      if outcome.Accepted? then before[JobId(job) := job] else before
  }

  /** File `i` decodes, to a job of this id. */
  predicate HoldsJob(ram: HumanUnits, files: seq<string>, i: int, id: string) {
    && 0 <= i < |files| && Events.DecodeJob(ram, files[i]).0.Accepted?
    && JobId(Events.DecodeJob(ram, files[i]).1) == id
  }

  lemma HoldsMore(ram: HumanUnits, files: seq<string>, i: int, id: string)
    requires files != [] && i < |files| - 1
    ensures HoldsJob(ram, files[..|files| - 1], i, id) <==> HoldsJob(ram, files, i, id)
  {
    hide Events.DecodeJob, JobId;
  }

  lemma ParsedMore(ram: HumanUnits, files: seq<string>, id: string)
    requires files != []
    ensures var n := |files| - 1;
            if HoldsJob(ram, files, n, id)
            then id in ParsedFiles(ram, files) && ParsedFiles(ram, files)[id] == Events.DecodeJob(ram, files[n]).1
            else && (id in ParsedFiles(ram, files) <==> id in ParsedFiles(ram, files[..n]))
                 && (id in ParsedFiles(ram, files) ==> ParsedFiles(ram, files)[id] == ParsedFiles(ram, files[..n])[id])
  {
    hide Events.DecodeJob, JobId;
  }

  /** The last file of this id. */
  ghost predicate HoldsLast(ram: HumanUnits, files: seq<string>, i: int, id: string) {
    HoldsJob(ram, files, i, id) && forall j :: i < j < |files| ==> !HoldsJob(ram, files, j, id)
  }

  /** An id in the map has a last file, which holds its job. */
  lemma {:induction false} ParsedFrom(ram: HumanUnits, files: seq<string>, id: string) returns (i: int)
    requires id in ParsedFiles(ram, files)
    ensures HoldsLast(ram, files, i, id) && ParsedFiles(ram, files)[id] == Events.DecodeJob(ram, files[i]).1
  {
    hide Events.DecodeJob, JobId;
    if files == [] {
      i := 0;
    } else {
      hide ParsedFiles, HoldsJob;
      i := |files| - 1;
      ParsedMore(ram, files, id);
      if HoldsJob(ram, files, i, id) {
        NoneBehind(ram, files, id);
      } else {
        i := ParsedFrom(ram, files[..|files| - 1], id);
        LastStays(ram, files, i, id);
      }
    }
  }

  lemma NoneBehind(ram: HumanUnits, files: seq<string>, id: string)
    requires files != [] && HoldsJob(ram, files, |files| - 1, id)
    ensures HoldsLast(ram, files, |files| - 1, id)
  {
    hide Events.DecodeJob, JobId;
  }

  lemma HoldsInside(ram: HumanUnits, files: seq<string>, i: int, id: string)
    requires HoldsJob(ram, files, i, id)
    ensures 0 <= i < |files|
  {
    hide Events.DecodeJob, JobId;
  }

  lemma LastStays(ram: HumanUnits, files: seq<string>, i: int, id: string)
    requires files != [] && HoldsLast(ram, files[..|files| - 1], i, id) && !HoldsJob(ram, files, |files| - 1, id)
    ensures 0 <= i < |files| - 1 && HoldsLast(ram, files, i, id)
  {
    hide HoldsJob;
    var init := files[..|files| - 1];
    HoldsInside(ram, init, i, id);
    HoldsMore(ram, files, i, id);
    forall j | i < j < |files| ensures !HoldsJob(ram, files, j, id) {
      if j < |files| - 1 {
        HoldsMore(ram, files, j, id);
        assert !HoldsJob(ram, init, j, id);
      }
    }
  }

  /** A file that decodes leaves its id in the map. */
  lemma {:induction false} HeldIsParsed(ram: HumanUnits, files: seq<string>, i: int, id: string)
    requires HoldsJob(ram, files, i, id)
    ensures id in ParsedFiles(ram, files)
    decreases |files|
  {
    hide Events.DecodeJob, JobId, HoldsJob, ParsedFiles;
    HoldsInside(ram, files, i, id);
    ParsedMore(ram, files, id);
    if i < |files| - 1 {
      HoldsMore(ram, files, i, id);
      HeldIsParsed(ram, files[..|files| - 1], i, id);
    }
  }

  /** The files' jobs, by their ids: of several files with one id the last to be stored counts. */
  lemma ParsedFilesExactly(ram: HumanUnits, files: seq<string>, id: string)
    ensures id in ParsedFiles(ram, files) <==> exists i :: HoldsJob(ram, files, i, id)
    ensures forall i :: HoldsLast(ram, files, i, id) ==>
                          && id in ParsedFiles(ram, files) && 0 <= i < |files|
                          && ParsedFiles(ram, files)[id] == Events.DecodeJob(ram, files[i]).1
  {
    hide Events.DecodeJob, JobId, ParsedFiles, HoldsJob;
    forall i | HoldsLast(ram, files, i, id) ensures 0 <= i < |files| {
      HoldsInside(ram, files, i, id);
    }
    if i :| HoldsJob(ram, files, i, id) {
      HeldIsParsed(ram, files, i, id);
    }
    if id in ParsedFiles(ram, files) {
      var last := ParsedFrom(ram, files, id);
    }
  }

  /** Every file decodes or is rejected; on another the program panics or waits forever. */
  predicate AllEnd(ram: HumanUnits, files: seq<string>) {
    forall i :: 0 <= i < |files| ==>
      var outcome := Events.DecodeJob(ram, files[i]).0;
      outcome.Accepted? || outcome.Rejected?
  }

  method ParseJobFiles(ram: HumanUnits, files: seq<string>) returns (r: Option<map<string, Job>>)
    ensures r.Some? <==> AllEnd(ram, files)
    ensures r.Some? ==> r.value == ParsedFiles(ram, files) && KeyedJobs(r.value)
  {
    hide Events.DecodeJob;
    var jobs: map<string, Job> := map[];
    for i := 0 to |files|
      invariant jobs == ParsedFiles(ram, files[..i]) && KeyedJobs(jobs)
      invariant AllEnd(ram, files[..i])
    {
      assert files[..i + 1][..i] == files[..i] && files[..i + 1][i] == files[i];
      var outcome, job := Events.DecodeFresh(ram, files[i]);
      if !outcome.Accepted? && !outcome.Rejected? {
        return None;
      }
      if outcome.Accepted? {
        jobs := jobs[JobId(job) := job];
      }
    }
    assert files[..|files|] == files;
    r := Some(jobs);
  }

  /** The wall times `InitialiseJobCache` needs. */
  ghost predicate AllReadableJobs(jobs: map<string, Job>) {
    forall id :: id in jobs && id != "" ==> HasReadableWalltime(jobs[id])
  }

  /** The entry the cache makes of a job file found at start-up. */
  ghost predicate FreshEntry(jobs: map<string, Job>, timeout: int, id: string, e: Entry) {
    id in jobs && HasReadableWalltime(jobs[id]) && e == Entry(Expiration(jobs[id], timeout), true, jobs[id])
  }

  /** The jobs that were still to expire at every reading of the clock. */
  ghost predicate Unexpired(jobs: map<string, Job>, timeout: int, latest: int, id: string) {
    id in jobs && id != "" && HasReadableWalltime(jobs[id]) && Expiration(jobs[id], timeout) >= latest
  }

  /** Start-up sets a parsed job under its key. */
  ghost predicate StartSet(jobs: map<string, Job>, a: Action) {
    a.Set? && a.id in jobs && a.job == Some(jobs[a.id])
  }

  ghost predicate StartSets(jobs: map<string, Job>, sets: History) {
    AllReadable(sets) && forall i :: 0 <= i < |sets| ==> StartSet(jobs, sets[i].action)
  }

  lemma OneMoreSet(jobs: map<string, Job>, timeout: int, sets: History, t: Timed)
    requires StartSets(jobs, sets) && StartSet(jobs, t.action) && NoPanic(t.action)
    ensures StartSets(jobs, sets + [t])
    ensures Run(timeout, map[], sets + [t]) == Apply(timeout, Run(timeout, map[], sets), t)
  {
    hide Apply, NoPanic;
    assert (sets + [t])[..|sets|] == sets;
  }

  /**
   `InitialiseJobCache`, for any order of the jobs and any clock readings up to `latest`; None
   where it panics or waits forever.  `sets` are the actions by which it fills the cache.
   */
  method InitialiseJobCache(ram: HumanUnits, files: seq<string>, clock: nat -> int, ghost latest: int)
    returns (cache: Option<JobCache>, ghost sets: History)
    requires forall i :: clock(i) <= latest
    ensures cache.Some? <==> AllEnd(ram, files) && AllReadableJobs(ParsedFiles(ram, files))
    ensures cache.Some? ==>
              && fresh(cache.value) && cache.value.Valid() && cache.value.timeout == 60
              && Keyed(cache.value.Contents())
              && StartSets(ParsedFiles(ram, files), sets) && cache.value.Contents() == Run(60, map[], sets)
              && (forall id :: id in cache.value.Contents() ==>
                    FreshEntry(ParsedFiles(ram, files), 60, id, cache.value.Contents()[id]))
              && (forall id :: Unexpired(ParsedFiles(ram, files), 60, latest, id) ==> id in cache.value.Contents())
  {
    hide Expiration, JobId, HasReadableWalltime, ParsedFiles, StartSets, StartSet, Apply, Run, FreshEntry;
    sets := [];
    var jobCache := new JobCache(60);
    var parsed := ParseJobFiles(ram, files);
    if parsed.None? {
      return None, [];
    }
    var jobFiles := parsed.value;
    NoSets(jobFiles);
    var todo, i := jobFiles.Keys, 0;
    while todo != {}
      invariant todo <= jobFiles.Keys
      invariant fresh(jobCache) && jobCache.Valid() && jobCache.timeout == 60
      invariant forall id :: id in jobCache.jobs ==> fresh(jobCache.jobs[id])
      invariant Keyed(jobCache.Contents())
      invariant StartSets(jobFiles, sets) && AllReadable(sets) && jobCache.Contents() == Run(60, map[], sets)
      invariant forall id :: id in jobCache.Contents() ==> FreshEntry(jobFiles, 60, id, jobCache.Contents()[id])
      invariant forall id :: Unexpired(jobFiles, 60, latest, id) && id !in todo ==> id in jobCache.Contents()
      invariant forall id :: id in jobFiles && id !in todo && id != "" ==> HasReadableWalltime(jobFiles[id])
      decreases todo
    {
      var id :| id in todo;
      todo := todo - {id};
      var jobId := JobId(jobFiles[id]);
      assert jobId == id && clock(i) <= latest;
      var job := jobFiles[id];
      if jobId != "" && !HasReadableWalltime(job) {
        return None, [];
      }
      ghost var t := Timed(clock(i), Action.Set(jobId, Some(job)));
      SetIsStart(jobFiles, id);
      OneMoreSet(jobFiles, 60, sets, t);
      StartStep(jobFiles, 60, latest, jobCache.Contents(), t);
      jobCache.Set(clock(i), jobId, Some(job));
      sets := sets + [t];
      i := i + 1;
    }
    cache := Some(jobCache);
  }

  /** A start-up set keeps the cache keyed and made of fresh entries, drops nothing, and keeps what has not expired. */
  lemma StartStep(jobs: map<string, Job>, timeout: int, latest: int, m: CacheMap, t: Timed)
    requires NoPanic(t.action) && StartSet(jobs, t.action) && KeyedJobs(jobs) && t.now <= latest
    requires Keyed(m) && forall id :: id in m ==> FreshEntry(jobs, timeout, id, m[id])
    ensures var after := Apply(timeout, m, t);
            && Keyed(after) && m.Keys <= after.Keys
            && (forall id :: id in after ==> FreshEntry(jobs, timeout, id, after[id]))
            && (Unexpired(jobs, timeout, latest, t.action.id) ==> t.action.id in after)
  {
    hide Expiration, JobId, HasReadableWalltime;
  }

  lemma NoSets(jobs: map<string, Job>)
    ensures StartSets(jobs, []) && AllReadable([]) && Run(60, map[], []) == map[]
  {
  }

  lemma SetIsStart(jobs: map<string, Job>, id: string)
    requires id in jobs
    ensures StartSet(jobs, Action.Set(id, Some(jobs[id])))
  {
  }

  // ---- every reachable cache is keyed by job id ----

  /** A set is made under the id of its job. */
  predicate KeyedAction(a: Action) {
    a.Set? && a.job.Some? ==> a.id == JobId(a.job.value)
  }

  predicate KeyedStep(t: Timed) { KeyedAction(t.action) }

  lemma {:induction false} KeyedRun(timeout: int, m: CacheMap, h: History)
    requires Keyed(m) && AllReadable(h) && forall i :: 0 <= i < |h| ==> KeyedStep(h[i])
    ensures Keyed(Run(timeout, m, h))
    decreases |h|
  {
    hide JobId, HasReadableWalltime, Expiration;
    if h == [] {
    } else {
      KeyedRun(timeout, m, h[..|h| - 1]);
      assert KeyedStep(h[|h| - 1]);
    }
  }

  lemma {:induction false} EventStepsKeyed(ram: HumanUnits, events: seq<Events.FsEvent>)
    ensures forall i :: 0 <= i < |Events.Steps(ram, events)| ==> KeyedStep(Events.Steps(ram, events)[i])
    decreases |events|
  {
    hide JobId, Events.DecodeJob, Base, HasSuffix;
    if events == [] {
    } else {
      EventStepsKeyed(ram, events[..|events| - 1]);
    }
  }

  /** From a keyed cache, whatever file events arrive, the cache stays keyed. */
  lemma WatchedCacheKeyed(ram: HumanUnits, timeout: int, m: CacheMap, events: seq<Events.FsEvent>)
    requires Keyed(m)
    ensures Keyed(Run(timeout, m, Events.Steps(ram, events)))
  {
    EventStepsKeyed(ram, events);
    KeyedRun(timeout, m, Events.Steps(ram, events));
  }

  /**
   The actions of the program's goroutines: start-up sets the jobs of the files it parsed, the
   watcher acts as it reacts to an event; clean-up and collection set nothing.
   */
  ghost predicate OfProgram(ram: HumanUnits, files: seq<string>, a: Action) {
    a.Set? ==> StartSet(ParsedFiles(ram, files), a) || exists e :: Events.React(ram, e) == Events.Acts(a)
  }

  lemma {:induction false} ParsedFilesKeyed(ram: HumanUnits, files: seq<string>)
    ensures KeyedJobs(ParsedFiles(ram, files))
  {
    hide JobId, Events.DecodeJob;
    if files == [] {
    } else {
      ParsedFilesKeyed(ram, files[..|files| - 1]);
    }
  }

  lemma ReactionKeyed(ram: HumanUnits, e: Events.FsEvent)
    ensures Events.React(ram, e).Acts? ==> KeyedAction(Events.React(ram, e).action)
  {
    hide JobId, Events.DecodeJob, Base, HasSuffix, Split;
  }

  lemma ProgramKeyed(ram: HumanUnits, files: seq<string>, a: Action)
    requires OfProgram(ram, files, a)
    ensures KeyedAction(a)
  {
    ParsedFilesKeyed(ram, files);
    hide JobId, ParsedFiles, Events.React;
    if a.Set? && !StartSet(ParsedFiles(ram, files), a) {
      var e :| Events.React(ram, e) == Events.Acts(a);
      ReactionKeyed(ram, e);
    }
  }

  /** Every action done or about to be done sets jobs under their own ids only. */
  ghost predicate KeyedMachine(m: Machine) {
    && (forall thread :: thread in m.waiting ==> KeyedAction(m.waiting[thread].action))
    && (forall i :: 0 <= i < |m.done| ==> KeyedAction(m.done[i].action))
  }

  lemma {:induction false} MovesKeepKeyed(ram: HumanUnits, files: seq<string>, m: Machine, moves: seq<Move>)
    requires Sound(60, m) && Possible(60, m, moves) && KeyedMachine(m)
    requires forall i :: 0 <= i < |moves| && moves[i].ReadClock? ==> OfProgram(ram, files, moves[i].action)
    ensures KeyedMachine(AfterMoves(60, m, moves))
    decreases |moves|
  {
    hide Apply, KeyedAction, OfProgram;
    if moves == [] {
    } else {
      MovedSound(60, m, moves[0]);
      assert moves[0].ReadClock? ==> OfProgram(ram, files, moves[0].action);
      if moves[0].ReadClock? {
        ProgramKeyed(ram, files, moves[0].action);
      }
      MoveKeepsKeyed(m, moves[0]);
      assert forall i :: 0 <= i < |moves[1..]| ==> moves[1..][i] == moves[i + 1];
      MovesKeepKeyed(ram, files, Moved(60, m, moves[0]), moves[1..]);
    }
  }

  lemma MoveKeepsKeyed(m: Machine, move: Move)
    requires Sound(60, m) && Enabled(m, move) && KeyedMachine(m)
    requires move.ReadClock? ==> KeyedAction(move.action)
    ensures KeyedMachine(Moved(60, m, move))
  {
    hide Apply, KeyedAction;
  }

  /** The program can come to this cache: goroutines do what it tells them, interleaved in any way. */
  ghost predicate Reachable(ram: HumanUnits, files: seq<string>, clock: int, moves: seq<Move>, m: CacheMap) {
    var start := Machine(clock, map[], map[], []);
    && Possible(60, start, moves)
    && (forall i :: 0 <= i < |moves| && moves[i].ReadClock? ==> OfProgram(ram, files, moves[i].action))
    && m == AfterMoves(60, start, moves).cache
  }

  /**
   Every cache the program can come to is keyed, whatever its files and events, with clean-ups,
   deletions and stale clock readings interleaved in any way.
   */
  lemma ReachableIsKeyed(ram: HumanUnits, files: seq<string>, clock: int, moves: seq<Move>, m: CacheMap)
    requires Reachable(ram, files, clock, moves, m)
    ensures Keyed(m)
  {
    var start := Machine(clock, map[], map[], []);
    MovesKeepKeyed(ram, files, start, moves);
    hide JobId, Possible;
    var end := AfterMoves(60, start, moves);
    forall i | 0 <= i < |end.done| ensures KeyedStep(end.done[i]) {
      assert KeyedAction(end.done[i].action);
    }
    KeyedRun(60, map[], end.done);
  }

  /** The run in which a `Get` misses a job because of a clean-up is one the program can make. */
  lemma StaleRunIsReachable(ram: HumanUnits, files: seq<string>)
    ensures var job, start := NamedJob("1"), Machine(0, map[], map[], []);
            && Possible(60, start, StaleMoves(job))
            && AfterMoves(60, start, StaleMoves(job)).done == StaleBefore(job) + [Timed(61, Cleanup), STALE_GET]
            && Reachable(ram, files, 0, StaleMoves(job), AfterMoves(60, start, StaleMoves(job)).cache)
  {
    var job := NamedJob("1");
    NamedJobIs("1", 60);
    var e := Events.NamedJobEvent(ram);
    hide NamedJob, Events.React, JobId, Possible, AfterMoves, OfProgram, HasReadableWalltime, StaleMoves, StaleBefore;
    ReactionOfProgram(ram, files, e);
    StaleRun(job);
    StaleMovesOfProgram(ram, files, job);
  }

  lemma ReactionOfProgram(ram: HumanUnits, files: seq<string>, e: Events.FsEvent)
    requires Events.React(ram, e).Acts?
    ensures OfProgram(ram, files, Events.React(ram, e).action)
  {
    hide Events.React, StartSet;
  }

  lemma StaleMovesOfProgram(ram: HumanUnits, files: seq<string>, job: Job)
    requires OfProgram(ram, files, Action.Set("1", Some(job)))
    ensures forall i :: 0 <= i < |StaleMoves(job)| && StaleMoves(job)[i].ReadClock? ==>
                          OfProgram(ram, files, StaleMoves(job)[i].action)
  {
    hide OfProgram;
    forall a: Action | !a.Set? ensures OfProgram(ram, files, a) {
      SetsNothing(ram, files, a);
    }
  }

  lemma SetsNothing(ram: HumanUnits, files: seq<string>, a: Action)
    requires !a.Set?
    ensures OfProgram(ram, files, a)
  {
  }

  // ---- one collection ----

  datatype Metric =
    | AllocatedMemory | AllocatedNcpus | AllocatedNfpgas | AllocatedNgpus
    | Info | Interactive | RequestedMemory | RequestedNcpus | RequestedNfpgas | RequestedNgpus
    | RequestedNodes | RequestedWalltimeSeconds | Requests | RunCount | StartTime | EndTime

  /** A series is a metric with label values. */
  datatype Series = Series(metric: Metric, labels: seq<string>)

  /** The host's name, the unit parser, and the user database. */
  datatype Env = Env(hostname: string, ram: HumanUnits, uidOf: string -> string)

  const ALLOCATED: set<Metric> := {AllocatedMemory, AllocatedNcpus, AllocatedNfpgas, AllocatedNgpus}

  function JobLabels(job: Job): seq<string> {
    [JobId(job), FormatInt(IntField(job, RUN_COUNT))]
  }

  function Ngpus(env: Env, job: Job): int {
    if IntField(job, NGPUS) != 0 then IntField(job, NGPUS)
    else
      match Select.SelectTotal(env.ram, StringField(job, SCHED_SELECT), "ngpus")
      case Some(n) => n
      case None => 0
  }

  function InfoLabels(env: Env, job: Job): seq<string> {
    JobLabels(job) + [
      FormatBool(IntField(job, INTERACTIVE) > 0), StringField(job, JOB_NAME), env.hostname, StringField(job, PROJECT),
      StringField(job, QUEUE), StringField(job, JOB_STATE), env.uidOf(StringField(job, EUSER)),
      StringField(job, EUSER), PrimaryVnode(StringField(job, EXEC_VNODE))]
  }

  function RequestLabels(env: Env, job: Job): seq<string> {
    JobLabels(job) + [
      FormatInt(IntField(job, MEM)), FormatInt(IntField(job, NCPUS)), FormatInt(IntField(job, NFPGAS)),
      FormatInt(Ngpus(env, job)), StringField(job, PLACE), StringField(job, WALLTIME)]
  }

  predicate IsPrimaryNode(env: Env, job: Job) {
    env.hostname <= Split(StringField(job, EXEC_HOST), '+')[0]
  }

  /** What the primary node emits for a job, in order. */
  function CommonSeries(env: Env, job: Job): seq<Series> {
    SeriesOf(JobLabels(job), InfoLabels(env, job), RequestLabels(env, job), [JobId(job)])
    + (if StringField(job, JOB_STATE) == "R" then [] else [Series(EndTime, JobLabels(job))])
  }

  function SeriesOf(labels: seq<string>, info: seq<string>, request: seq<string>, id: seq<string>): seq<Series> {
    [Series(Info, info), Series(Interactive, labels),
     Series(RequestedMemory, labels), Series(RequestedNcpus, labels), Series(RequestedNfpgas, labels),
     Series(RequestedNgpus, labels), Series(RequestedNodes, labels), Series(RequestedWalltimeSeconds, labels),
     Series(Requests, request), Series(RunCount, id), Series(StartTime, labels)]
  }

  /** What a node emits for the vnodes of a job that are its own. */
  function AllocatedSeries(labels: seq<string>, hostname: string, vs: set<Vnode>): set<Series> {
    set v, metric | v in vs && v.node == hostname && metric in ALLOCATED :: Series(metric, labels + [v.vnode])
  }

  function JobSeries(env: Env, job: Job): set<Series> {
    var vnodes := ExecVnodeMap(env.ram, StringField(job, EXEC_VNODE));
    (if vnodes.Some? then AllocatedSeries(JobLabels(job), env.hostname, vnodes.value.Keys) else {})
    + (if IsPrimaryNode(env, job) then set s | s in CommonSeries(env, job) else {})
  }

  predicate NoDuplicates(ch: seq<Series>) {
    forall i, j :: 0 <= i < j < |ch| ==> ch[i] != ch[j]
  }

  /** The four series of one vnode. */
  function VnodeSeries(labels: seq<string>, v: Vnode): seq<Series> {
    [Series(AllocatedMemory, labels + [v.vnode]), Series(AllocatedNcpus, labels + [v.vnode]),
     Series(AllocatedNfpgas, labels + [v.vnode]), Series(AllocatedNgpus, labels + [v.vnode])]
  }

  /** The sequence emits exactly the set, nothing twice. */
  ghost predicate Emits(ch: seq<Series>, expected: set<Series>) {
    NoDuplicates(ch) && forall s :: s in ch <==> s in expected
  }

  lemma EmitsMore(a: seq<Series>, sa: set<Series>, b: seq<Series>, sb: set<Series>)
    requires Emits(a, sa) && Emits(b, sb) && sa !! sb
    ensures Emits(a + b, sa + sb)
  {
    forall i, j | 0 <= i < j < |a + b| ensures (a + b)[i] != (a + b)[j] {
      if i < |a| <= j {
        assert a[i] in a && b[j - |a|] in b;
      }
    }
  }

  lemma EmitsVnode(labels: seq<string>, v: Vnode)
    ensures Emits(VnodeSeries(labels, v), AllocatedSeries(labels, v.node, {v}))
  {
    forall s ensures s in VnodeSeries(labels, v) <==> s in AllocatedSeries(labels, v.node, {v}) {
      if s in AllocatedSeries(labels, v.node, {v}) {
        assert s == Series(s.metric, labels + [v.vnode]) && s.metric in ALLOCATED;
      }
    }
  }

  lemma VnodeApart(labels: seq<string>, hostname: string, vs: set<Vnode>, v: Vnode)
    requires v !in vs && v.node == hostname
    ensures AllocatedSeries(labels, hostname, vs) !! AllocatedSeries(labels, hostname, {v})
    ensures AllocatedSeries(labels, hostname, vs + {v})
         == AllocatedSeries(labels, hostname, vs) + AllocatedSeries(labels, hostname, {v})
  {
    forall w | w in vs && w.node == hostname ensures labels + [w.vnode] != labels + [v.vnode] {
      assert w.vnode != v.vnode;
      assert (labels + [w.vnode])[|labels|] == w.vnode && (labels + [v.vnode])[|labels|] == v.vnode;
    }
  }

  /** The vnode loop of `Collect`, in any order. */
  method CollectVnodes(labels: seq<string>, hostname: string, execVnodes: VnodeMap) returns (ch: seq<Series>)
    ensures Emits(ch, AllocatedSeries(labels, hostname, execVnodes.Keys))
  {
    hide VnodeSeries;
    ch := [];
    var todo := execVnodes.Keys;
    while todo != {}
      invariant todo <= execVnodes.Keys
      invariant Emits(ch, AllocatedSeries(labels, hostname, execVnodes.Keys - todo))
      decreases todo
    {
      var vnode :| vnode in todo;
      ghost var done := execVnodes.Keys - todo;
      assert execVnodes.Keys - (todo - {vnode}) == done + {vnode};
      todo := todo - {vnode};
      if hostname != vnode.node {
        assert AllocatedSeries(labels, hostname, done + {vnode}) == AllocatedSeries(labels, hostname, done);
        continue;
      }
      EmitsVnode(labels, vnode);
      VnodeApart(labels, hostname, done, vnode);
      EmitsMore(ch, AllocatedSeries(labels, hostname, done),
                VnodeSeries(labels, vnode), AllocatedSeries(labels, hostname, {vnode}));
      ch := ch + VnodeSeries(labels, vnode);
    }
  }

  /** The place of a metric among the common ones. */
  function Place(m: Metric): int {
    match m
    case Info => 0
    case Interactive => 1
    case RequestedMemory => 2
    case RequestedNcpus => 3
    case RequestedNfpgas => 4
    case RequestedNgpus => 5
    case RequestedNodes => 6
    case RequestedWalltimeSeconds => 7
    case Requests => 8
    case RunCount => 9
    case StartTime => 10
    case EndTime => 11
    case _ => -1
  }

  /** Position `i` holds the metric that belongs there, for this job. */
  predicate Placed(s: seq<Series>, i: nat, id: string) {
    i < |s| ==> Place(s[i].metric) == i && s[i].labels != [] && s[i].labels[0] == id
  }

  lemma PlacedSeries(labels: seq<string>, info: seq<string>, request: seq<string>, id: string)
    requires forall l :: l in [labels, info, request] ==> l != [] && l[0] == id
    ensures |SeriesOf(labels, info, request, [id])| == 11
    ensures forall i :: 0 <= i < 11 ==> Placed(SeriesOf(labels, info, request, [id]), i, id)
  {
    assert labels in [labels, info, request] && info in [labels, info, request] && request in [labels, info, request];
  }

  lemma PlacedMore(s: seq<Series>, t: seq<Series>, i: nat, id: string)
    requires |s| == 11 && forall k :: 0 <= k < 11 ==> Placed(s, k, id)
    requires t == [] || exists l: seq<string> :: t == [Series(EndTime, l)] && l != [] && l[0] == id
    ensures Placed(s + t, i, id)
  {
    if i < 11 {
      assert Placed(s, i, id) && (s + t)[i] == s[i];
    }
  }

  lemma CommonPlaced(env: Env, job: Job)
    ensures |CommonSeries(env, job)| <= 12
    ensures forall i :: 0 <= i < 12 ==> Placed(CommonSeries(env, job), i, JobId(job))
  {
    hide JobId, FormatInt, FormatBool, Ngpus, StringField, IntField, PrimaryVnode;
    var labels, info, request := JobLabels(job), InfoLabels(env, job), RequestLabels(env, job);
    assert labels[0] == JobId(job) && info[0] == JobId(job) && request[0] == JobId(job);
    PlacedSeries(labels, info, request, JobId(job));
    hide Placed, SeriesOf, JobLabels, InfoLabels, RequestLabels;
    var tail := if StringField(job, JOB_STATE) == "R" then [] else [Series(EndTime, labels)];
    forall i | 0 <= i < 12 ensures Placed(CommonSeries(env, job), i, JobId(job)) {
      PlacedMore(SeriesOf(labels, info, request, [JobId(job)]), tail, i, JobId(job));
    }
  }

  lemma CommonEmits(env: Env, job: Job)
    ensures Emits(CommonSeries(env, job), set s | s in CommonSeries(env, job))
    ensures forall s :: s in CommonSeries(env, job) ==>
                          s.metric !in ALLOCATED && s.labels != [] && s.labels[0] == JobId(job)
  {
    CommonPlaced(env, job);
    hide CommonSeries, JobId, Placed;
    PlacedOnce(CommonSeries(env, job), JobId(job));
  }

  lemma PlacedOnce(ch: seq<Series>, id: string)
    requires |ch| <= 12 && forall i :: 0 <= i < 12 ==> Placed(ch, i, id)
    ensures Emits(ch, set s | s in ch)
    ensures forall s :: s in ch ==> s.metric !in ALLOCATED && s.labels != [] && s.labels[0] == id
  {
    forall i | 0 <= i < |ch| ensures Place(ch[i].metric) == i && ch[i].labels != [] && ch[i].labels[0] == id {
      assert Placed(ch, i, id);
    }
  }

  /** The series of one job all carry its id first. */
  lemma JobSeriesNamed(env: Env, job: Job)
    ensures forall s :: s in JobSeries(env, job) ==> s.labels != [] && s.labels[0] == JobId(job)
  {
    CommonEmits(env, job);
    hide CommonSeries, JobId, FormatInt;
  }

  /** The body of `Collect`'s loop. */
  method CollectJob(env: Env, job: Job) returns (ch: seq<Series>)
    ensures Emits(ch, JobSeries(env, job))
  {
    hide CommonSeries, JobLabels, IsPrimaryNode, Emits;
    var labels := JobLabels(job);
    var execVnodes := ParseExecVnode(env.ram, StringField(job, EXEC_VNODE));
    ghost var onNode: set<Series> := {};
    ch := [];
    NothingEmitted();
    if execVnodes.Some? {
      ch := CollectVnodes(labels, env.hostname, execVnodes.value);
      onNode := AllocatedSeries(labels, env.hostname, execVnodes.value.Keys);
    }
    assert onNode + {} == onNode;
    if !IsPrimaryNode(env, job) {
      return;
    }
    CommonEmits(env, job);
    EmitsMore(ch, onNode, CommonSeries(env, job), set s | s in CommonSeries(env, job));
    ch := ch + CommonSeries(env, job);
  }

  lemma NothingEmitted()
    ensures Emits([], {})
  {
  }

  /** What a collection over these jobs emits. */
  function AllSeries(env: Env, jobs: seq<Job>): set<Series> {
    if jobs == [] then {} else AllSeries(env, jobs[..|jobs| - 1]) + JobSeries(env, jobs[|jobs| - 1])
  }

  lemma {:induction false} SeriesNamed(env: Env, jobs: seq<Job>, s: Series)
    requires s in AllSeries(env, jobs)
    ensures s.labels != [] && exists i :: 0 <= i < |jobs| && s.labels[0] == JobId(jobs[i])
  {
    hide JobSeries, JobId;
    var n := |jobs| - 1;
    JobSeriesNamed(env, jobs[n]);
    if s !in JobSeries(env, jobs[n]) {
      SeriesNamed(env, jobs[..n], s);
    }
  }

  /** The series of the active jobs. */
  function ActiveSeries(env: Env, active: map<string, Job>): set<Series> {
    set id, s | id in active && s in JobSeries(env, active[id]) :: s
  }

  /** The metric and labels of each active job's series, each exactly once: `Collect`. */
  method Collect(env: Env, now: int, cache: JobCache) returns (ch: seq<Series>)
    requires cache.Valid() && Keyed(cache.Contents())
    ensures NoDuplicates(ch)
    ensures forall s :: s in ch <==> s in ActiveSeries(env, Active(cache.Contents(), now))
  {
    hide JobSeries, JobId, AllSeries, ActiveSeries, HasReadableWalltime;
    var listed := cache.List(now);
    ghost var active := Active(cache.Contents(), now);
    ghost var keys :| ListsBy(listed, active, keys);
    ch := [];
    NoSeries(env, listed);
    for i := 0 to |listed|
      invariant Emits(ch, AllSeries(env, listed[..i]))
    {
      var more := CollectJob(env, listed[i]);
      OneMoreJob(env, listed, i, active, keys, ch, more);
      ch := ch + more;
    }
    assert listed[..|listed|] == listed;
    ListedSeries(env, listed, active, keys);
  }

  /** No duplicate series from any cache the program can come to. */
  method CollectReachable(
    env: Env, now: int, cache: JobCache, ghost files: seq<string>, ghost clock: int, ghost moves: seq<Move>)
    returns (ch: seq<Series>)
    requires cache.Valid() && Reachable(env.ram, files, clock, moves, cache.Contents())
    ensures NoDuplicates(ch)
    ensures forall s :: s in ch <==> s in ActiveSeries(env, Active(cache.Contents(), now))
  {
    hide *;
    ReachableIsKeyed(env.ram, files, clock, moves, cache.Contents());
    ch := Collect(env, now, cache);
  }

  lemma {:induction false} SeriesListed(env: Env, jobs: seq<Job>, s: Series)
    ensures s in AllSeries(env, jobs) <==> exists i :: 0 <= i < |jobs| && s in JobSeries(env, jobs[i])
  {
    hide JobSeries;
    if jobs == [] {
    } else {
      var n := |jobs| - 1;
      SeriesListed(env, jobs[..n], s);
      if i :| 0 <= i < |jobs| && s in JobSeries(env, jobs[i]) {
        assert i == n || jobs[..n][i] == jobs[i];
      }
    }
  }

  lemma ListedSeries(env: Env, jobs: seq<Job>, active: map<string, Job>, keys: seq<string>)
    requires ListsBy(jobs, active, keys)
    ensures AllSeries(env, jobs) == ActiveSeries(env, active)
  {
    hide JobSeries, AllSeries;
    forall s ensures s in AllSeries(env, jobs) <==> s in ActiveSeries(env, active) {
      SeriesListed(env, jobs, s);
      if s in AllSeries(env, jobs) {
        var i :| 0 <= i < |jobs| && s in JobSeries(env, jobs[i]);
        assert keys[i] in active && active[keys[i]] == jobs[i];
      }
      if s in ActiveSeries(env, active) {
        var id :| id in active && s in JobSeries(env, active[id]);
        var i :| 0 <= i < |keys| && keys[i] == id;
        assert jobs[i] == active[id];
      }
    }
  }

  lemma NoSeries(env: Env, jobs: seq<Job>)
    ensures Emits([], AllSeries(env, jobs[..0]))
  {
  }

  lemma OneMoreJob(
    env: Env, jobs: seq<Job>, i: nat, active: map<string, Job>, keys: seq<string>, ch: seq<Series>, more: seq<Series>)
    requires i < |jobs| && ListsBy(jobs, active, keys) && KeyedJobs(active)
    requires Emits(ch, AllSeries(env, jobs[..i])) && Emits(more, JobSeries(env, jobs[i]))
    ensures Emits(ch + more, AllSeries(env, jobs[..i + 1]))
  {
    hide JobSeries, JobId, Emits;
    assert jobs[..i + 1][..i] == jobs[..i] && jobs[..i + 1][i] == jobs[i];
    JobsApart(env, jobs, i, active, keys);
    EmitsMore(ch, AllSeries(env, jobs[..i]), more, JobSeries(env, jobs[i]));
  }

  /** Listed jobs have different ids, so their series differ. */
  lemma JobsApart(env: Env, jobs: seq<Job>, i: nat, active: map<string, Job>, keys: seq<string>)
    requires i < |jobs| && ListsBy(jobs, active, keys) && KeyedJobs(active)
    ensures AllSeries(env, jobs[..i]) !! JobSeries(env, jobs[i])
  {
    hide JobSeries, AllSeries, JobId;
    forall k | 0 <= k <= i ensures JobId(jobs[k]) == keys[k] {
      assert keys[k] in keys && keys[k] in active;
    }
    JobSeriesNamed(env, jobs[i]);
    forall s | s in AllSeries(env, jobs[..i]) ensures s !in JobSeries(env, jobs[i]) {
      SeriesNamed(env, jobs[..i], s);
    }
  }
}
