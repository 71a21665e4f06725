/** How long the cache serves a job, in the numbers of the job: its start, its wall time, and the timeout. */
module Lifetimes {
  import opened Wrappers
  import opened GoStrings
  import opened Strconv
  import opened Reflect
  import opened JobTypes
  import opened Utils
  import opened RoundTrip
  import opened Jobs
  import opened Cache
  import opened CacheHistory
  import Events
  import Collector
  import A = Acceptance

  /** The job starts at `start` and asks for `seconds`; with the timeout, 64 bits hold its end. */
  ghost predicate Timetable(job: Job, start: int, seconds: int, timeout: int) {
    && NumberAt(job, [19], start)
    && (exists walltime :: TextAt(job, [17, 5], walltime) && Lasts(walltime, seconds))
    && seconds <= 0x7FFF_FFFF_FFFF_FFFF
    && -0x8000_0000_0000_0000 <= start + seconds + timeout <= 0x7FFF_FFFF_FFFF_FFFF
  }

  lemma EndOfJob(job: Job, start: int, seconds: int, timeout: int)
    requires Timetable(job, start, seconds, timeout)
    ensures HasReadableWalltime(job) && Expiration(job, timeout) == start + seconds + timeout
  {
    hide FieldByIndex, WalltimeReadable, ParseWalltime, Lasts;
    var walltime :| TextAt(job, [17, 5], walltime) && Lasts(walltime, seconds);
    WalltimeLasts(walltime, seconds);
    assert StringField(job, WALLTIME) == walltime && IntField(job, STIME) == start;
    hide Wrap64;
  }

  /**
   `Set` makes an entry exactly when its reading is not past start + wall time + timeout, and
   otherwise leaves the cache as it was.
   */
  lemma SetExactly(timeout: int, m: CacheMap, id: string, job: Job, now: int, start: int, seconds: int)
    requires Timetable(job, start, seconds, timeout)
    ensures var setting := Timed(now, Action.Set(id, Some(job)));
            && NoPanic(setting.action)
            && Apply(timeout, m, setting)
               == if id != "" && now <= start + seconds + timeout
                  then m[id := Entry(start + seconds + timeout, true, job)] else m
    ensures Apply(timeout, m, Timed(now, Action.Set(id, None))) == m
  {
    hide Timetable, Expiration, HasReadableWalltime;
    EndOfJob(job, start, seconds, timeout);
  }

  /** After an accepted `Set`, while its id is left alone, `Get` finds the job exactly until that time, and it runs. */
  lemma FoundUntilEnd(
    timeout: int, m: CacheMap, id: string, job: Job, now: int, start: int, seconds: int,
    between: History, later: int)
    requires Timetable(job, start, seconds, timeout) && id != "" && now <= start + seconds + timeout
    requires AllReadable(between) && LeavesAlone(between, id)
    ensures var setting := Timed(now, Action.Set(id, Some(job)));
            && AllReadable([setting] + between)
            && var after := Run(timeout, m, [setting] + between);
               && Lookup(after, id, later) == (if later <= start + seconds + timeout then Some(job) else None)
               && Running(after, id)
  {
    var setting := Timed(now, Action.Set(id, Some(job)));
    SetExactly(timeout, m, id, job, now, start, seconds);
    hide Timetable, Expiration, HasReadableWalltime, Run;
    RunCons(timeout, m, setting, between);
    RunningStays(timeout, Apply(timeout, m, setting), between, id);
  }

  /** From the first `Delete` on it no longer runs. */
  lemma NotRunningOnceDeleted(timeout: int, m: CacheMap, id: string, deleted: int, later: History)
    requires AllReadable(later) && LeavesAlone(later, id)
    ensures AllReadable([Timed(deleted, Action.Delete(id))] + later)
    ensures !Running(Run(timeout, m, [Timed(deleted, Action.Delete(id))] + later), id)
  {
    var delete := Timed(deleted, Action.Delete(id));
    RunCons(timeout, m, delete, later);
    NeverRuns(timeout, Apply(timeout, m, delete), later, id);
  }

  lemma {:induction false} NeverRuns(timeout: int, m: CacheMap, h: History, id: string)
    requires AllReadable(h) && LeavesAlone(h, id) && !Running(m, id)
    ensures !Running(Run(timeout, m, h), id)
    decreases |h|
  {
    hide Accepted, Expiration;
    if h == [] {
    } else {
      NeverRuns(timeout, m, h[..|h| - 1], id);
      assert !Touches(h[|h| - 1], id);
    }
  }

  /**
   From the bytes of a job's file to the answers of `Get`: created (1) or written (2) in time, the
   job is found exactly until start + wall time + timeout; too late, nothing changes.
   */
  lemma JobServedUntilEnd(
    ram: HumanUnits, timeout: int, m: CacheMap, dir: string, name: string, job: Job, trailing: string, op: nat,
    now: int, start: int, seconds: int, between: History, later: int)
    requires Events.Tracked(job) && Timetable(job, start, seconds, timeout) && TextAt(job, [27], name)
    requires (op == 1 || op == 2) && AllReadable(between) && LeavesAlone(between, JobId(job))
    ensures var event := Events.FsEvent(dir + "/" + (name + ".JB"), op, Some(Marshalled(JOB, job) + trailing), now);
            var steps := Events.Steps(ram, [event]);
            if now <= start + seconds + timeout
            then Lookup(Run(timeout, m, steps + between), JobId(job), later)
                 == if later <= start + seconds + timeout then Some(job) else None
            else Run(timeout, m, steps) == m
  {
    hide FieldByIndex, Timetable, Expiration, HasReadableWalltime, Run, Events.Steps, Events.React, Marshalled, JobId;
    hide Lookup, LeavesAlone, AllReadable, Apply;
    assert Hashname(job) == name;
    var event := Events.FsEvent(dir + "/" + (name + ".JB"), op, Some(Marshalled(JOB, job) + trailing), now);
    var setting := Events.SetStep(job, now);
    Events.CreationSets(ram, dir, job, trailing, op, now);
    Events.OneStep(ram, event, setting.action);
    if now <= start + seconds + timeout {
      FoundUntilEnd(timeout, m, JobId(job), job, now, start, seconds, between, later);
    } else {
      SetExactly(timeout, m, JobId(job), job, now, start, seconds);
      RunOne(timeout, m, setting);
    }
  }

  lemma RunOne(timeout: int, m: CacheMap, t: Timed)
    requires NoPanic(t.action)
    ensures Run(timeout, m, [t]) == Apply(timeout, m, t)
  {
    hide Apply;
    assert [t][..0] == [];
  }

  /** A job that starts at 1749249370 for "01:00:00", in a cache of timeout 60, ends at 1749253030. */
  lemma AnHourAndAMinute(job: Job, m: CacheMap, now: int)
    requires NumberAt(job, [19], 1749249370) && TextAt(job, [17, 5], "01:00:00")
    ensures var setting := Timed(now, Action.Set("1000", Some(job)));
            && NoPanic(setting.action)
            && Apply(60, m, setting) == if now <= 1749253030 then m["1000" := Entry(1749253030, true, job)] else m
  {
    hide FieldByIndex, Apply, NoPanic;
    HourLasts();
    SetExactly(60, m, "1000", job, now, 1749249370, 3600);
  }

  lemma HourLasts()
    ensures Lasts("01:00:00", 3600)
  {
    TwoDigits("01");
    TwoDigits("00");
    assert "01" + ":" + "00" + ":" + "00" == "01:00:00";
    hide Decimal;
    assert LastsFor("01:00:00", 3600, "01", "00", "00");
  }

  lemma TrackedHasId(job: Job)
    requires Events.Tracked(job)
    ensures JobId(job) != ""
  {
  }

  lemma JobIsParsed(ram: HumanUnits, files: seq<string>, i: nat, job: Job, trailing: string)
    requires Events.Tracked(job) && i < |files| && files[i] == Marshalled(JOB, job) + trailing
    requires Collector.HoldsLast(ram, files, i, JobId(job))
    ensures var parsed := Collector.ParsedFiles(ram, files);
            JobId(job) != "" && JobId(job) in parsed && parsed[JobId(job)] == job
  {
    hide *;
    TrackedHasId(job);
    Events.DecodesToJob(ram, job, trailing);
    Collector.ParsedFilesExactly(ram, files, JobId(job));
  }

  lemma ParsedIsServed(
    parsed: map<string, Job>, latest: int, m: CacheMap, id: string, start: int, seconds: int, now: int)
    requires id != "" && id in parsed && Timetable(parsed[id], start, seconds, 60) && latest <= start + seconds + 60
    requires forall id :: id in m ==> Collector.FreshEntry(parsed, 60, id, m[id])
    requires forall id :: Collector.Unexpired(parsed, 60, latest, id) ==> id in m
    ensures Lookup(m, id, now) == (if now <= start + seconds + 60 then Some(parsed[id]) else None) && Running(m, id)
  {
    EndOfJob(parsed[id], start, seconds, 60);
    hide Timetable, Expiration, HasReadableWalltime;
    assert Collector.Unexpired(parsed, 60, latest, id);
  }

  /**
   At start-up, a job whose file is the last stored of its id is served until start + wall time +
   60 from any cache that `InitialiseJobCache` can leave, if no reading it took was past that.
   */
  lemma StartUpServes(
    ram: HumanUnits, files: seq<string>, i: nat, latest: int, m: CacheMap,
    job: Job, trailing: string, start: int, seconds: int, now: int)
    requires Events.Tracked(job) && Timetable(job, start, seconds, 60) && latest <= start + seconds + 60
    requires i < |files| && files[i] == Marshalled(JOB, job) + trailing
    requires Collector.HoldsLast(ram, files, i, JobId(job))
    requires forall id :: id in m ==> Collector.FreshEntry(Collector.ParsedFiles(ram, files), 60, id, m[id])
    requires forall id :: Collector.Unexpired(Collector.ParsedFiles(ram, files), 60, latest, id) ==> id in m
    ensures Lookup(m, JobId(job), now) == (if now <= start + seconds + 60 then Some(job) else None)
    ensures Running(m, JobId(job))
  {
    hide *;
    JobIsParsed(ram, files, i, job, trailing);
    ParsedIsServed(Collector.ParsedFiles(ram, files), latest, m, JobId(job), start, seconds, now);
  }

  lemma ParsedIsReadable(ram: HumanUnits, files: seq<string>, id: string)
    requires id in Collector.ParsedFiles(ram, files)
    ensures var job := Collector.ParsedFiles(ram, files)[id];
            Events.HalfATime(job) <==> id != "" && !HasReadableWalltime(job)
  {
    hide Events.HalfATime, JobId, HasReadableWalltime, Collector.ParsedFiles, Collector.HoldsJob, Zero, JOB;
    var i := Collector.ParsedFrom(ram, files, id);
    Collector.ParsedFilesKeyed(ram, files);
    var job := Collector.ParsedFiles(ram, files)[id];
    Collector.HoldsInside(ram, files, i, id);
    assert HasType(job, JOB) by {
      assert job == Events.DecodeJob(ram, files[i]).1;
    }
    Events.HalfATimePanics(job);
  }

  /**
   What stops start-up: a file on which decoding repeats forever or panics, or a job left in the
   map whose wall time cannot be read.
   */
  lemma StartUpStopsExactly(ram: HumanUnits, files: seq<string>)
    requires forall i, k :: 0 <= i < |files| && 0 <= k < |files[i]| ==> files[i][k] as int < 0x100
    ensures Collector.AllEnd(ram, files)
       <==> forall i :: 0 <= i < |files| ==>
              && !A.IsUnended(Events.Decoder(ram), Zero(JOB), files[i])
              && !A.IsPanicking(Events.Decoder(ram), Zero(JOB), files[i])
    ensures var parsed := Collector.ParsedFiles(ram, files);
            Collector.AllReadableJobs(parsed) <==> forall id :: id in parsed ==> !Events.HalfATime(parsed[id])
  {
    hide Events.HalfATime, HasReadableWalltime, Collector.ParsedFiles, Zero, JOB, A.IsUnended, A.IsPanicking;
    hide Events.DecodeJob, A.IsEnded, Events.Decoder;
    forall i | 0 <= i < |files|
      ensures (Events.DecodeJob(ram, files[i]).0.Accepted? || Events.DecodeJob(ram, files[i]).0.Rejected?)
         <==> && !A.IsUnended(Events.Decoder(ram), Zero(JOB), files[i])
              && !A.IsPanicking(Events.Decoder(ram), Zero(JOB), files[i])
    {
      Events.DecodedShape(ram, files[i]);
    }
    var parsed := Collector.ParsedFiles(ram, files);
    forall id | id in parsed ensures Events.HalfATime(parsed[id]) <==> id != "" && !HasReadableWalltime(parsed[id]) {
      ParsedIsReadable(ram, files, id);
    }
  }
}
