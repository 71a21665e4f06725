/** The job watcher of `internal/pbsjob/pbsjob.go`: file events become cache actions through the decoder. */
module Events {
  import opened Wrappers
  import opened GoStrings
  import opened Strconv
  import opened Reflect
  import opened JobFile
  import opened Utils
  import opened JobTypes
  import opened Jobs
  import opened RoundTrip
  import opened Cache
  import opened CacheHistory
  import C = Codec
  import D = Decode
  import A = Acceptance
  import opened Layout
  import opened FileBytes

  /** The bits of `fsnotify.Op`; an event carries a sum of them. */
  const CREATE := 1
  const WRITE := 2
  const REMOVE := 4

  /** A file event, the file's bytes when it can be opened, and the clock reading its cache call takes. */
  datatype FsEvent = FsEvent(name: string, op: nat, content: Option<string>, now: int)

  /** What the watcher makes of an event; `Stops` where it panics or decodes forever. */
  datatype Reaction = Acts(action: Action) | Ignores | Stops

  function Decoder(ram: HumanUnits): (c: D.Config)
    ensures c.typ == JOB && D.TableFits(c)
  {
    JobTypeIsGood();
    C.JobConfig(JOB, false, ram)
  }

  function DecodeJob(ram: HumanUnits, content: string): (D.Outcome, Job) {
    D.DecodeFile(Decoder(ram), Zero(JOB), content)
  }

  function React(ram: HumanUnits, e: FsEvent): (r: Reaction)
    ensures r.Acts? ==> NoPanic(r.action)
  {
    if !HasSuffix(e.name, ".JB") then Ignores
    else if e.op == CREATE || e.op == WRITE then
      if e.content.None? then Ignores
      else
        var (outcome, job) := DecodeJob(ram, e.content.value);
        match outcome
        case Accepted(_) =>
          var setting := Action.Set(JobId(job), Some(job));
          if NoPanic(setting) then Acts(setting) else Stops
        case Rejected(_) => Ignores
        case _ => Stops
    else if e.op == REMOVE then Acts(Action.Delete(Split(Base(e.name), '.')[0]))
    else Ignores
  }

  // ---- the program ----

  /** One job file, decoded into a fresh job. */
  method DecodeFresh(ram: HumanUnits, content: string) returns (outcome: D.Outcome, job: Job)
    ensures (outcome, job) == DecodeJob(ram, content)
  {
    var target := new D.JobRef(Zero(JOB));
    outcome := D.Unmarshal(Decoder(ram), content, target);
    job := target.root;
  }

  /** `PbsJobEvent` on the events that arrive; `stopped` where it panics or hangs before their end. */
  method PbsJobEvent(ram: HumanUnits, events: seq<FsEvent>, cache: JobCache) returns (stopped: bool)
    requires cache.Valid()
    modifies cache, cache.jobs.Values
    ensures stopped <==> !Survives(ram, events)
    ensures ByteContents(events) ==> (stopped <==> AnyFatal(ram, events))
    ensures !stopped ==>
              cache.Valid() && cache.Contents() == Run(cache.timeout, old(cache.Contents()), Steps(ram, events))
  {
    hide React, DecodeJob, Apply;
    SurvivesExactly(ram, events);
    for i := 0 to |events|
      invariant cache.Valid()
      invariant forall id :: id in cache.jobs ==> fresh(cache.jobs[id]) || cache.jobs[id] in old(cache.jobs.Values)
      invariant Survives(ram, events[..i])
      invariant cache.Contents() == Run(cache.timeout, old(cache.Contents()), Steps(ram, events[..i]))
    {
      var event := events[i];
      StepsSnoc(ram, events, i, cache.timeout, old(cache.Contents()));
      var fine := HandleEvent(ram, event, cache);
      if !fine {
        assert events[i] in events;
        return true;
      }
    }
    assert events[..|events|] == events;
    stopped := false;
  }

  method HandleEvent(ram: HumanUnits, event: FsEvent, cache: JobCache) returns (fine: bool)
    requires cache.Valid()
    modifies cache, cache.jobs.Values
    ensures fine <==> React(ram, event) != Stops
    ensures fine ==>
              && cache.Valid()
              && cache.Contents() == AfterReaction(cache.timeout, old(cache.Contents()), React(ram, event), event.now)
    ensures forall id :: id in cache.jobs ==> fresh(cache.jobs[id]) || cache.jobs[id] in old(cache.jobs.Values)
  {
    hide DecodeJob, Apply;
    fine := true;
    if !HasSuffix(event.name, ".JB") {
      return;
    }
    if event.op == CREATE || event.op == WRITE {
      if event.content.None? {
        return;
      }
      var outcome, job := DecodeFresh(ram, event.content.value);
      if outcome.Rejected? {
        return;
      }
      if !outcome.Accepted? || !NoPanic(Action.Set(JobId(job), Some(job))) {
        return false;
      }
      cache.Set(event.now, JobId(job), Some(job));
    } else if event.op == REMOVE {
      var fileName := Base(event.name);
      var jobId := Split(fileName, '.')[0];
      cache.Delete(event.now, jobId);
    }
  }

  function AfterReaction(timeout: int, m: CacheMap, r: Reaction, now: int): CacheMap
    requires r.Acts? ==> NoPanic(r.action)
  {
    if r.Acts? then Apply(timeout, m, Timed(now, r.action)) else m
  }

  /** The program gets past every event. */
  predicate Survives(ram: HumanUnits, events: seq<FsEvent>) {
    forall e :: e in events ==> React(ram, e) != Stops
  }

  /** The cache actions the events cause, in order. */
  function Steps(ram: HumanUnits, events: seq<FsEvent>): (h: History)
    ensures AllReadable(h)
  {
    if events == [] then []
    else
      var last := events[|events| - 1];
      Steps(ram, events[..|events| - 1])
      + (match React(ram, last)
         case Acts(action) => [Timed(last.now, action)]
         case _ => [])
  }

  lemma StepsSnoc(ram: HumanUnits, events: seq<FsEvent>, i: nat, timeout: int, m: CacheMap)
    requires i < |events|
    ensures Run(timeout, m, Steps(ram, events[..i + 1]))
         == AfterReaction(timeout, Run(timeout, m, Steps(ram, events[..i])), React(ram, events[i]), events[i].now)
    ensures Survives(ram, events[..i + 1]) <==> Survives(ram, events[..i]) && React(ram, events[i]) != Stops
  {
    hide React, Apply;
    assert events[..i + 1][..i] == events[..i] && events[..i + 1][i] == events[i];
    assert events[..i + 1] == events[..i] + [events[i]];
    var h := Steps(ram, events[..i]);
    match React(ram, events[i]) {
      case Acts(action) =>
        var t := Timed(events[i].now, action);
        assert (h + [t])[..|h + [t]| - 1] == h;
      case _ =>
        assert h + [] == h;
    }
  }

  // ---- what each event does, in the bytes of names and files ----

  predicate IsJobFile(name: string) {
    |name| >= 3 && name[|name| - 3..] == ".JB"
  }

  /** Creations carry 1 and writes 2. */
  predicate Reads(e: FsEvent) {
    IsJobFile(e.name) && (e.op == 1 || e.op == 2) && e.content.Some?
  }

  predicate ByteContent(e: FsEvent) {
    e.content.Some? ==> forall i :: 0 <= i < |e.content.value| ==> e.content.value[i] as int < 0x100
  }

  predicate ByteContents(events: seq<FsEvent>) {
    forall e :: e in events ==> ByteContent(e)
  }

  /** The job has an id, and a wall time of one or two parts. */
  ghost predicate HalfATime(job: Job) {
    exists name, walltime :: HalfTimed(job, name, walltime)
  }

  predicate HalfTimed(job: Job, name: string, walltime: string) {
    && TextAt(job, [27], name) && name != "" && name[0] != '.'
    && TextAt(job, [17, 5], walltime) && walltime != "" && Colons(walltime) < 2
  }

  lemma HalfATimePanics(job: Job)
    requires HasType(job, JOB)
    ensures HalfATime(job) <==> !NoPanic(Action.Set(JobId(job), Some(job)))
  {
    TextsOfJob(job);
    FirstPartEmpty(Hashname(job), '.');
    WalltimePanicsExactly(StringField(job, WALLTIME));
    hide FieldByIndex, WalltimeReadable, Split, HasType, Colons;
    if !NoPanic(Action.Set(JobId(job), Some(job))) {
      assert HalfTimed(job, Hashname(job), StringField(job, WALLTIME));
    }
    if name, walltime :| HalfTimed(job, name, walltime) {
      assert name == Hashname(job) && walltime == StringField(job, WALLTIME);
    }
  }

  /** The data decodes to a job that the cache cannot be asked to set. */
  ghost predicate Untimely(ram: HumanUnits, data: string) {
    (exists rest :: A.IsEnded(Decoder(ram), Zero(JOB), data, rest)) && HalfATime(DecodeJob(ram, data).1)
  }

  /**
   The program goes no further than this event: it reads a file on which decoding repeats forever
   or panics, or one of a job whose wall time it cannot read.
   */
  ghost predicate Fatal(ram: HumanUnits, e: FsEvent) {
    && Reads(e)
    && (|| A.IsUnended(Decoder(ram), Zero(JOB), e.content.value)
        || A.IsPanicking(Decoder(ram), Zero(JOB), e.content.value)
        || Untimely(ram, e.content.value))
  }

  ghost predicate AnyFatal(ram: HumanUnits, events: seq<FsEvent>) {
    exists e :: e in events && Fatal(ram, e)
  }

  lemma DecodedShape(ram: HumanUnits, data: string)
    requires forall i :: 0 <= i < |data| ==> data[i] as int < 0x100
    ensures var (outcome, job) := DecodeJob(ram, data);
            && (outcome == D.Loops <==> A.IsUnended(Decoder(ram), Zero(JOB), data))
            && (outcome == D.Panicked <==> A.IsPanicking(Decoder(ram), Zero(JOB), data))
            && (outcome.Accepted? <==> exists rest :: A.IsEnded(Decoder(ram), Zero(JOB), data, rest))
            && HasType(job, JOB)
  {
    hide D.DecodeFile, A.IsUnended, A.IsPanicking, A.IsEnded, Decoder, Zero, JOB;
    A.LoopsExactly(Decoder(ram), Zero(JOB), data);
    A.PanicsExactly(Decoder(ram), Zero(JOB), data);
    forall rest
      ensures DecodeJob(ram, data).0 == D.Accepted(rest) <==> A.IsEnded(Decoder(ram), Zero(JOB), data, rest)
    {
      A.AcceptsExactly(Decoder(ram), Zero(JOB), data, rest);
    }
  }

  lemma StopsExactly(ram: HumanUnits, e: FsEvent)
    requires ByteContent(e)
    ensures React(ram, e) == Stops <==> Fatal(ram, e)
  {
    hide DecodeJob, NoPanic, HalfATime, A.IsUnended, A.IsPanicking, A.IsEnded, Decoder, Zero, HasType, JobId;
    if Reads(e) {
      DecodedShape(ram, e.content.value);
      HalfATimePanics(DecodeJob(ram, e.content.value).1);
    }
  }

  lemma SurvivesExactly(ram: HumanUnits, events: seq<FsEvent>)
    ensures ByteContents(events) ==> (Survives(ram, events) <==> !AnyFatal(ram, events))
  {
    hide React, Fatal, ByteContent;
    if ByteContents(events) {
      forall e | e in events ensures React(ram, e) == Stops <==> Fatal(ram, e) {
        StopsExactly(ram, e);
      }
    }
  }

  /** The data is cut inside a record, behind records that all assign. */
  ghost predicate CutShort(ram: HumanUnits, data: string) {
    exists prefix, ps, attrs, p, n :: CutAt(ram, data, prefix, ps, attrs, p, n)
  }

  ghost predicate CutAt(
    ram: HumanUnits, data: string, prefix: string, ps: seq<Piece>, attrs: seq<Attr>, p: Piece, n: nat) {
    && |prefix| == 1096 && AllMeasured(ps) && AllStandFor(ps, attrs) && Measured(p) && 0 < n < |PieceBytes(p)|
    && C.AssignAll(Decoder(ram), Zero(JOB), attrs).0.None?
    && data == prefix + PiecesBytes(ps) + PieceBytes(p)[..n]
  }

  /** Another kind of file or of event, a file that cannot be opened, or one not yet written in full. */
  ghost predicate Quiet(ram: HumanUnits, e: FsEvent) {
    || !IsJobFile(e.name)
    || (e.op != 1 && e.op != 2 && e.op != 4)
    || (e.op != 4 && (e.content.None? || |e.content.value| < 1096 || CutShort(ram, e.content.value)))
  }

  lemma QuietIgnored(ram: HumanUnits, e: FsEvent)
    requires Quiet(ram, e)
    ensures React(ram, e) == Ignores
  {
    hide C.AssignAll, Decoder, D.DecodeFile, Zero, Measured, AllMeasured, AllStandFor, PieceBytes, PiecesBytes, NoPanic;
    if IsJobFile(e.name) && (e.op == 1 || e.op == 2) && e.content.Some? {
      var data := e.content.value;
      if |data| < 1096 {
        TooShort(Decoder(ram), Zero(JOB), data);
      } else {
        var prefix, ps, attrs, p, n :| CutAt(ram, data, prefix, ps, attrs, p, n);
        CutInside(Decoder(ram), Zero(JOB), prefix, ps, attrs, p, n, "");
      }
    }
  }

  lemma {:induction false} StepsAppend(ram: HumanUnits, a: seq<FsEvent>, b: seq<FsEvent>)
    ensures Steps(ram, a + b) == Steps(ram, a) + Steps(ram, b)
    decreases |b|
  {
    hide React;
    if b == [] {
      assert a + b == a;
    } else {
      assert (a + b)[..|a + b| - 1] == a + b[..|b| - 1];
      StepsAppend(ram, a, b[..|b| - 1]);
    }
  }

  /** Wherever it comes, such an event changes nothing of what the watcher does to the cache, and the loop goes on. */
  lemma QuietAnywhere(ram: HumanUnits, a: seq<FsEvent>, e: FsEvent, b: seq<FsEvent>)
    requires Quiet(ram, e)
    ensures Steps(ram, a + [e] + b) == Steps(ram, a + b)
    ensures Survives(ram, a + [e] + b) <==> Survives(ram, a + b)
  {
    QuietIgnored(ram, e);
    hide React, Quiet;
    StepsAppend(ram, a + [e], b);
    StepsAppend(ram, a, [e]);
    StepsAppend(ram, a, b);
    assert [e][..0] == [] && Steps(ram, []) == [];
    assert Steps(ram, [e]) == [];
    assert Steps(ram, a) + [] == Steps(ram, a);
    hide Steps;
    assert Survives(ram, a + [e] + b) ==> Survives(ram, a + b) by {
      assert forall x :: x in a + b ==> x in a + [e] + b;
    }
  }

  /** A record of a name that no attribute of `Job` has changes nothing: the watcher decodes leniently. */
  lemma UnknownSkipped(
    ram: HumanUnits, prefix: string, a: seq<Piece>, p: Piece, b: seq<Piece>,
    before: seq<Attr>, unknown: Attr, after: seq<Attr>, tail: string, rest: string)
    requires |prefix| == 1096 && |tail| == 20 && forall i :: 0 <= i < 20 ==> tail[i] as int < 0x100
    requires AllMeasured(a + [p] + b) && AllMeasured(a + b)
    requires AllStandFor(a + [p] + b, before + [unknown] + after) && AllStandFor(a + b, before + after)
    requires GoodType(JOB) && JobMapKey(unknown.name, unknown.resource) !in Stored(map[], Leaves(JOB))
    ensures DecodeJob(ram, prefix + PiecesBytes(a + [p] + b) + "9\U{FD}\U{FF}\U{FF}" + tail + rest)
         == DecodeJob(ram, prefix + PiecesBytes(a + b) + "9\U{FD}\U{FF}\U{FF}" + tail + rest)
  {
    var c := Decoder(ram);
    hide Zero, JOB, Leaves, Stored, C.AssignAll, D.DecodeFile, PiecesBytes, AllMeasured, AllStandFor;
    FileDecodes(c, Zero(JOB), prefix, a + [p] + b, before + [unknown] + after, tail, rest);
    FileDecodes(c, Zero(JOB), prefix, a + b, before + after, tail, rest);
    C.UnknownIgnored(c, Zero(JOB), before, unknown, after);
  }

  /** A file that ends as it should sets its job under its id. */
  lemma EndedSets(ram: HumanUnits, e: FsEvent, rest: string, id: string, more: string)
    requires Reads(e) && ByteContent(e) && A.IsEnded(Decoder(ram), Zero(JOB), e.content.value, rest)
    requires var job := DecodeJob(ram, e.content.value).1;
             && !HalfATime(job) && '.' !in id && (TextAt(job, [27], id) || TextAt(job, [27], id + "." + more))
    ensures React(ram, e) == Acts(Action.Set(id, Some(DecodeJob(ram, e.content.value).1)))
  {
    var data := e.content.value;
    var job := DecodeJob(ram, data).1;
    IdOf(job, id, more);
    hide DecodeJob, NoPanic, HalfATime, A.IsUnended, A.IsPanicking, A.IsEnded, Decoder, Zero, HasType, JobId;
    DecodedShape(ram, data);
    HalfATimePanics(job);
  }

  /** A removal (4) deletes what the file's name says up to its first dot. */
  lemma RemovalOf(
    ram: HumanUnits, dir: string, id: string, more: string, content: Option<string>, now: int)
    requires '/' !in id + more && '.' !in id && IsJobFile(dir + "/" + (id + "." + more))
    ensures React(ram, FsEvent(dir + "/" + (id + "." + more), 4, content, now)) == Acts(Action.Delete(id))
  {
    var file := id + "." + more;
    assert '/' !in file;
    BaseOfPath(dir, file);
    SplitAppend(id, more, '.');
    SplitNoSep(id, '.');
    assert file == id + ['.'] + more;
    hide Split, Base;
  }

  // ---- one job's file, from its creation to its removal ----

  /** The name of the job's file in a directory. */
  function FileName(dir: string, job: Job): string {
    dir + "/" + (Hashname(job) + ".JB")
  }

  /** A job the watcher can be told about: of type `Job`, carried by the format, with an id and a readable wall time. */
  ghost predicate Tracked(job: Job) {
    && GoodType(JOB) && HasType(job, JOB) && InDomain(JOB, job) && FitsFile(JOB, job)
    && '/' !in Hashname(job) && JobId(job) != "" && HasReadableWalltime(job)
  }

  /** The otherwise empty job with host name "1" is such a job. */
  lemma NamedJobTracked()
    ensures Tracked(NamedJob("1")) && JobId(NamedJob("1")) == "1"
  {
    hide GoodType, InDomain, FitsFile, NamedJob, Hashname, HasReadableWalltime, HasType, Split;
    NamedJobIs("1", 60);
    NamedJobFits("1");
    SplitNoSep("1", '.');
  }

  lemma {:induction false} BaseOfPath(dir: string, file: string)
    requires '/' !in file
    ensures Base(dir + "/" + file) == file
  {
    SplitAppend(dir, file, '/');
    SplitNoSep(file, '/');
  }

  lemma FileKey(dir: string, job: Job)
    requires '/' !in Hashname(job)
    ensures HasSuffix(FileName(dir, job), ".JB")
    ensures Split(Base(FileName(dir, job)), '.')[0] == JobId(job)
  {
    var file := Hashname(job) + ".JB";
    BaseOfPath(dir, file);
    assert file == Hashname(job) + ['.'] + "JB";
    SplitAppend(Hashname(job), "JB", '.');
    hide Hashname;
    assert |FileName(dir, job)| >= 3;
    assert FileName(dir, job)[|FileName(dir, job)| - 3..] == ".JB";
  }

  /** A file that starts with the job's encoding decodes to the job, whatever follows it. */
  lemma DecodesToJob(ram: HumanUnits, job: Job, trailing: string)
    requires Tracked(job)
    ensures DecodeJob(ram, Marshalled(JOB, job) + trailing) == (D.Accepted(trailing), job)
  {
    JobTypeIsGood();
    TrackedParts(job);
    assert Decoder(ram) == C.JobConfig(JOB, false, ram);
    hide *;
    RoundTrips(JOB, false, ram, job, Zero(JOB));
    DecodesMore(ram, job, trailing);
  }

  lemma TrackedParts(job: Job)
    requires Tracked(job)
    ensures GoodType(JOB) && HasType(job, JOB) && InDomain(JOB, job) && FitsFile(JOB, job)
  {
  }

  lemma DecodesMore(ram: HumanUnits, job: Job, trailing: string)
    requires GoodType(JOB) && HasType(job, JOB)
    requires D.DecodeFile(Decoder(ram), Zero(JOB), Marshalled(JOB, job)) == (D.Accepted(""), job)
    ensures DecodeJob(ram, Marshalled(JOB, job) + trailing) == (D.Accepted(trailing), job)
  {
    hide D.DecodeFile, Marshalled, GoodType, JOB, Zero;
    A.AcceptedFileExtends(Decoder(ram), Zero(JOB), Marshalled(JOB, job), trailing);
    assert "" + trailing == trailing;
  }

  /** Creating or writing the job's file sets the job under its id. */
  lemma CreationSets(ram: HumanUnits, dir: string, job: Job, trailing: string, op: nat, now: int)
    requires Tracked(job) && (op == CREATE || op == WRITE)
    ensures React(ram, FsEvent(FileName(dir, job), op, Some(Marshalled(JOB, job) + trailing), now))
         == Acts(Action.Set(JobId(job), Some(job)))
  {
    DecodesToJob(ram, job, trailing);
    FileKey(dir, job);
    hide DecodeJob, Marshalled, FileName, JobId, HasReadableWalltime, Base, HasSuffix;
  }

  /** The event by which the watcher sets the job named "1". */
  lemma NamedJobEvent(ram: HumanUnits) returns (e: FsEvent)
    ensures React(ram, e) == Acts(Action.Set("1", Some(NamedJob("1"))))
  {
    hide React, Tracked, JobId, NamedJob, Marshalled, FileName, GoodType, HasType;
    var job := NamedJob("1");
    NamedJobTracked();
    NamedJobFits("1");
    CreationSets(ram, "", job, "", CREATE, 0);
    e := FsEvent(FileName("", job), CREATE, Some(Marshalled(JOB, job) + ""), 0);
  }

  /** Removing it deletes the same id: the file name and the host name give the same key. */
  lemma RemovalDeletes(ram: HumanUnits, dir: string, job: Job, content: Option<string>, now: int)
    requires '/' !in Hashname(job)
    ensures React(ram, FsEvent(FileName(dir, job), REMOVE, content, now)) == Acts(Action.Delete(JobId(job)))
  {
    FileKey(dir, job);
    hide FileName, JobId, Base, HasSuffix;
  }

  /** An event by which the job's file comes to hold the job, in time for the cache to accept it. */
  ghost predicate Creates(e: FsEvent, timeout: int, dir: string, job: Job, trailing: string)
    requires Tracked(job)
  {
    && (e.op == CREATE || e.op == WRITE)
    && e.name == FileName(dir, job)
    && e.content == Some(Marshalled(JOB, job) + trailing)
    && e.now <= Expiration(job, timeout)
  }

  lemma CreationStep(ram: HumanUnits, timeout: int, dir: string, job: Job, trailing: string, e: FsEvent)
    requires Tracked(job) && Creates(e, timeout, dir, job, trailing)
    ensures Steps(ram, [e]) == [SetStep(job, e.now)]
    ensures NoPanic(SetStep(job, e.now).action) && Accepted(timeout, SetStep(job, e.now))
  {
    CreationSets(ram, dir, job, trailing, e.op, e.now);
    hide React, JobId, Expiration, FileName, Marshalled, HasReadableWalltime;
    OneStep(ram, e, SetStep(job, e.now).action);
  }

  function SetStep(job: Job, now: int): (t: Timed)
    ensures t == Timed(now, Action.Set(JobId(job), Some(job)))
  {
    Timed(now, Action.Set(JobId(job), Some(job)))
  }

  lemma RemovalStep(ram: HumanUnits, dir: string, job: Job, e: FsEvent)
    requires Tracked(job) && e.op == REMOVE && e.name == FileName(dir, job)
    ensures Steps(ram, [e]) == [Timed(e.now, Action.Delete(JobId(job)))]
  {
    RemovalDeletes(ram, dir, job, e.content, e.now);
    hide React, JobId, FileName;
    OneStep(ram, e, Action.Delete(JobId(job)));
  }

  lemma OneStep(ram: HumanUnits, e: FsEvent, action: Action)
    requires React(ram, e) == Acts(action)
    ensures Steps(ram, [e]) == [Timed(e.now, action)]
  {
    hide React;
    assert [e][..0] == [];
    assert Steps(ram, []) == [];
  }

  /**
   End to end, while the job runs: after its file was created or written and accepted,
   `Get` returns exactly that job until its start time plus wall time plus timeout,
   whatever happens in between to other ids.
   */
  lemma JobServedWhileRunning(
    ram: HumanUnits, timeout: int, m: CacheMap, dir: string, job: Job, trailing: string,
    created: FsEvent, between: History, now: int)
    requires Tracked(job) && Creates(created, timeout, dir, job, trailing)
    requires AllReadable(between) && LeavesAlone(between, JobId(job))
    ensures Lookup(Run(timeout, m, Steps(ram, [created]) + between), JobId(job), now)
         == if now <= Expiration(job, timeout) then Some(job) else None
  {
    hide *;
    CreationStep(ram, timeout, dir, job, trailing, created);
    ServedWhileRunning(timeout, m, SetStep(job, created.now), between, now);
  }

  /**
   End to end, after the job ends: once its file was removed at reading t, `Get` returns the job
   exactly while now <= t + timeout, whatever happens in between to other ids.
   */
  lemma JobServedInGrace(
    ram: HumanUnits, timeout: int, m: CacheMap, dir: string, job: Job, trailing: string,
    created: FsEvent, between: History, removed: FsEvent, later: History, now: int)
    requires Tracked(job) && Creates(created, timeout, dir, job, trailing)
    requires removed.op == REMOVE && removed.name == FileName(dir, job)
    requires AllReadable(between) && LeavesAlone(between, JobId(job))
    requires AllReadable(later) && LeavesAlone(later, JobId(job)) && ReadAtMost(later, now)
    ensures Lookup(Run(timeout, m, (Steps(ram, [created]) + between) + (Steps(ram, [removed]) + later)),
                   JobId(job), now)
         == if now <= Wrap64(removed.now + timeout) then Some(job) else None
  {
    hide *;
    CreationStep(ram, timeout, dir, job, trailing, created);
    RemovalStep(ram, dir, job, removed);
    ServedInGrace(timeout, m, SetStep(job, created.now), between, removed.now, later, now);
  }
}
