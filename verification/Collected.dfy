/** Which series a collection emits for a job, told by the job's attributes and the host's name. */
module Collected {
  import opened Wrappers
  import opened GoStrings
  import opened Strconv
  import opened Reflect
  import opened JobTypes
  import opened Utils
  import opened Jobs
  import opened Cache
  import opened ExecVnodes
  import opened Collector
  import Select

  /** What a job's series are made of; `first` is the part of exec_host2 before any '+', `others` what follows it. */
  datatype Facts = Facts(
    id: string, domain: string, runs: int, interactive: int, name: string, queue: string, state: string,
    user: string, project: string, first: string, others: string, vnodes: string, select: string,
    mem: int, ncpus: int, nfpgas: int, ngpus: int, place: string, walltime: string)

  /** These are the job's attributes, at their places in `Job`. */
  predicate Describes(f: Facts, job: Job) {
    DescribesTop(f, job) && DescribesPlace(f, job) && DescribesRequest(f, job)
  }

  predicate DescribesTop(f: Facts, job: Job) {
    && '.' !in f.id && (TextAt(job, [27], f.id) || TextAt(job, [27], f.id + "." + f.domain))
    && NumberAt(job, [30], f.runs) && NumberAt(job, [12], f.interactive)
    && TextAt(job, [0], f.name) && TextAt(job, [4], f.queue) && TextAt(job, [3], f.state)
    && TextAt(job, [25], f.user) && TextAt(job, [36], f.project)
  }

  predicate DescribesPlace(f: Facts, job: Job) {
    && '+' !in f.first && (TextAt(job, [10], f.first) || TextAt(job, [10], f.first + "+" + f.others))
    && TextAt(job, [11], f.vnodes) && TextAt(job, [18], f.select)
  }

  predicate DescribesRequest(f: Facts, job: Job) {
    && NumberAt(job, [17, 0], f.mem) && NumberAt(job, [17, 1], f.ncpus)
    && NumberAt(job, [17, 2], f.nfpgas) && NumberAt(job, [17, 3], f.ngpus)
    && TextAt(job, [17, 4], f.place) && TextAt(job, [17, 5], f.walltime)
  }

  /** The host is the job's first: its name starts the first part of exec_host2. */
  predicate Primary(env: Env, f: Facts) {
    |env.hostname| <= |f.first| && f.first[..|env.hostname|] == env.hostname
  }

  function Gpus(env: Env, f: Facts): int {
    if f.ngpus != 0 then f.ngpus
    else
      match Select.SelectTotal(env.ram, f.select, "ngpus")
      case Some(n) => n
      case None => 0
  }

  /** The series a job gives on a host. */
  ghost predicate Wanted(env: Env, f: Facts, s: Series) {
    var id, runs := f.id, FormatInt(f.runs);
    match s.metric
    case AllocatedMemory => OnHost(env, f, s.labels)
    case AllocatedNcpus => OnHost(env, f, s.labels)
    case AllocatedNfpgas => OnHost(env, f, s.labels)
    case AllocatedNgpus => OnHost(env, f, s.labels)
    case Info =>
      && Primary(env, f)
      && s.labels == [id, runs, if f.interactive > 0 then "true" else "false", f.name, env.hostname, f.project, f.queue,
                      f.state, env.uidOf(f.user), f.user, PrimaryVnode(f.vnodes)]
    case Requests =>
      && Primary(env, f)
      && s.labels == [id, runs, FormatInt(f.mem), FormatInt(f.ncpus), FormatInt(f.nfpgas), FormatInt(Gpus(env, f)),
                      f.place, f.walltime]
    case RunCount => Primary(env, f) && s.labels == [id]
    case EndTime => Primary(env, f) && f.state != "R" && s.labels == [id, runs]
    case Interactive => Primary(env, f) && s.labels == [id, runs]
    case RequestedMemory => Primary(env, f) && s.labels == [id, runs]
    case RequestedNcpus => Primary(env, f) && s.labels == [id, runs]
    case RequestedNfpgas => Primary(env, f) && s.labels == [id, runs]
    case RequestedNgpus => Primary(env, f) && s.labels == [id, runs]
    case RequestedNodes => Primary(env, f) && s.labels == [id, runs]
    case RequestedWalltimeSeconds => Primary(env, f) && s.labels == [id, runs]
    case StartTime => Primary(env, f) && s.labels == [id, runs]
  }

  /** A vnode of the host that the job has chunks on, as the third label. */
  ghost predicate OnHost(env: Env, f: Facts, labels: seq<string>) {
    && |labels| == 3 && labels[0] == f.id && labels[1] == FormatInt(f.runs)
    && ExecVnodeMap(env.ram, f.vnodes).Some?
    && Vnode(env.hostname, labels[2]) in ExecVnodeMap(env.ram, f.vnodes).value
  }

  // ---- the attributes read off the job ----

  lemma TopFacts(f: Facts, job: Job)
    requires DescribesTop(f, job)
    ensures JobLabels(job) == [f.id, FormatInt(f.runs)] && JobId(job) == f.id
    ensures IntField(job, INTERACTIVE) == f.interactive && StringField(job, JOB_NAME) == f.name
    ensures StringField(job, QUEUE) == f.queue && StringField(job, JOB_STATE) == f.state
    ensures StringField(job, EUSER) == f.user && StringField(job, PROJECT) == f.project
  {
    hide FieldByIndex, FormatInt, JobId;
    IdOf(job, f.id, f.domain);
  }

  lemma PlaceFacts(f: Facts, job: Job)
    requires DescribesPlace(f, job)
    ensures Split(StringField(job, EXEC_HOST), '+')[0] == f.first
    ensures StringField(job, EXEC_VNODE) == f.vnodes && StringField(job, SCHED_SELECT) == f.select
  {
    hide FieldByIndex;
    SplitNoSep(f.first, '+');
    SplitAppend(f.first, f.others, '+');
    assert f.first + ['+'] + f.others == f.first + "+" + f.others;
    hide Split;
    assert StringField(job, EXEC_HOST) == f.first || StringField(job, EXEC_HOST) == f.first + "+" + f.others;
  }

  lemma RequestFacts(f: Facts, job: Job)
    requires DescribesRequest(f, job)
    ensures IntField(job, MEM) == f.mem && IntField(job, NCPUS) == f.ncpus
    ensures IntField(job, NFPGAS) == f.nfpgas && IntField(job, NGPUS) == f.ngpus
    ensures StringField(job, PLACE) == f.place && StringField(job, WALLTIME) == f.walltime
  {
    hide FieldByIndex;
  }

  lemma PrimaryExactly(env: Env, f: Facts, job: Job)
    requires DescribesPlace(f, job)
    ensures IsPrimaryNode(env, job) <==> Primary(env, f)
  {
    PlaceFacts(f, job);
    hide DescribesPlace, Split, StringField;
  }

  lemma InfoParts(env: Env, job: Job)
    ensures InfoLabels(env, job)
         == JobLabels(job) + [
              if IntField(job, INTERACTIVE) > 0 then "true" else "false", StringField(job, JOB_NAME), env.hostname,
              StringField(job, PROJECT), StringField(job, QUEUE), StringField(job, JOB_STATE),
              env.uidOf(StringField(job, EUSER)), StringField(job, EUSER), PrimaryVnode(StringField(job, EXEC_VNODE))]
  {
    hide JobLabels, StringField, IntField, PrimaryVnode;
  }

  lemma Eleven(
    a: string, b: string, c: string, d: string, e: string, f: string, g: string, h: string, i: string, j: string,
    k: string)
    ensures [a, b] + [c, d, e, f, g, h, i, j, k] == [a, b, c, d, e, f, g, h, i, j, k]
  {
  }

  lemma InfoOfJob(env: Env, f: Facts, job: Job)
    requires DescribesTop(f, job) && DescribesPlace(f, job)
    ensures InfoLabels(env, job)
         == [f.id, FormatInt(f.runs), if f.interactive > 0 then "true" else "false", f.name, env.hostname, f.project,
             f.queue, f.state, env.uidOf(f.user), f.user, PrimaryVnode(f.vnodes)]
  {
    hide *;
    TopFacts(f, job);
    PlaceFacts(f, job);
    InfoParts(env, job);
    Eleven(f.id, FormatInt(f.runs), if f.interactive > 0 then "true" else "false", f.name, env.hostname, f.project,
           f.queue, f.state, env.uidOf(f.user), f.user, PrimaryVnode(f.vnodes));
  }

  lemma RequestParts(env: Env, job: Job)
    ensures RequestLabels(env, job)
         == JobLabels(job) + [
              FormatInt(IntField(job, MEM)), FormatInt(IntField(job, NCPUS)), FormatInt(IntField(job, NFPGAS)),
              FormatInt(Collector.Ngpus(env, job)), StringField(job, PLACE), StringField(job, WALLTIME)]
  {
    hide JobLabels, StringField, IntField, FormatInt, Collector.Ngpus;
  }

  lemma Eight(a: string, b: string, c: string, d: string, e: string, f: string, g: string, h: string)
    ensures [a, b] + [c, d, e, f, g, h] == [a, b, c, d, e, f, g, h]
  {
  }

  lemma GpusOfJob(env: Env, f: Facts, job: Job)
    requires IntField(job, NGPUS) == f.ngpus && StringField(job, SCHED_SELECT) == f.select
    ensures Collector.Ngpus(env, job) == Gpus(env, f)
  {
    hide IntField, StringField, Select.SelectTotal;
  }

  lemma RequestOfJob(env: Env, f: Facts, job: Job)
    requires DescribesTop(f, job) && DescribesPlace(f, job) && DescribesRequest(f, job)
    ensures RequestLabels(env, job)
         == [f.id, FormatInt(f.runs), FormatInt(f.mem), FormatInt(f.ncpus), FormatInt(f.nfpgas),
             FormatInt(Gpus(env, f)), f.place, f.walltime]
  {
    hide *;
    TopFacts(f, job);
    PlaceFacts(f, job);
    RequestFacts(f, job);
    GpusOfJob(env, f, job);
    RequestParts(env, job);
    Eight(f.id, FormatInt(f.runs), FormatInt(f.mem), FormatInt(f.ncpus), FormatInt(f.nfpgas),
          FormatInt(Gpus(env, f)), f.place, f.walltime);
  }

  // ---- the series ----

  lemma AllocatedExactly(env: Env, f: Facts, vnodes: VnodeMap, s: Series)
    ensures s in AllocatedSeries([f.id, FormatInt(f.runs)], env.hostname, vnodes.Keys)
       <==> && s.metric in ALLOCATED && |s.labels| == 3 && s.labels[0] == f.id && s.labels[1] == FormatInt(f.runs)
            && Vnode(env.hostname, s.labels[2]) in vnodes
  {
    hide FormatInt;
    var labels := [f.id, FormatInt(f.runs)];
    if |s.labels| == 3 && s.labels[0] == f.id && s.labels[1] == FormatInt(f.runs) {
      var v := Vnode(env.hostname, s.labels[2]);
      assert s.labels == labels + [v.vnode];
      assert s == Series(s.metric, labels + [v.vnode]);
    }
  }

  lemma AmongEleven<T>(all: seq<T>, s: T)
    requires |all| == 11
    ensures s in all <==> || s == all[0] || s == all[1] || s == all[2] || s == all[3] || s == all[4] || s == all[5]
                          || s == all[6] || s == all[7] || s == all[8] || s == all[9] || s == all[10]
  {
    if s in all {
      var i :| 0 <= i < |all| && all[i] == s;
      assert i <= 10;
    }
  }

  /** Labels of a metric that only a first host emits. */
  predicate CommonLabels(
    s: Series, labels: seq<string>, info: seq<string>, request: seq<string>, id: string, running: bool)
  {
    match s.metric
    case Info => s.labels == info
    case Requests => s.labels == request
    case RunCount => s.labels == [id]
    case EndTime => !running && s.labels == labels
    case AllocatedMemory => false
    case AllocatedNcpus => false
    case AllocatedNfpgas => false
    case AllocatedNgpus => false
    case _ => s.labels == labels
  }

  lemma CommonExactly(
    labels: seq<string>, info: seq<string>, request: seq<string>, id: string, running: bool, s: Series)
    ensures s in SeriesOf(labels, info, request, [id]) + (if running then [] else [Series(EndTime, labels)])
       <==> CommonLabels(s, labels, info, request, id, running)
  {
    var all := SeriesOf(labels, info, request, [id]);
    AmongEleven(all, s);
    assert all[0] == Series(Info, info) && all[8] == Series(Requests, request) && all[9] == Series(RunCount, [id]);
    assert all[1] == Series(Interactive, labels) && all[2] == Series(RequestedMemory, labels);
    assert all[3] == Series(RequestedNcpus, labels) && all[4] == Series(RequestedNfpgas, labels);
    assert all[5] == Series(RequestedNgpus, labels) && all[6] == Series(RequestedNodes, labels);
    assert all[7] == Series(RequestedWalltimeSeconds, labels) && all[10] == Series(StartTime, labels);
    hide SeriesOf, CommonLabels;
    assert s in all + (if running then [] else [Series(EndTime, labels)])
      <==> s in all || (!running && s == Series(EndTime, labels));
    OneOfTwelve(labels, info, request, id, running, s);
  }

  lemma OneOfTwelve(
    labels: seq<string>, info: seq<string>, request: seq<string>, id: string, running: bool, s: Series)
    ensures CommonLabels(s, labels, info, request, id, running)
       <==> || s == Series(Info, info) || s == Series(Interactive, labels) || s == Series(RequestedMemory, labels)
            || s == Series(RequestedNcpus, labels) || s == Series(RequestedNfpgas, labels)
            || s == Series(RequestedNgpus, labels) || s == Series(RequestedNodes, labels)
            || s == Series(RequestedWalltimeSeconds, labels) || s == Series(Requests, request)
            || s == Series(RunCount, [id]) || s == Series(StartTime, labels)
            || (!running && s == Series(EndTime, labels))
  {
  }

  lemma CommonOfJob(env: Env, f: Facts, job: Job, s: Series)
    requires Describes(f, job)
    ensures s in CommonSeries(env, job)
       <==> CommonLabels(s, [f.id, FormatInt(f.runs)], InfoLabels(env, job), RequestLabels(env, job), f.id,
                         f.state == "R")
  {
    TopFacts(f, job);
    CommonExactly([f.id, FormatInt(f.runs)], InfoLabels(env, job), RequestLabels(env, job), f.id, f.state == "R", s);
    hide Describes, FormatInt, JobLabels, StringField, InfoLabels, RequestLabels, SeriesOf, JobId, CommonLabels;
  }

  lemma SeriesByMetric(env: Env, f: Facts, job: Job, s: Series)
    requires Describes(f, job)
    ensures s in JobSeries(env, job)
       <==> if s.metric in ALLOCATED then OnHost(env, f, s.labels)
            else Primary(env, f) && CommonLabels(s, [f.id, FormatInt(f.runs)], InfoLabels(env, job),
                                                 RequestLabels(env, job), f.id, f.state == "R")
  {
    TopFacts(f, job);
    PlaceFacts(f, job);
    PrimaryExactly(env, f, job);
    CommonOfJob(env, f, job, s);
    CommonEmits(env, job);
    hide Describes, FormatInt, JobLabels, StringField, InfoLabels, RequestLabels, Primary, CommonSeries, CommonLabels;
    hide IsPrimaryNode, JobId, ExecVnodeMap, AllocatedSeries, Split, Emits, ALLOCATED;
    var vnodes := ExecVnodeMap(env.ram, f.vnodes);
    if vnodes.Some? {
      AllocatedExactly(env, f, vnodes.value, s);
    }
  }

  /**
   The series of a job on a host, metric by metric: the allocated ones for each of its vnodes
   there, and on its first host alone the others, the end time only if it is not running.
   */
  lemma JobSeriesExactly(env: Env, f: Facts, job: Job, s: Series)
    requires Describes(f, job)
    ensures s in JobSeries(env, job) <==> Wanted(env, f, s)
  {
    assert DescribesTop(f, job) && DescribesPlace(f, job) && DescribesRequest(f, job);
    hide *;
    SeriesByMetric(env, f, job, s);
    InfoOfJob(env, f, job);
    RequestOfJob(env, f, job);
    WantedByMetric(env, f, s);
  }

  lemma WantedByMetric(env: Env, f: Facts, s: Series)
    ensures var id, runs := f.id, FormatInt(f.runs);
            var info := [id, runs, if f.interactive > 0 then "true" else "false", f.name, env.hostname, f.project,
                         f.queue, f.state, env.uidOf(f.user), f.user, PrimaryVnode(f.vnodes)];
            var request := [id, runs, FormatInt(f.mem), FormatInt(f.ncpus), FormatInt(f.nfpgas),
                            FormatInt(Gpus(env, f)), f.place, f.walltime];
            Wanted(env, f, s)
            <==> if s.metric in ALLOCATED then OnHost(env, f, s.labels)
                 else Primary(env, f) && CommonLabels(s, [id, runs], info, request, id, f.state == "R")
  {
    hide FormatInt, PrimaryVnode, Gpus, Primary, OnHost;
  }

  /** So for what `CollectJob` emits. */
  lemma JobCollected(env: Env, f: Facts, job: Job, ch: seq<Series>)
    requires Describes(f, job) && Emits(ch, JobSeries(env, job))
    ensures NoDuplicates(ch) && forall s :: s in ch <==> Wanted(env, f, s)
  {
    hide JobSeries, Describes, Wanted;
    forall s ensures s in ch <==> Wanted(env, f, s) {
      JobSeriesExactly(env, f, job, s);
    }
  }

  /** And for a whole collection: what the entries that have not expired give. */
  lemma AllCollected(env: Env, now: int, m: CacheMap, facts: map<string, Facts>, s: Series)
    requires forall id :: id in m ==> id in facts && Describes(facts[id], m[id].job)
    ensures s in ActiveSeries(env, Active(m, now))
       <==> exists id :: id in m && m[id].expiration >= now && Wanted(env, facts[id], s)
  {
    hide JobSeries, Describes, Wanted;
    forall id | id in m ensures s in JobSeries(env, m[id].job) <==> Wanted(env, facts[id], s) {
      JobSeriesExactly(env, facts[id], m[id].job, s);
    }
    var active := Active(m, now);
    if s in ActiveSeries(env, active) {
      var id :| id in active && s in JobSeries(env, active[id]);
      assert id in m && m[id].expiration >= now && Wanted(env, facts[id], s);
    }
    if id :| id in m && m[id].expiration >= now && Wanted(env, facts[id], s) {
      assert id in active && s in JobSeries(env, active[id]);
    }
  }

  // ---- every job has such facts ----

  lemma TextField(job: Job, i: nat)
    requires HasType(job, JOB) && i < |JOB.fields| && JOB.fields[i].typ == STRING
    ensures TextAt(job, [i], StringField(job, [i]))
  {
    FieldTypeAt(JOB, i);
    TypedField(job, JOB, [i]);
    hide TypeAt, FieldByIndex, JOB;
  }

  lemma NumberField(job: Job, i: nat)
    requires HasType(job, JOB) && i < |JOB.fields| && JOB.fields[i].typ == INT
    ensures NumberAt(job, [i], IntField(job, [i]))
  {
    FieldTypeAt(JOB, i);
    TypedField(job, JOB, [i]);
    hide TypeAt, FieldByIndex, JOB;
  }

  lemma RequestField(job: Job, j: nat)
    requires HasType(job, JOB) && j < |RESOURCE_LIST.fields|
    ensures RESOURCE_LIST.fields[j].typ == STRING ==> TextAt(job, [17, j], StringField(job, [17, j]))
    ensures RESOURCE_LIST.fields[j].typ == INT ==> NumberAt(job, [17, j], IntField(job, [17, j]))
  {
    ListField();
    FieldTypeAt(RESOURCE_LIST, j);
    assert [17, j][1..] == [j];
    assert TypeAt(JOB, [17, j]) == Some(RESOURCE_LIST.fields[j].typ);
    if RESOURCE_LIST.fields[j].typ.Leaf? {
      TypedField(job, JOB, [17, j]);
    }
    hide TypeAt, FieldByIndex, JOB;
  }

  lemma KindsOfFields()
    ensures |JOB.fields| == 40
    ensures forall i :: i in {0, 3, 4, 10, 11, 18, 25, 27, 36} ==> JOB.fields[i].typ == STRING
    ensures JOB.fields[12].typ == INT && JOB.fields[30].typ == INT
  {
  }

  lemma KindsOfRequests()
    ensures |RESOURCE_LIST.fields| == 6
    ensures forall j :: 0 <= j < 4 ==> RESOURCE_LIST.fields[j].typ == INT
    ensures forall j :: 4 <= j < 6 ==> RESOURCE_LIST.fields[j].typ == STRING
  {
  }

  /** A text is what stands before its first separator, and the separator and what follows if there is one. */
  lemma BeforeFirst(s: string, sep: char) returns (first: string, others: string)
    ensures sep !in first && (s == first || s == first + [sep] + others)
  {
    CutParts(s, sep);
    var (before, after, found) := Cut(s, sep);
    first, others := before, after;
  }

  lemma JobDescribed(job: Job) returns (f: Facts)
    requires HasType(job, JOB)
    ensures Describes(f, job)
  {
    KindsOfFields();
    KindsOfRequests();
    hide JOB, RESOURCE_LIST, FieldByIndex;
    forall i | i in {0, 3, 4, 10, 11, 18, 25, 27, 36} ensures TextAt(job, [i], StringField(job, [i])) {
      TextField(job, i);
    }
    NumberField(job, 12);
    NumberField(job, 30);
    forall j: nat | j < 6
      ensures j < 4 ==> NumberAt(job, [17, j], IntField(job, [17, j]))
      ensures 4 <= j ==> TextAt(job, [17, j], StringField(job, [17, j]))
    {
      RequestField(job, j);
    }
    hide TextAt, NumberAt, StringField, IntField;
    var id, domain := BeforeFirst(StringField(job, [27]), '.');
    var first, others := BeforeFirst(StringField(job, [10]), '+');
    f := Facts(
      id, domain, IntField(job, [30]), IntField(job, [12]), StringField(job, [0]), StringField(job, [4]),
      StringField(job, [3]), StringField(job, [25]), StringField(job, [36]), first, others, StringField(job, [11]),
      StringField(job, [18]), IntField(job, [17, 0]), IntField(job, [17, 1]), IntField(job, [17, 2]),
      IntField(job, [17, 3]), StringField(job, [17, 4]), StringField(job, [17, 5]));
    assert id + ['.'] + domain == id + "." + domain && first + ['+'] + others == first + "+" + others;
  }
}
