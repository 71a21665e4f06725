/** Fields and derived values of a job, from `internal/pbsjob/pbsjob.go`. */
module Jobs {
  import opened Wrappers
  import opened GoStrings
  import opened Strconv
  import opened Reflect
  import opened Utils
  import opened JobTypes
  import opened JobFile
  import opened Encode
  import opened Layout
  import opened Values
  import opened Decode
  import opened Codec
  import opened RoundTrip
  import opened Sizes

  /** A job as the codec sees it; values of type `JOB` are the program's `Job` structs. */
  type Job = Node

  const HASHNAME: seq<nat> := [27]
  const STIME: seq<nat> := [19]
  const WALLTIME: seq<nat> := [17, 5]
  const EXEC_VNODE: seq<nat> := [11]
  const EXEC_HOST: seq<nat> := [10]
  const SCHED_SELECT: seq<nat> := [18]
  const RUN_COUNT: seq<nat> := [30]
  const JOB_STATE: seq<nat> := [3]
  const JOB_NAME: seq<nat> := [0]
  const QUEUE: seq<nat> := [4]
  const EUSER: seq<nat> := [25]
  const PROJECT: seq<nat> := [36]
  const INTERACTIVE: seq<nat> := [12]
  const MEM: seq<nat> := [17, 0]
  const NCPUS: seq<nat> := [17, 1]
  const NFPGAS: seq<nat> := [17, 2]
  const NGPUS: seq<nat> := [17, 3]
  const PLACE: seq<nat> := [17, 4]

  function StringField(job: Job, path: seq<nat>): string {
    match FieldByIndex(job, path)
    case Some(LeafNode(_, StringValue(s))) => s
    case _ => ""
  }

  function IntField(job: Job, path: seq<nat>): int {
    match FieldByIndex(job, path)
    case Some(LeafNode(_, IntValue(i))) => i
    case _ => 0
  }

  /** The job holds this text, or this number, at the path. */
  predicate TextAt(job: Job, path: seq<nat>, s: string) {
    FieldByIndex(job, path) == Some(LeafNode(StringKind, StringValue(s)))
  }

  predicate NumberAt(job: Job, path: seq<nat>, n: int) {
    FieldByIndex(job, path) == Some(LeafNode(IntKind(W64), IntValue(n)))
  }

  /** The path is where the codec puts the attribute of this name and resource. */
  ghost predicate IsAttribute(path: seq<nat>, name: string, resource: string)
    requires GoodType(JOB)
  {
    var table := Stored(map[], Leaves(JOB));
    JobMapKey(name, resource) in table && table[JobMapKey(name, resource)].index == path
  }

  lemma TopAttribute(i: nat, name: string)
    requires GoodType(JOB) && i < |JOB.fields| && JOB.fields[i].typ.Leaf? && FieldName(JOB.fields[i]) == name
    ensures IsAttribute([i], name, "")
  {
    hide GoodType;
    assert [i][1..] == [];
    assert NamesAlong(JOB, [i]) == [name];
    LeafIsKeyed(JOB, [i]);
  }

  lemma NestedAttribute(t: Type, i: nat, j: nat)
    requires GoodType(t) && t.Struct? && i < |t.fields|
    requires t.fields[i].typ.Struct? && j < |t.fields[i].typ.fields| && t.fields[i].typ.fields[j].typ.Leaf?
    ensures var key := JobMapKey(FieldName(t.fields[i]), FieldName(t.fields[i].typ.fields[j]));
            key in Stored(map[], Leaves(t)) && Stored(map[], Leaves(t))[key].index == [i, j]
  {
    hide GoodType, FieldName;
    var sub := t.fields[i].typ;
    assert [i, j][1..] == [j] && [j][1..] == [];
    assert TypeAt(sub, [j]) == Some(sub.fields[j].typ);
    assert TypeAt(t, [i, j]) == TypeAt(sub, [j]);
    assert NamesAlong(sub, [j]) == [FieldName(sub.fields[j])];
    assert NamesAlong(t, [i, j]) == [FieldName(t.fields[i]), FieldName(sub.fields[j])];
    LeafIsKeyed(t, [i, j]);
  }

  lemma ListField()
    ensures |JOB.fields| == 40 && JOB.fields[17].typ == RESOURCE_LIST && FieldName(JOB.fields[17]) == "Resource_List"
  {
  }

  lemma ListAttribute(j: nat, resource: string)
    requires GoodType(JOB) && j < |RESOURCE_LIST.fields|
    requires RESOURCE_LIST.fields[j].typ.Leaf? && FieldName(RESOURCE_LIST.fields[j]) == resource
    ensures IsAttribute([17, j], "Resource_List", resource)
  {
    ListField();
    hide GoodType, FieldName, Stored, Leaves;
    NestedAttribute(JOB, 17, j);
  }

  /** What decides an entry's key and expiration comes from these attributes. */
  lemma CacheAttributes()
    ensures GoodType(JOB)
    ensures IsAttribute(HASHNAME, "hashname", "") && IsAttribute(STIME, "stime", "")
    ensures IsAttribute(WALLTIME, "Resource_List", "walltime")
  {
    JobTypeIsGood();
    hide GoodType, IsAttribute;
    TopAttribute(27, "hashname");
    TopAttribute(19, "stime");
    ListAttribute(5, "walltime");
  }

  lemma PlacementAttributes()
    ensures GoodType(JOB)
    ensures IsAttribute(EXEC_HOST, "exec_host2", "") && IsAttribute(EXEC_VNODE, "exec_vnode", "")
    ensures IsAttribute(SCHED_SELECT, "schedselect", "") && IsAttribute(PLACE, "Resource_List", "place")
  {
    JobTypeIsGood();
    hide GoodType, IsAttribute;
    TopAttribute(10, "exec_host2");
    TopAttribute(11, "exec_vnode");
    TopAttribute(18, "schedselect");
    ListAttribute(4, "place");
  }

  lemma DescriptionAttributes()
    ensures GoodType(JOB)
    ensures IsAttribute(JOB_NAME, "Job_Name", "") && IsAttribute(QUEUE, "queue", "")
    ensures IsAttribute(EUSER, "euser", "") && IsAttribute(PROJECT, "project", "")
  {
    JobTypeIsGood();
    hide GoodType, IsAttribute;
    TopAttribute(0, "Job_Name");
    TopAttribute(4, "queue");
    TopAttribute(25, "euser");
    TopAttribute(36, "project");
  }

  lemma RunAttributes()
    ensures GoodType(JOB)
    ensures IsAttribute(INTERACTIVE, "interactive", "")
    ensures IsAttribute(JOB_STATE, "job_state", "") && IsAttribute(RUN_COUNT, "run_count", "")
  {
    JobTypeIsGood();
    hide GoodType, IsAttribute;
    TopAttribute(12, "interactive");
    TopAttribute(3, "job_state");
    TopAttribute(30, "run_count");
  }

  lemma RequestAttributes()
    ensures GoodType(JOB)
    ensures IsAttribute(MEM, "Resource_List", "mem") && IsAttribute(NCPUS, "Resource_List", "ncpus")
    ensures IsAttribute(NFPGAS, "Resource_List", "nfpgas") && IsAttribute(NGPUS, "Resource_List", "ngpus")
  {
    JobTypeIsGood();
    hide GoodType, IsAttribute;
    ListAttribute(0, "mem");
    ListAttribute(1, "ncpus");
    ListAttribute(2, "nfpgas");
    ListAttribute(3, "ngpus");
  }

  function Hashname(job: Job): string { StringField(job, HASHNAME) }

  /** `JobId`: the host name of the job up to its first dot. */
  function JobId(job: Job): string { Split(Hashname(job), '.')[0] }

  /** `RequestedWalltime` panics on a non-empty wall time of fewer than three parts. */
  predicate HasReadableWalltime(job: Job) { WalltimeReadable(StringField(job, WALLTIME)) }

  function RequestedWalltime(job: Job): Int64
    requires HasReadableWalltime(job)
  {
    ParseWalltime(StringField(job, WALLTIME))
  }

  /** When a job set in the cache expires, in 64-bit arithmetic. */
  function Expiration(job: Job, timeout: int): Int64
    requires HasReadableWalltime(job)
  {
    Wrap64(IntField(job, STIME) + RequestedWalltime(job) + timeout)
  }

  lemma EmptyPaths()
    ensures TypeAt(JOB, WALLTIME) == Some(STRING) && TypeAt(JOB, STIME) == Some(INT)
  {
    ListField();
    assert WALLTIME[1..] == [5] && [5][1..] == [] && STIME[1..] == [];
    assert TypeAt(RESOURCE_LIST, [5]) == Some(STRING);
    assert JOB.fields[19].typ == INT;
  }

  // ---- jobs with one field set ----

  /** Where a top field of `Job` is listed. */
  lemma TopLeaf(i: nat, kind: Kind) returns (k: nat)
    requires GoodType(JOB) && i < |JOB.fields| && JOB.fields[i].typ == Leaf(kind)
    ensures k < |Leaves(JOB)| && Leaves(JOB)[k].index == [i] && Leaves(JOB)[k].kind == kind
  {
    FieldTypeAt(JOB, i);
    hide GoodType;
    k := LeafListed(JOB, 0, [], [], [i]);
  }

  lemma FieldTypeAt(t: Type, i: nat)
    requires t.Struct? && i < |t.fields|
    ensures TypeAt(t, [i]) == Some(t.fields[i].typ)
  {
    assert [i][1..] == [];
  }

  /** The empty job but for one top field. */
  function JobWith(i: nat, kind: Kind, v: Value): (job: Job)
    requires i < |JOB.fields| && JOB.fields[i].typ == Leaf(kind) && WellTyped(kind, v)
    ensures HasType(job, JOB) && FieldByIndex(job, [i]) == Some(LeafNode(kind, v))
  {
    FieldTypeAt(JOB, i);
    TypedField(Zero(JOB), JOB, [i]);
    SetKeepsType(Zero(JOB), JOB, [i], LeafNode(kind, v));
    SetByIndex(Zero(JOB), [i], LeafNode(kind, v))
  }

  /**
   Such a job lies in the round-trip domain exactly when the format carries the value, and fits
   its file when that is short.
   */
  lemma JobWithFits(i: nat, kind: Kind, v: Value)
    returns (separator: char)
    requires GoodType(JOB) && i < |JOB.fields| && JOB.fields[i].typ == Leaf(kind) && WellTyped(kind, v)
    ensures InDomain(JOB, JobWith(i, kind, v)) <==> Carried(v, separator)
    ensures |Text(v, separator)| <= 1000 ==> FitsFile(JOB, JobWith(i, kind, v))
  {
    var k := TopLeaf(i, kind);
    JobTypeIsGood();
    hide GoodType, Leaves, InDomain, FitsFile, Carried, Text, Zero, CleanNames, SimpleType, ShortNames;
    separator := Leaves(JOB)[k].separator;
    assert JobWith(i, kind, v) == WithLeaf(JOB, Zero(JOB), k, v);
    ZeroInDomain(JOB);
    WithLeafDomain(JOB, Zero(JOB), k, v);
    if |Text(v, separator)| <= 1000 {
      ZeroIsSmall(JOB, 1000);
      WithLeafSmall(JOB, Zero(JOB), k, v, 1000);
      SmallFits(JOB, JobWith(i, kind, v), 1000);
    }
  }

  lemma HashnameField()
    ensures |JOB.fields| == 40 && JOB.fields[27].typ == STRING && JOB.fields[24].typ == STRINGS
  {
  }

  /** The empty job but for its host name. */
  function NamedJob(name: string): Job {
    HashnameField();
    JobWith(27, StringKind, StringValue(name))
  }

  lemma NamedJobIs(name: string, timeout: int)
    ensures HasType(NamedJob(name), JOB) && Hashname(NamedJob(name)) == name
    ensures HasReadableWalltime(NamedJob(name)) && Expiration(NamedJob(name), timeout) == Wrap64(timeout)
  {
    HashnameField();
    EmptyPaths();
    var job, v := NamedJob(name), LeafNode(StringKind, StringValue(name));
    FieldTypeAt(JOB, 27);
    TypedField(Zero(JOB), JOB, [27]);
    hide TypeAt, Zero, FieldByIndex, SetByIndex;
    assert DivergeAt([27], WALLTIME, 0) && DivergeAt([27], STIME, 0);
    SetKeepsOthers(Zero(JOB), [27], v, WALLTIME, 0);
    SetKeepsOthers(Zero(JOB), [27], v, STIME, 0);
    ZeroAt(JOB, WALLTIME, StringKind);
    ZeroAt(JOB, STIME, IntKind(W64));
  }

  lemma NamedJobFits(name: string)
    requires IsTrimmed(name, {NUL}) && |name| <= 1000
    ensures GoodType(JOB) && HasType(NamedJob(name), JOB)
    ensures InDomain(JOB, NamedJob(name)) && FitsFile(JOB, NamedJob(name))
  {
    hide GoodType, InDomain, FitsFile, JobWith, CleanNames, SimpleType, ShortNames;
    JobTypeIsGood();
    HashnameField();
    var separator := JobWithFits(27, StringKind, StringValue(name));
  }

  /** A list holding one empty text does not come back. */
  lemma SingleEmptyTextIsLost(strict: bool, ram: HumanUnits, job0: Job)
    requires HasType(job0, JOB)
    ensures GoodType(JOB) && |JOB.fields| == 40 && JOB.fields[24].typ == STRINGS
    ensures var job := JobWith(24, SliceKind(StringKind), SliceValue([StringValue("")]));
            DecodeFile(JobConfig(JOB, strict, ram), job0, Marshalled(JOB, job)) != (Accepted(""), job)
  {
    HashnameField();
    JobTypeIsGood();
    var v := SliceValue([StringValue("")]);
    hide GoodType, InDomain, FitsFile, DecodeFile, JobConfig, Marshalled, CleanNames, SimpleType, ShortNames, JobWith;
    var separator := JobWithFits(24, SliceKind(StringKind), v);
    assert Texts(v.elems, separator) == [""] && Text(v.elems[0], separator) == "";
    JobRoundTrips(strict, ram, JobWith(24, SliceKind(StringKind), v), job0);
  }

  /** The id of a job is its host name up to the first dot, or all of it. */
  lemma IdOf(job: Job, id: string, more: string)
    requires '.' !in id && (TextAt(job, [27], id) || TextAt(job, [27], id + "." + more))
    ensures JobId(job) == id
  {
    hide FieldByIndex;
    SplitNoSep(id, '.');
    SplitAppend(id, more, '.');
    assert id + ['.'] + more == id + "." + more;
    hide Split;
    assert Hashname(job) == id || Hashname(job) == id + "." + more;
  }

  lemma {:induction false} FirstPartEmpty(s: string, sep: char)
    ensures Split(s, sep)[0] == "" <==> s == "" || s[0] == sep
  {
  }

  lemma TypedPaths()
    ensures TypeAt(JOB, [17, 5]) == Some(STRING) && TypeAt(JOB, [27]) == Some(STRING)
  {
    EmptyPaths();
    HashnameField();
    FieldTypeAt(JOB, 27);
  }

  /** Every job has a text for its wall time and for its host name. */
  lemma TextsOfJob(job: Job)
    requires HasType(job, JOB)
    ensures TextAt(job, [17, 5], StringField(job, WALLTIME)) && TextAt(job, [27], Hashname(job))
  {
    TypedPaths();
    TypedField(job, JOB, [17, 5]);
    TypedField(job, JOB, [27]);
    hide TypeAt, FieldByIndex, JOB;
  }
}
