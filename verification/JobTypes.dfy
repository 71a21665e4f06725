/** The struct types of `internal/pbsjob/pbsjob.go` with their tags, and that the key table suits them. */
module JobTypes {
  import opened Wrappers
  import opened Reflect
  import opened GoStrings
  import opened JobFile
  import opened Layout
  import opened Values
  import opened RoundTrip
  import E = Encode
  import opened Utils
  import opened Decode
  import opened Codec

  const STRING := Leaf(StringKind)
  const INT := Leaf(IntKind(W64))
  const STRINGS := Leaf(SliceKind(StringKind))

  const RESOURCES_USED := Struct([
    Field("Cpupercent", Some("cpupercent"), None, INT),
    Field("Cpus", Some("cpus"), Some(','), STRINGS),
    Field("Cput", Some("cput"), None, STRING),
    Field("Mem", Some("mem"), None, INT),
    Field("Ncpus", Some("ncpus"), None, INT),
    Field("Ngpus", Some("ngpus"), None, INT),
    Field("Vmem", Some("vmem"), None, INT),
    Field("Walltime", Some("walltime"), None, STRING)
  ])

  const RESOURCE_LIST := Struct([
    Field("Mem", Some("mem"), None, INT),
    Field("Ncpus", Some("ncpus"), None, INT),
    Field("Nfpgas", Some("nfpgas"), None, INT),
    Field("Ngpus", Some("ngpus"), None, INT),
    Field("Place", Some("place"), None, STRING),
    Field("Walltime", Some("walltime"), None, STRING)
  ])

  // The fields of `Job`, ten at a time.

  const JOB_FIELDS_0: seq<Field> := [
    Field("JobName", Some("Job_Name"), None, STRING),
    Field("JobOwner", Some("Job_Owner"), None, STRING),
    Field("ResourcesUsed", Some("resources_used"), None, RESOURCES_USED),
    Field("JobState", Some("job_state"), None, STRING),
    Field("Queue", Some("queue"), None, STRING),
    Field("Server", Some("server"), None, STRING),
    Field("Devices", Some("devices"), None, STRING),
    Field("AccountName", Some("Account_Name"), None, STRING),
    Field("Checkpoint", Some("Checkpoint"), None, STRING),
    Field("ErrorPath", Some("Error_Path"), None, STRING)
  ]

  const JOB_FIELDS_10: seq<Field> := [
    Field("ExecHost", Some("exec_host2"), Some('+'), STRING),
    Field("ExecVnode", Some("exec_vnode"), Some('+'), STRING),
    Field("Interactive", Some("interactive"), None, INT),
    Field("JoinPath", Some("Join_Path"), None, STRING),
    Field("KeepFiles", Some("Keep_Files"), None, STRING),
    Field("Mtime", Some("mtime"), None, INT),
    Field("OutputPath", Some("Output_Path"), None, STRING),
    Field("ResourceList", Some("Resource_List"), None, RESOURCE_LIST),
    Field("SchedSelect", Some("schedselect"), Some(':'), STRING),
    Field("Stime", Some("stime"), None, INT)
  ]

  const JOB_FIELDS_20: seq<Field> := [
    Field("SessionID", Some("session_id"), None, STRING),
    Field("ShellPathList", Some("Shell_Path_List"), None, STRING),
    Field("JobDir", Some("jobdir"), None, STRING),
    Field("Substate", Some("substate"), None, STRING),
    Field("VariableList", Some("Variable_List"), Some(','), STRINGS),
    Field("Euser", Some("euser"), None, STRING),
    Field("Egroup", Some("egroup"), None, STRING),
    Field("Hashname", Some("hashname"), None, STRING),
    Field("Cookie", Some("cookie"), None, STRING),
    Field("Umask", Some("umask"), None, STRING)
  ]

  const JOB_FIELDS_30: seq<Field> := [
    Field("RunCount", Some("run_count"), None, INT),
    Field("JobKillDelay", Some("job_kill_delay"), None, STRING),
    Field("ArrayId", Some("array_id"), None, STRING),
    Field("ArrayIndex", Some("array_index"), None, STRING),
    Field("Executable", Some("executable"), None, STRING),
    Field("ArgumentList", Some("argument_list"), None, STRING),
    Field("Project", Some("project"), None, STRING),
    Field("RunVersion", Some("run_version"), None, STRING),
    Field("SubmitHost", Some("Submit_Host"), None, STRING),
    Field("Binding", Some("binding"), Some(':'), STRING)
  ]

  const JOB := Struct(JOB_FIELDS_0 + JOB_FIELDS_10 + JOB_FIELDS_20 + JOB_FIELDS_30)

  // ---- the field names of `Job` are distinct: each has a place of its own ----

  /** The place of a field name of `Job`: names of one length differ in one character. */
  function Place(s: string): int {
    match |s|
    case 5 => (match s[0] case 'q' => 4 case 'm' => 15 case 's' => 19 case 'e' => 25 case 'u' => 29 case _ => -1)
    case 6 => (match s[0] case 's' => 5 case 'j' => 22 case 'e' => 26 case 'c' => 28 case _ => -1)
    case 7 => (match s[0] case 'd' => 6 case 'p' => 36 case 'b' => 39 case _ => -1)
    case 8 => (match s[0] case 'J' => 0 case 's' => 23 case 'h' => 27 case 'a' => 32 case _ => -1)
    case 9 => (match s[4] case 'O' => 1 case 's' => 3 case '_' => 13 case 'c' => 30 case _ => -1)
    case 10 => (match s[5] case 'p' => 8 case '_' => 9 case 'h' => 10 case 'v' => 11 case 'F' => 14 case 'o' => 20
                case 't' => 34 case _ => -1)
    case 11 => (match s[0] case 'i' => 12 case 'O' => 16 case 's' => 18 case 'a' => 33 case 'r' => 37 case 'S' => 38
                case _ => -1)
    case 12 => 7
    case 13 => (match s[0] case 'R' => 17 case 'V' => 24 case 'a' => 35 case _ => -1)
    case 14 => (match s[0] case 'r' => 2 case 'j' => 31 case _ => -1)
    case 15 => 21
    case _ => -1
  }

  predicate KnownType(t: Type) {
    t == STRING || t == INT || t == STRINGS || t == RESOURCES_USED || t == RESOURCE_LIST
  }

  /** The field has a name in place `i`, short and clean, and a type whose leaves the codec carries exactly. */
  predicate GoodField(f: Field, i: nat) {
    && Place(FieldName(f)) == i
    && ShortName(FieldName(f))
    && KnownType(f.typ)
  }

  predicate ShortName(s: string) {
    IsTrimmed(s, {NUL}) && |s| <= 20
  }

  lemma GoodFields0()
    ensures |JOB_FIELDS_0| == 10
    ensures forall i :: 0 <= i < 5 ==> GoodField(JOB_FIELDS_0[i], 0 + i)
  {
    assert GoodField(JOB_FIELDS_0[0], 0) && GoodField(JOB_FIELDS_0[1], 1) && GoodField(JOB_FIELDS_0[2], 2)
        && GoodField(JOB_FIELDS_0[3], 3) && GoodField(JOB_FIELDS_0[4], 4);
  }

  lemma GoodFields5()
    ensures |JOB_FIELDS_0| == 10
    ensures forall i :: 5 <= i < 10 ==> GoodField(JOB_FIELDS_0[i], 0 + i)
  {
    assert GoodField(JOB_FIELDS_0[5], 5) && GoodField(JOB_FIELDS_0[6], 6) && GoodField(JOB_FIELDS_0[7], 7)
        && GoodField(JOB_FIELDS_0[8], 8) && GoodField(JOB_FIELDS_0[9], 9);
  }

  lemma GoodFields10()
    ensures |JOB_FIELDS_10| == 10
    ensures forall i :: 0 <= i < 5 ==> GoodField(JOB_FIELDS_10[i], 10 + i)
  {
    assert GoodField(JOB_FIELDS_10[0], 10) && GoodField(JOB_FIELDS_10[1], 11) && GoodField(JOB_FIELDS_10[2], 12)
        && GoodField(JOB_FIELDS_10[3], 13) && GoodField(JOB_FIELDS_10[4], 14);
  }

  lemma GoodFields15()
    ensures |JOB_FIELDS_10| == 10
    ensures forall i :: 5 <= i < 10 ==> GoodField(JOB_FIELDS_10[i], 10 + i)
  {
    assert GoodField(JOB_FIELDS_10[5], 15) && GoodField(JOB_FIELDS_10[6], 16) && GoodField(JOB_FIELDS_10[7], 17)
        && GoodField(JOB_FIELDS_10[8], 18) && GoodField(JOB_FIELDS_10[9], 19);
  }

  lemma GoodFields20()
    ensures |JOB_FIELDS_20| == 10
    ensures forall i :: 0 <= i < 5 ==> GoodField(JOB_FIELDS_20[i], 20 + i)
  {
    assert GoodField(JOB_FIELDS_20[0], 20) && GoodField(JOB_FIELDS_20[1], 21) && GoodField(JOB_FIELDS_20[2], 22)
        && GoodField(JOB_FIELDS_20[3], 23) && GoodField(JOB_FIELDS_20[4], 24);
  }

  lemma GoodFields25()
    ensures |JOB_FIELDS_20| == 10
    ensures forall i :: 5 <= i < 10 ==> GoodField(JOB_FIELDS_20[i], 20 + i)
  {
    assert GoodField(JOB_FIELDS_20[5], 25) && GoodField(JOB_FIELDS_20[6], 26) && GoodField(JOB_FIELDS_20[7], 27)
        && GoodField(JOB_FIELDS_20[8], 28) && GoodField(JOB_FIELDS_20[9], 29);
  }

  lemma GoodFields30()
    ensures |JOB_FIELDS_30| == 10
    ensures forall i :: 0 <= i < 5 ==> GoodField(JOB_FIELDS_30[i], 30 + i)
  {
    assert GoodField(JOB_FIELDS_30[0], 30) && GoodField(JOB_FIELDS_30[1], 31) && GoodField(JOB_FIELDS_30[2], 32)
        && GoodField(JOB_FIELDS_30[3], 33) && GoodField(JOB_FIELDS_30[4], 34);
  }

  lemma GoodFields35()
    ensures |JOB_FIELDS_30| == 10
    ensures forall i :: 5 <= i < 10 ==> GoodField(JOB_FIELDS_30[i], 30 + i)
  {
    assert GoodField(JOB_FIELDS_30[5], 35) && GoodField(JOB_FIELDS_30[6], 36) && GoodField(JOB_FIELDS_30[7], 37)
        && GoodField(JOB_FIELDS_30[8], 38) && GoodField(JOB_FIELDS_30[9], 39);
  }

  lemma AllGoodFields()
    ensures |JOB.fields| == 40 && forall i :: 0 <= i < 40 ==> GoodField(JOB.fields[i], i)
  {
    hide GoodField;
    GoodFields0();
    GoodFields5();
    GoodFields10();
    GoodFields15();
    GoodFields20();
    GoodFields25();
    GoodFields30();
    GoodFields35();
    InTens(JOB_FIELDS_0, JOB_FIELDS_10, JOB_FIELDS_20, JOB_FIELDS_30);
  }

  lemma InTens<T>(a: seq<T>, b: seq<T>, c: seq<T>, d: seq<T>)
    requires |a| == |b| == |c| == |d| == 10
    ensures var s := a + b + c + d;
            |s| == 40 && forall i :: 0 <= i < 40 ==>
              s[i] == if i < 10 then a[i] else if i < 20 then b[i - 10] else if i < 30 then c[i - 20] else d[i - 30]
  {
  }

  // ---- what the key table needs, field by field ----

  /** Leaves carry simple kinds and names are short and clean, at every depth. */
  predicate Plain(t: Type) {
    match t
    case Leaf(k) => Simple(k)
    case Struct(fs) => forall i :: 0 <= i < |fs| ==> ShortName(FieldName(fs[i])) && Plain(fs[i].typ)
  }

  /** At most two layers of structs. */
  predicate TwoLayers(t: Type)
    requires t.Struct?
  {
    forall i :: 0 <= i < |t.fields| ==> t.fields[i].typ.Struct? ==> OneLayer(t.fields[i].typ)
  }

  predicate OneLayer(t: Type)
    requires t.Struct?
  {
    forall i :: 0 <= i < |t.fields| ==> t.fields[i].typ.Leaf?
  }

  lemma {:induction false} OneLayerShallow(t: Type, i: nat, parent: seq<string>, path: seq<nat>)
    requires t.Struct? && OneLayer(t) && i <= |t.fields| && |parent| <= 1
    ensures Shallow(LeavesFrom(t, i, parent, path))
    decreases |t.fields| - i
  {
    if i < |t.fields| {
      OneLayerShallow(t, i + 1, parent, path);
    }
  }

  lemma {:induction false} TwoLayersShallow(t: Type, i: nat)
    requires t.Struct? && TwoLayers(t) && i <= |t.fields|
    ensures Shallow(LeavesFrom(t, i, [], []))
    decreases |t.fields| - i
  {
    if i < |t.fields| {
      TwoLayersShallow(t, i + 1);
      var f := t.fields[i];
      if f.typ.Struct? {
        OneLayerShallow(f.typ, 0, [] + [FieldName(f)], [] + [i]);
      }
    }
  }

  ghost predicate CleanLeaf(leaf: LeafField) {
    Simple(leaf.kind) && CleanAll(leaf.names)
  }

  predicate CleanAll(names: seq<string>) {
    forall k :: 0 <= k < |names| ==> ShortName(names[k])
  }

  lemma {:induction false} PlainLeaves(t: Type, i: nat, parent: seq<string>, path: seq<nat>)
    requires t.Struct? && Plain(t) && i <= |t.fields| && CleanAll(parent)
    ensures forall k :: 0 <= k < |LeavesFrom(t, i, parent, path)| ==> CleanLeaf(LeavesFrom(t, i, parent, path)[k])
    decreases t, |t.fields| - i
  {
    hide ShortName, Simple;
    if i < |t.fields| {
      PlainLeaves(t, i + 1, parent, path);
      PlainField(t, i, parent, path);
      var here, later := LeavesOfField(t, i, parent, path), LeavesFrom(t, i + 1, parent, path);
      forall k | 0 <= k < |here + later| ensures CleanLeaf((here + later)[k]) {
        assert k < |here| || (here + later)[k] == later[k - |here|];
      }
    }
  }

  lemma {:induction false} PlainField(t: Type, i: nat, parent: seq<string>, path: seq<nat>)
    requires t.Struct? && Plain(t) && i < |t.fields| && CleanAll(parent)
    ensures forall k :: 0 <= k < |LeavesOfField(t, i, parent, path)| ==>
                          CleanLeaf(LeavesOfField(t, i, parent, path)[k])
    decreases t, |t.fields| - i, 0
  {
    hide ShortName, Simple;
    var f := t.fields[i];
    assert CleanAll(parent + [FieldName(f)]) && Plain(f.typ);
    if f.typ.Struct? {
      PlainLeaves(f.typ, 0, parent + [FieldName(f)], path + [i]);
    }
  }

  /** A plain type of two layers with distinct names is one the round-trip theorems speak of. */
  lemma PlainTypeIsGood(t: Type)
    requires t.Struct? && Plain(t) && TwoLayers(t) && DistinctNames(t)
    ensures GoodType(t) && CleanNames(t) && SimpleType(t) && ShortNames(t)
  {
    TwoLayersShallow(t, 0);
    PlainLeaves(t, 0, [], []);
    hide Leaves, IsTrimmed, Simple;
    assert Leaves(t) == LeavesFrom(t, 0, [], []);
    forall i | 0 <= i < |Leaves(t)|
      ensures ShortName(KeyOf(Leaves(t)[i]).name) && ShortName(KeyOf(Leaves(t)[i]).resource)
      ensures Simple(Leaves(t)[i].kind)
    {
      assert CleanLeaf(Leaves(t)[i]);
      EmptyTrimmed();
    }
  }

  lemma EmptyTrimmed()
    ensures IsTrimmed("", {NUL})
  {
  }

  /** Plain, and shallow enough and distinct enough to be the type of a field of `Job`. */
  predicate GoodFieldType(t: Type) {
    Plain(t) && DistinctNames(t) && (t.Struct? ==> OneLayer(t))
  }

  lemma LeafTypesGood()
    ensures GoodFieldType(STRING) && GoodFieldType(INT) && GoodFieldType(STRINGS)
  {
  }

  lemma ResourcesUsedNames()
    ensures DistinctNames(RESOURCES_USED)
  {
  }

  lemma ResourcesUsedPlain()
    ensures Plain(RESOURCES_USED) && OneLayer(RESOURCES_USED)
  {
  }

  lemma ResourceListNames()
    ensures DistinctNames(RESOURCE_LIST)
  {
  }

  lemma ResourceListPlain()
    ensures Plain(RESOURCE_LIST) && OneLayer(RESOURCE_LIST)
  {
  }

  lemma FieldTypeGood(t: Type)
    requires KnownType(t)
    ensures GoodFieldType(t)
  {
    LeafTypesGood();
    ResourcesUsedNames();
    ResourcesUsedPlain();
    ResourceListNames();
    ResourceListPlain();
    hide DistinctNames, Plain, OneLayer;
  }

  lemma StructIsGood(t: Type)
    requires t.Struct? && forall i :: 0 <= i < |t.fields| ==> GoodFieldType(t.fields[i].typ)
    requires forall i :: 0 <= i < |t.fields| ==> ShortName(FieldName(t.fields[i]))
    requires forall i, j :: 0 <= i < j < |t.fields| ==> FieldName(t.fields[i]) != FieldName(t.fields[j])
    ensures GoodType(t) && CleanNames(t) && SimpleType(t) && ShortNames(t)
  {
    PlainTypeIsGood(t);
  }

  /** `Job` is such a type: every theorem about the codec holds for it. */
  lemma JobTypeIsGood()
    ensures GoodType(JOB) && CleanNames(JOB) && SimpleType(JOB) && ShortNames(JOB)
  {
    AllGoodFields();
    FieldsAreGood(JOB);
  }

  lemma FieldsAreGood(t: Type)
    requires t.Struct? && forall i :: 0 <= i < |t.fields| ==> GoodField(t.fields[i], i)
    ensures GoodType(t) && CleanNames(t) && SimpleType(t) && ShortNames(t)
  {
    hide Place, ShortName, KnownType, GoodFieldType, FieldName, GoodType, CleanNames, SimpleType, ShortNames;
    forall i | 0 <= i < |t.fields| ensures GoodFieldType(t.fields[i].typ) && ShortName(FieldName(t.fields[i])) {
      assert GoodField(t.fields[i], i);
      FieldTypeGood(t.fields[i].typ);
    }
    forall i, j | 0 <= i < j < |t.fields| ensures FieldName(t.fields[i]) != FieldName(t.fields[j]) {
      assert GoodField(t.fields[i], i) && GoodField(t.fields[j], j);
    }
    StructIsGood(t);
  }

  /**
   A job comes back from its own file, whatever job it is decoded into, exactly when the format
   carries all its fields.
   */
  lemma JobRoundTrips(strict: bool, ram: HumanUnits, job: Node, job0: Node)
    requires GoodType(JOB) && HasType(job, JOB) && HasType(job0, JOB) && FitsFile(JOB, job)
    ensures DecodeFile(JobConfig(JOB, strict, ram), job0, Marshalled(JOB, job)) == (Accepted(""), job)
       <==> InDomain(JOB, job)
  {
    JobTypeIsGood();
    hide *;
    RoundTripsExactly(JOB, strict, ram, job, job0);
  }

  /** How long a job's file is. */
  lemma JobFileLength(job: Node)
    requires GoodType(JOB) && HasType(job, JOB) && forall a :: a in JobAttrs(JOB, job) ==> E.FitsTexts(a)
    ensures |Marshalled(JOB, job)| == 1096 + E.TextLengths(JobAttrs(JOB, job)) + 24
  {
    hide JobAttrs, E.JobFileBytes, E.FitsTexts, Leaves;
    E.MarshalLength(JobAttrs(JOB, job));
  }

  /** In every job's file the first attribute stands where `findJobAttrStartPos` and `Decode` expect it. */
  lemma JobFileStart(job: Node)
    requires GoodType(JOB) && HasType(job, JOB)
    ensures IndexFrom(Marshalled(JOB, job), SENTINEL, 0) == Some(START_POS)
  {
    var attrs := JobAttrs(JOB, job);
    FirstLeaf();
    JobAttrAt(JOB, job, 0);
    hide JobAttrs, E.JobFileBytes, Leaves;
    E.SentinelPosition(attrs);
  }

  lemma FirstLeaf()
    ensures Leaves(JOB) != [] && Leaves(JOB)[0].names == ["Job_Name"]
  {
    var here := LeavesOfField(JOB, 0, [], []);
    assert JOB.fields[0].typ == STRING && FieldName(JOB.fields[0]) == "Job_Name";
    assert here[0].names == [] + ["Job_Name"];
    assert Leaves(JOB)[0] == here[0];
  }
}
