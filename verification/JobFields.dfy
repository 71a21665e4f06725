/** The attributes of `Job`, in the order of the file, and what a record of each is read into. */
module JobFields {
  import opened Wrappers
  import opened GoStrings
  import opened Strconv
  import opened Reflect
  import opened JobFile
  import opened JobTypes
  import opened Layout
  import opened Utils
  import opened Decode
  import opened Values
  import opened Codec
  import opened FileBytes
  import opened Jobs

  // ---- the table, row by row ----

  function Str(name: string, i: nat): seq<LeafField> { Sep(name, i, ',') }

  function Sep(name: string, i: nat, separator: char): seq<LeafField> {
    [LeafField([name], [i], separator, StringKind)]
  }

  function Num(name: string, i: nat): seq<LeafField> { [LeafField([name], [i], ',', IntKind(W64))] }

  function List(name: string, i: nat): seq<LeafField> { [LeafField([name], [i], ',', SliceKind(StringKind))] }

  function Under(names: seq<string>, index: seq<nat>, leaf: LeafField): LeafField {
    LeafField(names + leaf.names, index + leaf.index, leaf.separator, leaf.kind)
  }

  function AllUnder(names: seq<string>, index: seq<nat>, leaves: seq<LeafField>): (r: seq<LeafField>)
    ensures |r| == |leaves| && forall k :: 0 <= k < |r| ==> r[k] == Under(names, index, leaves[k])
  {
    seq(|leaves|, k requires 0 <= k < |leaves| => Under(names, index, leaves[k]))
  }

  /** A struct of these rows at field `i`. */
  function Within(name: string, i: nat, rows: seq<seq<LeafField>>): seq<LeafField> {
    AllUnder([name], [i], Flat(rows))
  }

  function Flat(rows: seq<seq<LeafField>>): seq<LeafField> {
    if rows == [] then [] else rows[0] + Flat(rows[1..])
  }

  const USED: seq<seq<LeafField>> := [
    Num("cpupercent", 0),
    List("cpus", 1),
    Str("cput", 2),
    Num("mem", 3),
    Num("ncpus", 4),
    Num("ngpus", 5),
    Num("vmem", 6),
    Str("walltime", 7)
  ]

  const REQUESTED: seq<seq<LeafField>> := [
    Num("mem", 0),
    Num("ncpus", 1),
    Num("nfpgas", 2),
    Num("ngpus", 3),
    Str("place", 4),
    Str("walltime", 5)
  ]

  const ROWS_0: seq<seq<LeafField>> := [
    Str("Job_Name", 0),
    Str("Job_Owner", 1),
    Within("resources_used", 2, USED),
    Str("job_state", 3),
    Str("queue", 4),
    Str("server", 5),
    Str("devices", 6),
    Str("Account_Name", 7),
    Str("Checkpoint", 8),
    Str("Error_Path", 9)
  ]

  const ROWS_10: seq<seq<LeafField>> := [
    Sep("exec_host2", 10, '+'),
    Sep("exec_vnode", 11, '+'),
    Num("interactive", 12),
    Str("Join_Path", 13),
    Str("Keep_Files", 14),
    Num("mtime", 15),
    Str("Output_Path", 16),
    Within("Resource_List", 17, REQUESTED),
    Sep("schedselect", 18, ':'),
    Num("stime", 19)
  ]

  const ROWS_20: seq<seq<LeafField>> := [
    Str("session_id", 20),
    Str("Shell_Path_List", 21),
    Str("jobdir", 22),
    Str("substate", 23),
    List("Variable_List", 24),
    Str("euser", 25),
    Str("egroup", 26),
    Str("hashname", 27),
    Str("cookie", 28),
    Str("umask", 29)
  ]

  const ROWS_30: seq<seq<LeafField>> := [
    Num("run_count", 30),
    Str("job_kill_delay", 31),
    Str("array_id", 32),
    Str("array_index", 33),
    Str("executable", 34),
    Str("argument_list", 35),
    Str("project", 36),
    Str("run_version", 37),
    Str("Submit_Host", 38),
    Sep("binding", 39, ':')
  ]

  const ROWS := ROWS_0 + ROWS_10 + ROWS_20 + ROWS_30

  /** The row of a field that is a leaf. */
  predicate RowIs(f: Field, i: nat, row: seq<LeafField>) {
    f.typ.Leaf? && row == [LeafField([FieldName(f)], [i], FieldSeparator(f), f.typ.kind)]
  }

  lemma {:induction false} LayerRows(t: Type, i: nat, rows: seq<seq<LeafField>>, parent: seq<string>, path: seq<nat>)
    requires t.Struct? && |rows| == |t.fields| && i <= |rows|
    requires forall j :: 0 <= j < |rows| ==> RowIs(t.fields[j], j, rows[j])
    ensures LeavesFrom(t, i, parent, path) == AllUnder(parent, path, Flat(rows[i..]))
    decreases |rows| - i
  {
    hide FieldName, FieldSeparator;
    if i == |rows| {
      assert rows[i..] == [];
    } else {
      LayerRows(t, i + 1, rows, parent, path);
      assert rows[i..][1..] == rows[i + 1..];
      assert RowIs(t.fields[i], i, rows[i]);
    }
  }

  lemma UsedRows()
    ensures |RESOURCES_USED.fields| == 8 && |USED| == 8
    ensures forall j :: 0 <= j < 8 ==> RowIs(RESOURCES_USED.fields[j], j, USED[j])
  {
    var f := RESOURCES_USED.fields;
    assert RowIs(f[0], 0, USED[0]) && RowIs(f[1], 1, USED[1]) && RowIs(f[2], 2, USED[2]) && RowIs(f[3], 3, USED[3]);
    assert RowIs(f[4], 4, USED[4]) && RowIs(f[5], 5, USED[5]) && RowIs(f[6], 6, USED[6]) && RowIs(f[7], 7, USED[7]);
  }

  lemma RequestedRows()
    ensures |RESOURCE_LIST.fields| == 6 && |REQUESTED| == 6
    ensures forall j :: 0 <= j < 6 ==> RowIs(RESOURCE_LIST.fields[j], j, REQUESTED[j])
  {
    var f, r := RESOURCE_LIST.fields, REQUESTED;
    assert RowIs(f[0], 0, r[0]) && RowIs(f[1], 1, r[1]) && RowIs(f[2], 2, r[2]);
    assert RowIs(f[3], 3, r[3]) && RowIs(f[4], 4, r[4]) && RowIs(f[5], 5, r[5]);
  }

  lemma Rows0()
    ensures |JOB_FIELDS_0| == 10 && |ROWS_0| == 10
    ensures forall i :: 0 <= i < 5 && i != 2 ==> RowIs(JOB_FIELDS_0[i], 0 + i, ROWS_0[i])
  {
    assert RowIs(JOB_FIELDS_0[0], 0, ROWS_0[0]) && RowIs(JOB_FIELDS_0[1], 1, ROWS_0[1]);
    assert RowIs(JOB_FIELDS_0[3], 3, ROWS_0[3]) && RowIs(JOB_FIELDS_0[4], 4, ROWS_0[4]);
  }

  lemma Rows5()
    ensures |JOB_FIELDS_0| == 10 && |ROWS_0| == 10
    ensures forall i :: 5 <= i < 10 ==> RowIs(JOB_FIELDS_0[i], 0 + i, ROWS_0[i])
  {
    assert RowIs(JOB_FIELDS_0[5], 5, ROWS_0[5]) && RowIs(JOB_FIELDS_0[6], 6, ROWS_0[6]);
    assert RowIs(JOB_FIELDS_0[7], 7, ROWS_0[7]) && RowIs(JOB_FIELDS_0[8], 8, ROWS_0[8]);
    assert RowIs(JOB_FIELDS_0[9], 9, ROWS_0[9]);
  }

  lemma Rows10()
    ensures |JOB_FIELDS_10| == 10 && |ROWS_10| == 10
    ensures forall i :: 0 <= i < 5 ==> RowIs(JOB_FIELDS_10[i], 10 + i, ROWS_10[i])
  {
    assert RowIs(JOB_FIELDS_10[0], 10, ROWS_10[0]) && RowIs(JOB_FIELDS_10[1], 11, ROWS_10[1]);
    assert RowIs(JOB_FIELDS_10[2], 12, ROWS_10[2]) && RowIs(JOB_FIELDS_10[3], 13, ROWS_10[3]);
    assert RowIs(JOB_FIELDS_10[4], 14, ROWS_10[4]);
  }

  lemma Rows15()
    ensures |JOB_FIELDS_10| == 10 && |ROWS_10| == 10
    ensures forall i :: 5 <= i < 10 && i != 7 ==> RowIs(JOB_FIELDS_10[i], 10 + i, ROWS_10[i])
  {
    assert RowIs(JOB_FIELDS_10[5], 15, ROWS_10[5]) && RowIs(JOB_FIELDS_10[6], 16, ROWS_10[6]);
    assert RowIs(JOB_FIELDS_10[8], 18, ROWS_10[8]) && RowIs(JOB_FIELDS_10[9], 19, ROWS_10[9]);
  }

  lemma Rows20()
    ensures |JOB_FIELDS_20| == 10 && |ROWS_20| == 10
    ensures forall i :: 0 <= i < 5 ==> RowIs(JOB_FIELDS_20[i], 20 + i, ROWS_20[i])
  {
    assert RowIs(JOB_FIELDS_20[0], 20, ROWS_20[0]) && RowIs(JOB_FIELDS_20[1], 21, ROWS_20[1]);
    assert RowIs(JOB_FIELDS_20[2], 22, ROWS_20[2]) && RowIs(JOB_FIELDS_20[3], 23, ROWS_20[3]);
    assert RowIs(JOB_FIELDS_20[4], 24, ROWS_20[4]);
  }

  lemma Rows25()
    ensures |JOB_FIELDS_20| == 10 && |ROWS_20| == 10
    ensures forall i :: 5 <= i < 10 ==> RowIs(JOB_FIELDS_20[i], 20 + i, ROWS_20[i])
  {
    assert RowIs(JOB_FIELDS_20[5], 25, ROWS_20[5]) && RowIs(JOB_FIELDS_20[6], 26, ROWS_20[6]);
    assert RowIs(JOB_FIELDS_20[7], 27, ROWS_20[7]) && RowIs(JOB_FIELDS_20[8], 28, ROWS_20[8]);
    assert RowIs(JOB_FIELDS_20[9], 29, ROWS_20[9]);
  }

  lemma Rows30()
    ensures |JOB_FIELDS_30| == 10 && |ROWS_30| == 10
    ensures forall i :: 0 <= i < 5 ==> RowIs(JOB_FIELDS_30[i], 30 + i, ROWS_30[i])
  {
    assert RowIs(JOB_FIELDS_30[0], 30, ROWS_30[0]) && RowIs(JOB_FIELDS_30[1], 31, ROWS_30[1]);
    assert RowIs(JOB_FIELDS_30[2], 32, ROWS_30[2]) && RowIs(JOB_FIELDS_30[3], 33, ROWS_30[3]);
    assert RowIs(JOB_FIELDS_30[4], 34, ROWS_30[4]);
  }

  lemma Rows35()
    ensures |JOB_FIELDS_30| == 10 && |ROWS_30| == 10
    ensures forall i :: 5 <= i < 10 ==> RowIs(JOB_FIELDS_30[i], 30 + i, ROWS_30[i])
  {
    assert RowIs(JOB_FIELDS_30[5], 35, ROWS_30[5]) && RowIs(JOB_FIELDS_30[6], 36, ROWS_30[6]);
    assert RowIs(JOB_FIELDS_30[7], 37, ROWS_30[7]) && RowIs(JOB_FIELDS_30[8], 38, ROWS_30[8]);
    assert RowIs(JOB_FIELDS_30[9], 39, ROWS_30[9]);
  }

  /** The leaves of field `i` of `Job` are its row. */
  predicate FieldRow(i: nat) {
    i < |JOB.fields| && i < |ROWS| && LeavesOfField(JOB, i, [], []) == ROWS[i]
  }

  lemma LeafRow(i: nat)
    requires i < |JOB.fields| && i < |ROWS| && RowIs(JOB.fields[i], i, ROWS[i])
    ensures FieldRow(i)
  {
    var f := JOB.fields[i];
    hide JOB, ROWS, FieldName, FieldSeparator;
    assert [] + [FieldName(f)] == [FieldName(f)] && [] + [i] == [i];
    assert LeavesOfField(JOB, i, [], []) == [LeafField([] + [FieldName(f)], [] + [i], FieldSeparator(f), f.typ.kind)];
  }

  lemma StructRow(i: nat, name: string, rows: seq<seq<LeafField>>)
    requires i < |JOB.fields| && i < |ROWS| && JOB.fields[i].typ.Struct? && FieldName(JOB.fields[i]) == name
    requires ROWS[i] == Within(name, i, rows) && |rows| == |JOB.fields[i].typ.fields|
    requires forall j :: 0 <= j < |rows| ==> RowIs(JOB.fields[i].typ.fields[j], j, rows[j])
    ensures FieldRow(i)
  {
    hide FieldName, FieldSeparator, RowIs, Flat;
    LayerRows(JOB.fields[i].typ, 0, rows, [name], [i]);
    assert rows[0..] == rows;
    assert [] + [name] == [name] && [] + [i] == [i];
  }

  lemma StructFields()
    ensures JOB_FIELDS_0[2] == Field("ResourcesUsed", Some("resources_used"), None, RESOURCES_USED)
    ensures JOB_FIELDS_10[7] == Field("ResourceList", Some("Resource_List"), None, RESOURCE_LIST)
    ensures ROWS_0[2] == Within("resources_used", 2, USED)
    ensures ROWS_10[7] == Within("Resource_List", 17, REQUESTED)
  {
  }

  lemma AllRows()
    ensures |JOB.fields| == 40 && |ROWS| == 40 && forall i :: 0 <= i < 40 ==> FieldRow(i)
  {
    hide RowIs, FieldRow, FieldName, Within;
    Rows0();
    Rows5();
    Rows10();
    Rows15();
    Rows20();
    Rows25();
    Rows30();
    Rows35();
    InTens(JOB_FIELDS_0, JOB_FIELDS_10, JOB_FIELDS_20, JOB_FIELDS_30);
    InTens(ROWS_0, ROWS_10, ROWS_20, ROWS_30);
    StructFields();
    UsedRows();
    RequestedRows();
    NamesOfStructs();
    StructRow(2, "resources_used", USED);
    StructRow(17, "Resource_List", REQUESTED);
    forall i | 0 <= i < 40 ensures FieldRow(i) {
      if i != 2 && i != 17 {
        LeafRow(i);
      }
    }
  }

  lemma NamesOfStructs()
    ensures FieldName(Field("ResourcesUsed", Some("resources_used"), None, RESOURCES_USED)) == "resources_used"
    ensures FieldName(Field("ResourceList", Some("Resource_List"), None, RESOURCE_LIST)) == "Resource_List"
  {
  }

  lemma {:induction false} RowsFrom(i: nat)
    requires i <= |JOB.fields| == |ROWS| && forall j :: 0 <= j < |ROWS| ==> FieldRow(j)
    ensures LeavesFrom(JOB, i, [], []) == Flat(ROWS[i..])
    decreases |ROWS| - i
  {
    hide JOB, ROWS, LeavesOfField;
    if i < |ROWS| {
      RowsFrom(i + 1);
      assert ROWS[i..][1..] == ROWS[i + 1..];
      assert FieldRow(i);
    }
  }

  /** The attributes of `Job` are these rows: names, index paths, separators and kinds, in the order of the file. */
  lemma JobAttributes()
    ensures Leaves(JOB) == Flat(ROWS)
  {
    AllRows();
    RowsFrom(0);
    assert ROWS[0..] == ROWS;
  }

  // ---- reading one record ----

  /** The file of one record. */
  function FileOf(prefix: string, p: Piece, tail: string, rest: string): string {
    prefix + PiecesBytes([p]) + "9\U{FD}\U{FF}\U{FF}" + tail + rest
  }

  /** A file of one measured record of this attribute of the type, with this text. */
  ghost predicate RecordOf(t: Type, k: nat, text: string, prefix: string, p: Piece, tail: string) {
    && GoodType(t) && k < |Leaves(t)|
    && |prefix| == 1096 && |tail| == 20 && (forall i :: 0 <= i < 20 ==> tail[i] as int < 0x100)
    && Measured(p) && StandsFor(p, Attr(KeyOf(Leaves(t)[k]).name, KeyOf(Leaves(t)[k]).resource, text))
  }

  /** The data is accepted up to the rest, and makes of the job one in which attribute `k` alone is changed. */
  ghost predicate Becomes(
    t: Type, strict: bool, ram: HumanUnits, job: Node, data: string, rest: string, k: nat, v: Value)
    requires GoodType(t) && HasType(job, t) && k < |Leaves(t)|
  {
    var (outcome, after) := DecodeFile(JobConfig(t, strict, ram), job, data);
    var leaf := Leaves(t)[k];
    && outcome == Accepted(rest)
    && FieldByIndex(after, leaf.index) == Some(LeafNode(leaf.kind, v))
    && forall j :: 0 <= j < |Leaves(t)| && j != k ==>
         FieldByIndex(after, Leaves(t)[j].index) == FieldByIndex(job, Leaves(t)[j].index)
  }

  lemma AssignAllOne(c: Config, job: Node, a: Attr)
    requires TableFits(c) && HasType(job, c.typ)
    ensures AssignAll(c, job, [a])
         == var one := AssignAttr(c, job, a);
            if one.Assigned? then (None, one.job) else (Some(one.error), job)
  {
    hide AssignAttr;
    assert [a][1..] == [];
  }

  lemma LeafAssigned(t: Type, strict: bool, ram: HumanUnits, job: Node, k: nat, text: string, v: Value)
    requires GoodType(t) && HasType(job, t) && k < |Leaves(t)|
    requires ParseValue(ram, Leaves(t)[k].kind, text, Leaves(t)[k].separator) == Some(v)
    ensures var c, leaf := JobConfig(t, strict, ram), Leaves(t)[k];
            FieldByIndex(job, leaf.index).Some?
            && AssignAttr(c, job, Attr(KeyOf(leaf).name, KeyOf(leaf).resource, text))
               == Assigned(SetByIndex(job, leaf.index, LeafNode(leaf.kind, v)))
  {
    hide Leaves, DistinctNames, ParseValue;
    KeyTable(t);
    TypedField(job, t, Leaves(t)[k].index);
    assert Keys(Leaves(t))[k] == KeyOf(Leaves(t)[k]);
  }

  lemma OthersKept(t: Type, job: Node, k: nat, j: nat, m: Node)
    requires GoodType(t) && k < |Leaves(t)| && j < |Leaves(t)| && j != k
    requires FieldByIndex(job, Leaves(t)[k].index).Some?
    ensures FieldByIndex(SetByIndex(job, Leaves(t)[k].index, m), Leaves(t)[j].index)
         == FieldByIndex(job, Leaves(t)[j].index)
  {
    hide Leaves, DistinctNames, FieldByIndex, SetByIndex;
    LeavesApart(t, k, j);
    var d :| DivergeAt(Leaves(t)[k].index, Leaves(t)[j].index, d);
    SetKeepsOthers(job, Leaves(t)[k].index, m, Leaves(t)[j].index, d);
  }

  /** What the text parses to is what the attribute becomes, and nothing else changes. */
  lemma RecordRead(
    t: Type, strict: bool, ram: HumanUnits, job: Node, k: nat, text: string, v: Value,
    prefix: string, p: Piece, tail: string, rest: string)
    requires HasType(job, t) && RecordOf(t, k, text, prefix, p, tail)
    requires ParseValue(ram, Leaves(t)[k].kind, text, Leaves(t)[k].separator) == Some(v)
    ensures Becomes(t, strict, ram, job, FileOf(prefix, p, tail, rest), rest, k, v)
  {
    hide Leaves, DistinctNames, ParseValue, DecodeFile, JobConfig, AssignAll, AssignAttr, FieldByIndex, SetByIndex;
    hide Measured, StandsFor, PiecesBytes;
    var c, leaf := JobConfig(t, strict, ram), Leaves(t)[k];
    var a := Attr(KeyOf(leaf).name, KeyOf(leaf).resource, text);
    FileDecodes(c, job, prefix, [p], [a], tail, rest);
    AssignAllOne(c, job, a);
    LeafAssigned(t, strict, ram, job, k, text, v);
    forall j | 0 <= j < |Leaves(t)| && j != k
      ensures FieldByIndex(SetByIndex(job, leaf.index, LeafNode(leaf.kind, v)), Leaves(t)[j].index)
           == FieldByIndex(job, Leaves(t)[j].index)
    {
      OthersKept(t, job, k, j, LeafNode(leaf.kind, v));
    }
  }

  /** A text attribute becomes the text. */
  lemma TextRead(
    t: Type, strict: bool, ram: HumanUnits, job: Node, k: nat, text: string,
    prefix: string, p: Piece, tail: string, rest: string)
    requires HasType(job, t) && RecordOf(t, k, text, prefix, p, tail) && Leaves(t)[k].kind == StringKind
    ensures Becomes(t, strict, ram, job, FileOf(prefix, p, tail, rest), rest, k, StringValue(text))
  {
    hide Leaves, DistinctNames, Becomes, FileOf;
    RecordRead(t, strict, ram, job, k, text, StringValue(text), prefix, p, tail, rest);
  }

  /** A number attribute becomes the number of its digits, zeros in front or not, or what the unit parser says. */
  lemma NumberRead(
    t: Type, strict: bool, ram: HumanUnits, job: Node, k: nat, text: string, n: int,
    prefix: string, p: Piece, tail: string, rest: string)
    requires HasType(job, t) && RecordOf(t, k, text, prefix, p, tail) && Leaves(t)[k].kind == IntKind(W64)
    requires || (text != "" && AllDigits(text) && n == Decimal(text) <= 0x7FFF_FFFF_FFFF_FFFF)
             || (text == "" && n == 0)
             || (ParseInt(text) == SyntaxError && text != "" && ram(text) == Some(n))
    ensures Becomes(t, strict, ram, job, FileOf(prefix, p, tail, rest), rest, k, IntValue(n))
  {
    hide Leaves, DistinctNames, Becomes, FileOf, ParseInt, Decimal;
    if text != "" && AllDigits(text) {
      ParseBytesDigits(ram, text);
    }
    assert ParseValue(ram, Leaves(t)[k].kind, text, Leaves(t)[k].separator) == Some(IntValue(n));
    RecordRead(t, strict, ram, job, k, text, IntValue(n), prefix, p, tail, rest);
  }

  /** A list attribute becomes the parts that its text joins; no text is no part. */
  lemma ListRead(
    t: Type, strict: bool, ram: HumanUnits, job: Node, k: nat, parts: seq<string>,
    prefix: string, p: Piece, tail: string, rest: string)
    requires GoodType(t) && HasType(job, t) && k < |Leaves(t)| && Leaves(t)[k].kind == SliceKind(StringKind)
    requires RecordOf(t, k, Join(parts, Leaves(t)[k].separator), prefix, p, tail)
    requires parts != [""] && forall part :: part in parts ==> Leaves(t)[k].separator !in part
    ensures Becomes(t, strict, ram, job, FileOf(prefix, p, tail, rest), rest, k, SliceValue(Strings(parts)))
  {
    hide Leaves, DistinctNames, Becomes, FileOf, ParseValue, Join, Split;
    var separator := Leaves(t)[k].separator;
    var text := Join(parts, separator);
    ParsedList(ram, text, separator);
    if parts == [] {
      NothingJoined(separator);
    } else {
      SplitJoin(parts, separator);
      JoinedIsText(parts, separator);
    }
    RecordRead(t, strict, ram, job, k, text, SliceValue(Strings(parts)), prefix, p, tail, rest);
  }

  lemma NothingJoined(separator: char)
    ensures Join([], separator) == ""
  {
  }

  lemma JoinedIsText(parts: seq<string>, separator: char)
    requires parts != [] && parts != [""]
    ensures Join(parts, separator) != ""
  {
    if |parts| == 1 {
      assert parts == [parts[0]];
    }
  }
}
