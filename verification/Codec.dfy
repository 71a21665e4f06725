/** Decoding well-formed records is a fold of field updates: later records win, and little else matters. */
module Codec {
  import opened Wrappers
  import opened Reflect
  import opened JobFile
  import opened Layout
  import opened Utils
  import opened Decode
  import opened Records
  import opened Seqs

  /** The decoder of jobs of type `t`. */
  function JobConfig(t: Type, strict: bool, ram: HumanUnits): (c: Config)
    requires GoodType(t)
    ensures c.typ == t && c.strict == strict && c.ram == ram
    ensures TableFits(c) && PathsApart(c)
  {
    var c := Config(Stored(map[], Leaves(t)), t, strict, ram);
    TableOfType(t, c);
    c
  }

  /** The position of a key of the table among the leaves of the type. */
  lemma LeafOf(t: Type, key: JobMapKey) returns (a: nat)
    requires GoodType(t) && key in Stored(map[], Leaves(t))
    ensures a < |Leaves(t)| && KeyOf(Leaves(t)[a]) == key
    ensures Stored(map[], Leaves(t))[key] == MapValueOf(Leaves(t)[a])
    ensures TypeAt(t, Leaves(t)[a].index) == Some(Leaf(Leaves(t)[a].kind))
  {
    KeyTable(t);
    a :| 0 <= a < |Leaves(t)| && Keys(Leaves(t))[a] == key;
  }

  lemma LeavesApart(t: Type, a: nat, b: nat)
    requires GoodType(t) && a < |Leaves(t)| && b < |Leaves(t)| && a != b
    ensures Disjoint(Leaves(t)[a].index, Leaves(t)[b].index)
  {
    var lo, hi := if a < b then a else b, if a < b then b else a;
    var d := LeavesOrdered(t, 0, [], [], lo, hi);
    assert DivergeAt(Leaves(t)[a].index, Leaves(t)[b].index, d);
  }

  lemma TableOfType(t: Type, c: Config)
    requires GoodType(t) && c.typ == t && c.cache == Stored(map[], Leaves(t))
    ensures TableFits(c) && PathsApart(c)
  {
    hide Leaves, Stored, DistinctNames, TypeAt, Disjoint;
    forall key | key in c.cache ensures LeafAt(c, key) {
      var a := LeafOf(t, key);
    }
    forall k1, k2 | k1 in c.cache && k2 in c.cache && k1 != k2
      ensures Disjoint(c.cache[k1].index, c.cache[k2].index)
    {
      var a := LeafOf(t, k1);
      var b := LeafOf(t, k2);
      LeavesApart(t, a, b);
    }
  }

  ghost predicate PathsApart(c: Config) {
    forall k1, k2 :: k1 in c.cache && k2 in c.cache && k1 != k2 ==> Disjoint(c.cache[k1].index, c.cache[k2].index)
  }

  // ---- decoding is a left fold of field updates ----

  function AssignAll(c: Config, job: Node, attrs: seq<Attr>): (r: (Option<DecodeError>, Node))
    requires TableFits(c) && HasType(job, c.typ)
    ensures HasType(r.1, c.typ)
    decreases |attrs|
  {
    if attrs == [] then (None, job)
    else
      match AssignAttr(c, job, attrs[0])
      case Unassigned(e) => (Some(e), job)
      case Assigned(job') => AssignAll(c, job', attrs[1..])
  }

  function AllBytes(rs: seq<RawRecord>): string {
    if rs == [] then "" else RawBytes(rs[0]) + AllBytes(rs[1..])
  }

  function AttrsOf(rs: seq<RawRecord>): (attrs: seq<Attr>)
    ensures |attrs| == |rs| && forall i :: 0 <= i < |rs| ==> attrs[i] == AttrOf(rs[i])
  {
    if rs == [] then [] else [AttrOf(rs[0])] + AttrsOf(rs[1..])
  }

  predicate AllWellFormed(rs: seq<RawRecord>) {
    forall i :: 0 <= i < |rs| ==> WellFormed(rs[i])
  }

  function Verdict(folded: (Option<DecodeError>, Node), rest: string): (Outcome, Node) {
    (if folded.0.Some? then Rejected(folded.0.value) else Accepted(rest), folded.1)
  }

  /** One well-formed record in front: assign it and go on. */
  lemma LoopOverRecord(c: Config, job: Node, last: Attr, r: RawRecord, rest: string)
    requires TableFits(c) && HasType(job, c.typ) && WellFormed(r)
    ensures DecodeLoop(c, job, last, RawBytes(r) + rest)
         == var one := AssignAttr(c, job, AttrOf(r));
            if one.Assigned? then DecodeLoop(c, one.job, AttrOf(r), rest) else (Rejected(one.error), job)
  {
    ReadRaw(r, rest);
    hide AssignAttr, ReadRecord, RawBytes, AttrOf, WellFormed;
  }

  lemma FoldCons(c: Config, job: Node, rs: seq<RawRecord>)
    requires TableFits(c) && HasType(job, c.typ) && rs != []
    ensures AssignAll(c, job, AttrsOf(rs))
         == var one := AssignAttr(c, job, AttrOf(rs[0]));
            if one.Assigned? then AssignAll(c, one.job, AttrsOf(rs[1..])) else (Some(one.error), job)
  {
    hide AssignAttr, AttrOf;
    assert AttrsOf(rs)[1..] == AttrsOf(rs[1..]);
  }

  lemma ConsBytes(rs: seq<RawRecord>, tail: string)
    requires rs != []
    ensures AllBytes(rs) + tail == RawBytes(rs[0]) + (AllBytes(rs[1..]) + tail)
  {
    hide RawBytes;
  }

  /** On well-formed records and an end marker, decoding assigns the attributes in order. */
  lemma {:induction false} DecodeIsFold(
    c: Config, job: Node, last: Attr, rs: seq<RawRecord>, h: JobAttrHeader, rest: string)
    requires TableFits(c) && HasType(job, c.typ) && AllWellFormed(rs) && h.length == END_FLAG
    ensures DecodeLoop(c, job, last, AllBytes(rs) + (HeaderBytes(h) + rest))
         == Verdict(AssignAll(c, job, AttrsOf(rs)), rest)
    decreases |rs|
  {
    hide AssignAttr, ReadRecord, HeaderBytes, RawBytes, AttrOf, WellFormed;
    var tail := HeaderBytes(h) + rest;
    if rs == [] {
      ReadMarker(h, rest);
      assert AllBytes(rs) + tail == tail;
    } else {
      hide DecodeLoop, AllBytes;
      ConsBytes(rs, tail);
      LoopOverRecord(c, job, last, rs[0], AllBytes(rs[1..]) + tail);
      FoldCons(c, job, rs);
      var a := AttrOf(rs[0]);
      if AssignAttr(c, job, a).Assigned? {
        DecodeIsFold(c, AssignAttr(c, job, a).job, a, rs[1..], h, rest);
      }
    }
  }

  function File(prefix: string, rs: seq<RawRecord>, h: JobAttrHeader, rest: string): string {
    prefix + (AllBytes(rs) + (HeaderBytes(h) + rest))
  }

  /** The same for a whole file; nothing but the attributes matters, not flags, padding or last value bytes. */
  lemma DecodeFileIsFold(
    c: Config, job: Node, prefix: string, rs: seq<RawRecord>, h: JobAttrHeader, rest: string)
    requires TableFits(c) && HasType(job, c.typ) && AllWellFormed(rs) && h.length == END_FLAG
    requires |prefix| == START_POS - HEADER_SIZE
    ensures DecodeFile(c, job, File(prefix, rs, h, rest)) == Verdict(AssignAll(c, job, AttrsOf(rs)), rest)
  {
    hide DecodeLoop, AssignAll, AllBytes, HeaderBytes;
    var data := File(prefix, rs, h, rest);
    assert data[START_POS - HEADER_SIZE..] == AllBytes(rs) + (HeaderBytes(h) + rest);
    DecodeIsFold(c, job, NO_ATTR, rs, h, rest);
  }

  /** The same texts, up to outer NULs and the last byte of the value. */
  predicate SameTexts(r: RawRecord, q: RawRecord) {
    && TrimNul(r.name) == TrimNul(q.name)
    && TrimNul(r.resource) == TrimNul(q.resource)
    && TrimNul(DropLast(r.value)) == TrimNul(DropLast(q.value))
  }

  /** The prefix, flags, reference counts, padding and its length, and last value bytes do not matter. */
  lemma OnlyTextsMatter(
    c: Config, job: Node, prefix: string, rs: seq<RawRecord>, h: JobAttrHeader,
    prefix': string, rs': seq<RawRecord>, h': JobAttrHeader, rest: string)
    requires TableFits(c) && HasType(job, c.typ)
    requires AllWellFormed(rs) && h.length == END_FLAG && |prefix| == START_POS - HEADER_SIZE
    requires AllWellFormed(rs') && h'.length == END_FLAG && |prefix'| == START_POS - HEADER_SIZE
    requires |rs| == |rs'| && forall i :: 0 <= i < |rs| ==> SameTexts(rs[i], rs'[i])
    ensures DecodeFile(c, job, File(prefix, rs, h, rest)) == DecodeFile(c, job, File(prefix', rs', h', rest))
  {
    assert AttrsOf(rs) == AttrsOf(rs') by {
      hide TrimNul, DropLast, WellFormed;
    }
    hide DecodeFile, File, AssignAll, AttrsOf, WellFormed;
    DecodeFileIsFold(c, job, prefix, rs, h, rest);
    DecodeFileIsFold(c, job, prefix', rs', h', rest);
  }

  lemma {:induction false} AssignAllAppend(c: Config, job: Node, a: seq<Attr>, b: seq<Attr>)
    requires TableFits(c) && HasType(job, c.typ)
    ensures AssignAll(c, job, a + b)
         == var (e, mid) := AssignAll(c, job, a);
            if e.Some? then (e, mid) else AssignAll(c, mid, b)
    decreases |a|
  {
    hide AssignAttr;
    if a == [] {
      assert a + b == b;
    } else {
      assert (a + b)[1..] == a[1..] + b;
      if AssignAttr(c, job, a[0]).Assigned? {
        AssignAllAppend(c, AssignAttr(c, job, a[0]).job, a[1..], b);
      }
    }
  }

  function KeyName(a: Attr): JobMapKey { JobMapKey(a.name, a.resource) }

  /** Unknown attributes may be inserted or dropped anywhere. */
  lemma UnknownIgnored(c: Config, job: Node, a: seq<Attr>, unknown: Attr, b: seq<Attr>)
    requires TableFits(c) && HasType(job, c.typ)
    requires !c.strict && KeyName(unknown) !in c.cache
    ensures AssignAll(c, job, a + [unknown] + b) == AssignAll(c, job, a + b)
  {
    AssignAllAppend(c, job, a, b);
    AssignAllAppend(c, job, a, [unknown] + b);
    assert a + [unknown] + b == a + ([unknown] + b);
    assert ([unknown] + b)[1..] == b;
  }

  /** The value text of the last record of a key. */
  function LastText(attrs: seq<Attr>, key: JobMapKey): Option<string> {
    if attrs == [] then None
    else if LastText(attrs[1..], key).Some? then LastText(attrs[1..], key)
    else if KeyName(attrs[0]) == key then Some(attrs[0].value)
    else None
  }

  ghost function KindOf(c: Config, key: JobMapKey): Kind
    requires key in c.cache && LeafAt(c, key)
  {
    TypeAt(c.typ, c.cache[key].index).value.kind
  }

  /** The attribute can be assigned: its key is known or ignored, and its text parses. */
  ghost predicate Assignable(c: Config, a: Attr)
    requires TableFits(c)
  {
    if KeyName(a) in c.cache then
      assert LeafAt(c, KeyName(a));
      ParseValue(c.ram, KindOf(c, KeyName(a)), a.value, c.cache[KeyName(a)].separator).Some?
    else !c.strict
  }

  ghost function FieldAfter(c: Config, key: JobMapKey, text: Option<string>, before: Option<Node>): Option<Node>
    requires key in c.cache && LeafAt(c, key)
  {
    match text
    case None => before
    case Some(s) =>
      match ParseValue(c.ram, KindOf(c, key), s, c.cache[key].separator)
      case Some(v) => Some(LeafNode(KindOf(c, key), v))
      case None => None
  }

  lemma AssignOne(c: Config, job: Node, a: Attr, key: JobMapKey)
    requires TableFits(c) && PathsApart(c) && HasType(job, c.typ) && key in c.cache && LeafAt(c, key)
    ensures AssignAttr(c, job, a).Assigned? <==> Assignable(c, a)
    ensures AssignAttr(c, job, a).Assigned? ==>
              FieldByIndex(AssignAttr(c, job, a).job, c.cache[key].index)
              == FieldAfter(c, key, if KeyName(a) == key then Some(a.value) else None,
                            FieldByIndex(job, c.cache[key].index))
  {
    var k := KeyName(a);
    if k in c.cache {
      assert LeafAt(c, k);
      TypedField(job, c.typ, c.cache[k].index);
      if k != key {
        assert Disjoint(c.cache[k].index, c.cache[key].index);
        var d :| DivergeAt(c.cache[k].index, c.cache[key].index, d);
        match ParseValue(c.ram, KindOf(c, k), a.value, c.cache[k].separator)
        case Some(v) => SetKeepsOthers(job, c.cache[k].index, LeafNode(KindOf(c, k), v), c.cache[key].index, d);
        case None =>
      }
    }
  }

  lemma AssignableIff(c: Config, job: Node, a: Attr)
    requires TableFits(c) && HasType(job, c.typ)
    ensures AssignAttr(c, job, a).Assigned? <==> Assignable(c, a)
  {
    if KeyName(a) in c.cache {
      assert LeafAt(c, KeyName(a));
      TypedField(job, c.typ, c.cache[KeyName(a)].index);
    }
  }

  /** The fold succeeds exactly when every attribute can be assigned. */
  lemma {:induction false} FoldSucceeds(c: Config, job: Node, attrs: seq<Attr>)
    requires TableFits(c) && HasType(job, c.typ)
    ensures AssignAll(c, job, attrs).0.None? <==> forall i :: 0 <= i < |attrs| ==> Assignable(c, attrs[i])
    decreases |attrs|
  {
    if attrs == [] {
    } else {
      AssignableIff(c, job, attrs[0]);
      hide AssignAttr, Assignable;
      if AssignAttr(c, job, attrs[0]).Assigned? {
        FoldSucceeds(c, AssignAttr(c, job, attrs[0]).job, attrs[1..]);
        assert forall i :: 0 < i < |attrs| ==> attrs[i] == attrs[1..][i - 1];
      }
    }
  }

  /** A successful fold leaves each known field as its last record says, and untouched without one. */
  lemma {:induction false} FoldFields(c: Config, job: Node, attrs: seq<Attr>, key: JobMapKey)
    requires TableFits(c) && PathsApart(c) && HasType(job, c.typ) && key in c.cache && LeafAt(c, key)
    requires AssignAll(c, job, attrs).0.None?
    ensures FieldByIndex(AssignAll(c, job, attrs).1, c.cache[key].index)
         == FieldAfter(c, key, LastText(attrs, key), FieldByIndex(job, c.cache[key].index))
    decreases |attrs|
  {
    if attrs == [] {
    } else {
      AssignOne(c, job, attrs[0], key);
      hide AssignAttr, KindOf, ParseValue;
      FoldFields(c, AssignAttr(c, job, attrs[0]).job, attrs[1..], key);
    }
  }

  /** A job is determined by the fields the table names. */
  lemma FieldsDetermine(t: Type, strict: bool, ram: HumanUnits, m: Node, n: Node)
    requires GoodType(t) && HasType(m, t) && HasType(n, t)
    requires var c := JobConfig(t, strict, ram);
             forall key :: key in c.cache ==> FieldByIndex(m, c.cache[key].index) == FieldByIndex(n, c.cache[key].index)
    ensures m == n
  {
    var leaves, c := Leaves(t), JobConfig(t, strict, ram);
    KeyTable(t);
    forall k | 0 <= k < |leaves|
      ensures FieldByIndex(m, leaves[k].index) == FieldByIndex(n, leaves[k].index)
    {
      assert Keys(leaves)[k] in c.cache && c.cache[Keys(leaves)[k]].index == leaves[k].index;
    }
    SameLeavesSameValue(t, m, n);
  }

  /** Attribute lists that agree on the last text of every known key decode to the same job. */
  lemma LastTextsDecide(t: Type, strict: bool, ram: HumanUnits, job: Node, a: seq<Attr>, b: seq<Attr>)
    requires GoodType(t) && HasType(job, t)
    requires var c := JobConfig(t, strict, ram);
             && AssignAll(c, job, a).0.None? && AssignAll(c, job, b).0.None?
             && forall key :: key in c.cache ==> LastText(a, key) == LastText(b, key)
    ensures AssignAll(JobConfig(t, strict, ram), job, a) == AssignAll(JobConfig(t, strict, ram), job, b)
  {
    var c := JobConfig(t, strict, ram);
    var ja, jb := AssignAll(c, job, a).1, AssignAll(c, job, b).1;
    forall key | key in c.cache ensures FieldByIndex(ja, c.cache[key].index) == FieldByIndex(jb, c.cache[key].index) {
      assert LeafAt(c, key);
      FoldFields(c, job, a, key);
      FoldFields(c, job, b, key);
    }
    FieldsDetermine(t, strict, ram, ja, jb);
  }

  predicate DistinctKeys(attrs: seq<Attr>) {
    forall i, j :: 0 <= i < j < |attrs| ==> KeyName(attrs[i]) != KeyName(attrs[j])
  }

  lemma {:induction false} LastTextDistinct(attrs: seq<Attr>, key: JobMapKey)
    requires DistinctKeys(attrs)
    ensures forall i :: 0 <= i < |attrs| && KeyName(attrs[i]) == key ==> LastText(attrs, key) == Some(attrs[i].value)
    ensures (forall i :: 0 <= i < |attrs| ==> KeyName(attrs[i]) != key) ==> LastText(attrs, key) == None
  {
    if attrs == [] {
    } else {
      LastTextDistinct(attrs[1..], key);
      assert forall i :: 0 < i < |attrs| ==> attrs[i] == attrs[1..][i - 1];
    }
  }

  lemma DistinctPermuted(a: seq<Attr>, b: seq<Attr>)
    requires DistinctKeys(a) && multiset(a) == multiset(b)
    ensures DistinctKeys(b)
  {
    ImagesUnordered(a, b, KeyName);
    DistinctUnordered(Images(a, KeyName), Images(b, KeyName));
    assert forall i :: 0 <= i < |b| ==> Images(b, KeyName)[i] == KeyName(b[i]);
  }

  /** Attributes with distinct keys can be permuted without changing the job. */
  lemma PermutedRecords(t: Type, strict: bool, ram: HumanUnits, job: Node, a: seq<Attr>, b: seq<Attr>)
    requires GoodType(t) && HasType(job, t)
    requires DistinctKeys(a) && multiset(a) == multiset(b)
    requires AssignAll(JobConfig(t, strict, ram), job, a).0.None?
    ensures AssignAll(JobConfig(t, strict, ram), job, a) == AssignAll(JobConfig(t, strict, ram), job, b)
  {
    var c := JobConfig(t, strict, ram);
    DistinctPermuted(a, b);
    FoldSucceeds(c, job, a);
    forall i | 0 <= i < |b| ensures Assignable(c, b[i]) {
      var k := Elsewhere(b, a, i);
    }
    FoldSucceeds(c, job, b);
    forall key | key in c.cache ensures LastText(a, key) == LastText(b, key) {
      LastTextDistinct(a, key);
      LastTextDistinct(b, key);
      if i :| 0 <= i < |a| && KeyName(a[i]) == key {
        var k := Elsewhere(a, b, i);
      } else {
        forall k | 0 <= k < |b| ensures KeyName(b[k]) != key {
          var i := Elsewhere(b, a, k);
        }
      }
    }
    LastTextsDecide(t, strict, ram, job, a, b);
  }

  // ---- the same for files ----

  /** Files of well-formed records that agree on the last text of every known key decode to the same. */
  lemma LastTextsInFile(
    t: Type, strict: bool, ram: HumanUnits, job: Node, prefix: string, rs: seq<RawRecord>, h: JobAttrHeader,
    prefix': string, rs': seq<RawRecord>, h': JobAttrHeader, rest: string)
    requires GoodType(t) && HasType(job, t)
    requires AllWellFormed(rs) && h.length == END_FLAG && |prefix| == START_POS - HEADER_SIZE
    requires AllWellFormed(rs') && h'.length == END_FLAG && |prefix'| == START_POS - HEADER_SIZE
    requires forall key :: key in JobConfig(t, strict, ram).cache ==>
               LastText(AttrsOf(rs), key) == LastText(AttrsOf(rs'), key)
    ensures var one := DecodeFile(JobConfig(t, strict, ram), job, File(prefix, rs, h, rest));
            var other := DecodeFile(JobConfig(t, strict, ram), job, File(prefix', rs', h', rest));
            one.0.Accepted? && other.0.Accepted? ==> one == other
  {
    var c := JobConfig(t, strict, ram);
    hide AllWellFormed, AttrsOf, AssignAll, LastText, DecodeFile, File, GoodType, HasType, JobConfig, TableFits;
    DecodeFileIsFold(c, job, prefix, rs, h, rest);
    DecodeFileIsFold(c, job, prefix', rs', h', rest);
    if AssignAll(c, job, AttrsOf(rs)).0.None? && AssignAll(c, job, AttrsOf(rs')).0.None? {
      LastTextsDecide(t, strict, ram, job, AttrsOf(rs), AttrsOf(rs'));
    }
  }

  lemma AttrsPermuted(rs: seq<RawRecord>, rs': seq<RawRecord>)
    requires multiset(rs) == multiset(rs') && AllWellFormed(rs)
    ensures multiset(AttrsOf(rs)) == multiset(AttrsOf(rs')) && AllWellFormed(rs')
  {
    hide WellFormed, AttrOf;
    var attr := (r: RawRecord) => AttrOf(r);
    ImagesUnordered(rs, rs', attr);
    assert AttrsOf(rs) == Images(rs, attr) && AttrsOf(rs') == Images(rs', attr);
    forall k | 0 <= k < |rs'| ensures WellFormed(rs'[k]) {
      var i := Elsewhere(rs', rs, k);
    }
  }

  /** Permuting records of distinct keys gives a file that decodes to the same, or is rejected like the first. */
  lemma PermutedFile(
    t: Type, strict: bool, ram: HumanUnits, job: Node, prefix: string, rs: seq<RawRecord>, h: JobAttrHeader,
    prefix': string, rs': seq<RawRecord>, h': JobAttrHeader, rest: string)
    requires GoodType(t) && HasType(job, t)
    requires AllWellFormed(rs) && h.length == END_FLAG && |prefix| == START_POS - HEADER_SIZE
    requires h'.length == END_FLAG && |prefix'| == START_POS - HEADER_SIZE
    requires DistinctKeys(AttrsOf(rs)) && multiset(rs) == multiset(rs')
    ensures var one := DecodeFile(JobConfig(t, strict, ram), job, File(prefix, rs, h, rest));
            var other := DecodeFile(JobConfig(t, strict, ram), job, File(prefix', rs', h', rest));
            one == other || (one.0.Rejected? && other.0.Rejected?)
  {
    var c, a, b := JobConfig(t, strict, ram), AttrsOf(rs), AttrsOf(rs');
    hide AllWellFormed, AttrsOf, AssignAll, DecodeFile, File, GoodType, HasType, JobConfig, TableFits, DistinctKeys;
    AttrsPermuted(rs, rs');
    DistinctPermuted(a, b);
    DecodeFileIsFold(c, job, prefix, rs, h, rest);
    DecodeFileIsFold(c, job, prefix', rs', h', rest);
    if AssignAll(c, job, a).0.None? {
      PermutedRecords(t, strict, ram, job, a, b);
    } else if AssignAll(c, job, b).0.None? {
      PermutedRecords(t, strict, ram, job, b, a);
    }
  }

  lemma AttrsJoined(a: seq<RawRecord>, b: seq<RawRecord>)
    requires AllWellFormed(a) && AllWellFormed(b)
    ensures AttrsOf(a + b) == AttrsOf(a) + AttrsOf(b) && AllWellFormed(a + b)
  {
    hide AttrOf, WellFormed, AttrsOf;
  }

  lemma AttrsAround(a: seq<RawRecord>, r: RawRecord, b: seq<RawRecord>)
    requires AllWellFormed(a) && WellFormed(r) && AllWellFormed(b)
    ensures AttrsOf(a + [r] + b) == AttrsOf(a) + [AttrOf(r)] + AttrsOf(b) && AllWellFormed(a + [r] + b)
  {
    hide AttrOf, WellFormed, AttrsOf;
    AttrsJoined(a, [r]);
    AttrsJoined(a + [r], b);
  }

  /** Without strict mode, a record of an unknown key can be put anywhere into a file or dropped from it. */
  lemma UnknownInFile(
    c: Config, job: Node, prefix: string, a: seq<RawRecord>, unknown: RawRecord, b: seq<RawRecord>,
    h: JobAttrHeader, rest: string)
    requires TableFits(c) && HasType(job, c.typ) && !c.strict && KeyName(AttrOf(unknown)) !in c.cache
    requires AllWellFormed(a) && WellFormed(unknown) && AllWellFormed(b)
    requires h.length == END_FLAG && |prefix| == START_POS - HEADER_SIZE
    ensures DecodeFile(c, job, File(prefix, a + [unknown] + b, h, rest))
         == DecodeFile(c, job, File(prefix, a + b, h, rest))
  {
    hide AllWellFormed, AttrsOf, WellFormed, AttrOf, AssignAll, DecodeFile, File, HasType;
    AttrsAround(a, unknown, b);
    AttrsJoined(a, b);
    UnknownIgnored(c, job, AttrsOf(a), AttrOf(unknown), AttrsOf(b));
    DecodeFileIsFold(c, job, prefix, a + [unknown] + b, h, rest);
    DecodeFileIsFold(c, job, prefix, a + b, h, rest);
  }
}
