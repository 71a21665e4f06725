/** What survives encoding and decoding a whole job, and that what was decoded once survives. */
module RoundTrip {
  import opened Wrappers
  import opened GoStrings
  import opened Reflect
  import opened JobFile
  import opened Layout
  import opened Utils
  import opened Decode
  import opened Records
  import opened Values
  import opened Codec
  import E = Encode

  // ---- the encoded job ----

  lemma JobEncodable(t: Type, job: Node)
    requires GoodType(t) && HasType(job, t)
    ensures E.Encodable(Stored(map[], Leaves(t)), Keys(Leaves(t)), job)
  {
    KeyTable(t);
    forall i | 0 <= i < |Leaves(t)|
      ensures E.LeadsToLeaf(job, Stored(map[], Leaves(t))[Keys(Leaves(t))[i]].index)
    {
      TypedField(job, t, Leaves(t)[i].index);
    }
  }

  function JobAttrs(t: Type, job: Node): (attrs: seq<Attr>)
    requires GoodType(t) && HasType(job, t)
    ensures |attrs| == |Leaves(t)|
  {
    JobEncodable(t, job);
    E.Attrs(Stored(map[], Leaves(t)), Keys(Leaves(t)), job)
  }

  /** The bytes `Marshal` writes for a job of type `t`. */
  function Marshalled(t: Type, job: Node): string
    requires GoodType(t) && HasType(job, t)
  {
    E.JobFileBytes(JobAttrs(t, job))
  }

  function LeafValue(t: Type, job: Node, i: nat): (v: Value)
    requires GoodType(t) && HasType(job, t) && i < |Leaves(t)|
    ensures FieldByIndex(job, Leaves(t)[i].index) == Some(LeafNode(Leaves(t)[i].kind, v))
    ensures WellTyped(Leaves(t)[i].kind, v)
  {
    KeyTable(t);
    TypedField(job, t, Leaves(t)[i].index);
    FieldByIndex(job, Leaves(t)[i].index).value.value
  }

  lemma JobAttrAt(t: Type, job: Node, i: nat)
    requires GoodType(t) && HasType(job, t) && i < |Leaves(t)|
    ensures var leaf := Leaves(t)[i];
            JobAttrs(t, job)[i]
            == Attr(KeyOf(leaf).name, KeyOf(leaf).resource, E.Text(LeafValue(t, job, i), leaf.separator))
  {
    KeyTable(t);
    JobEncodable(t, job);
  }

  /** Every value of the job is one the format carries. */
  predicate InDomain(t: Type, job: Node)
    requires GoodType(t) && HasType(job, t)
  {
    forall i :: 0 <= i < |Leaves(t)| ==> CarriedLeaf(t, job, i)
  }

  predicate CarriedLeaf(t: Type, job: Node, i: nat)
    requires GoodType(t) && HasType(job, t) && i < |Leaves(t)|
  {
    Carried(LeafValue(t, job, i), Leaves(t)[i].separator)
  }

  /** Every record length fits the header. */
  predicate FitsFile(t: Type, job: Node)
    requires GoodType(t) && HasType(job, t)
  {
    forall i :: 0 <= i < |Leaves(t)| ==> E.FitsRecord(JobAttrs(t, job)[i])
  }

  /** No field name starts or ends with NUL. */
  predicate CleanNames(t: Type)
    requires GoodType(t)
  {
    forall i :: 0 <= i < |Leaves(t)| ==>
      IsTrimmed(KeyOf(Leaves(t)[i]).name, {NUL}) && IsTrimmed(KeyOf(Leaves(t)[i]).resource, {NUL})
  }

  /** No field name is longer than twenty characters. */
  predicate ShortNames(t: Type)
    requires GoodType(t)
  {
    forall i :: 0 <= i < |Leaves(t)| ==> |KeyOf(Leaves(t)[i]).name| <= 20 && |KeyOf(Leaves(t)[i]).resource| <= 20
  }

  predicate SimpleType(t: Type)
    requires t.Struct?
  {
    forall i :: 0 <= i < |Leaves(t)| ==> Simple(Leaves(t)[i].kind)
  }

  // ---- decoding the encoded job ----

  function RawsOf(attrs: seq<Attr>): (rs: seq<RawRecord>)
    ensures |rs| == |attrs| && forall i :: 0 <= i < |rs| ==> rs[i] == RawOf(attrs[i])
  {
    if attrs == [] then [] else [RawOf(attrs[0])] + RawsOf(attrs[1..])
  }

  predicate Writable(a: Attr) {
    E.FitsRecord(a) && IsTrimmed(a.name, {NUL}) && IsTrimmed(a.resource, {NUL})
  }

  /** The attribute a reader gets from the record written for `a`. */
  function AsRead(a: Attr): Attr { a.(value := TrimNul(a.value)) }

  lemma {:induction false} RecordsAreRaw(attrs: seq<Attr>)
    requires forall i :: 0 <= i < |attrs| ==> Writable(attrs[i])
    ensures E.Records(attrs) == AllBytes(RawsOf(attrs)) && AllWellFormed(RawsOf(attrs))
    ensures forall i :: 0 <= i < |attrs| ==> AttrsOf(RawsOf(attrs))[i] == AsRead(attrs[i])
  {
    hide E.RecordBytes, RawBytes, WellFormed, AttrOf, RawOf, E.FitsRecord, TrimNul;
    if attrs == [] {
    } else {
      forall i | 0 <= i < |attrs[1..]| ensures Writable(attrs[1..][i]) {
        assert attrs[1..][i] == attrs[i + 1];
      }
      RecordsAreRaw(attrs[1..]);
      EncodedRecord(attrs[0]);
      var rs := RawsOf(attrs);
      assert rs[1..] == RawsOf(attrs[1..]);
      forall i | 0 <= i < |attrs| ensures WellFormed(rs[i]) && AttrsOf(rs)[i] == AsRead(attrs[i]) {
        if i > 0 {
          assert rs[i] == rs[1..][i - 1] && attrs[i] == attrs[1..][i - 1];
          assert AttrsOf(rs[1..])[i - 1] == AttrOf(rs[i]);
        }
      }
    }
  }

  const END_HEADER := JobAttrHeader(END_FLAG, 0, 0, 0, 0, 0)

  lemma EncodedIsFile(attrs: seq<Attr>)
    requires forall i :: 0 <= i < |attrs| ==> Writable(attrs[i])
    ensures E.JobFileBytes(attrs) == File(E.FILE_PREFIX, RawsOf(attrs), END_HEADER, "")
    ensures AllWellFormed(RawsOf(attrs))
  {
    RecordsAreRaw(attrs);
    hide E.Records, AllBytes, HeaderBytes, Repeat;
    assert HeaderBytes(END_HEADER) + "" == E.END_MARKER;
  }

  function AsReadAll(attrs: seq<Attr>): (r: seq<Attr>)
    ensures |r| == |attrs| && forall i :: 0 <= i < |r| ==> r[i] == AsRead(attrs[i])
  {
    seq(|attrs|, i requires 0 <= i < |attrs| => AsRead(attrs[i]))
  }

  /** Decoding an encoded job assigns every leaf from its own text. */
  lemma DecodeMarshalled(t: Type, strict: bool, ram: HumanUnits, job: Node, job0: Node)
    requires GoodType(t) && CleanNames(t) && HasType(job, t) && HasType(job0, t) && FitsFile(t, job)
    ensures DecodeFile(JobConfig(t, strict, ram), job0, Marshalled(t, job))
         == Verdict(AssignAll(JobConfig(t, strict, ram), job0, AsReadAll(JobAttrs(t, job))), "")
  {
    var c, attrs := JobConfig(t, strict, ram), JobAttrs(t, job);
    forall i | 0 <= i < |attrs| ensures Writable(attrs[i]) {
      JobAttrAt(t, job, i);
    }
    EncodedIsFile(attrs);
    RecordsAreRaw(attrs);
    hide DecodeFile, AssignAll, File, JobAttrs, RawsOf;
    assert AttrsOf(RawsOf(attrs)) == AsReadAll(attrs);
    DecodeFileIsFold(c, job0, E.FILE_PREFIX, RawsOf(attrs), END_HEADER, "");
  }

  /** The text of leaf `i`, parsed as the decoder parses it. */
  function ReadBack(t: Type, ram: HumanUnits, job: Node, i: nat): Option<Value>
    requires GoodType(t) && HasType(job, t) && i < |Leaves(t)|
  {
    var leaf := Leaves(t)[i];
    ParseValue(ram, leaf.kind, TrimNul(E.Text(LeafValue(t, job, i), leaf.separator)), leaf.separator)
  }

  lemma LeafRead(t: Type, strict: bool, ram: HumanUnits, job: Node, i: nat)
    requires GoodType(t) && HasType(job, t) && i < |Leaves(t)|
    ensures var c, key, attrs := JobConfig(t, strict, ram), KeyOf(Leaves(t)[i]), AsReadAll(JobAttrs(t, job));
            && key in c.cache && LeafAt(c, key) && KeyName(attrs[i]) == key
            && c.cache[key] == MapValueOf(Leaves(t)[i]) && KindOf(c, key) == Leaves(t)[i].kind
            && ParseValue(ram, KindOf(c, key), attrs[i].value, c.cache[key].separator) == ReadBack(t, ram, job, i)
            && DistinctKeys(attrs)
  {
    KeyTable(t);
    JobAttrAt(t, job, i);
    assert Keys(Leaves(t))[i] == KeyOf(Leaves(t)[i]);
    var attrs := AsReadAll(JobAttrs(t, job));
    forall a, b | 0 <= a < b < |attrs| ensures KeyName(attrs[a]) != KeyName(attrs[b]) {
      JobAttrAt(t, job, a);
      JobAttrAt(t, job, b);
    }
  }

  /** Decoding succeeds exactly when every leaf reads back, and then each leaf is what it reads back as. */
  lemma MarshalledFold(t: Type, strict: bool, ram: HumanUnits, job: Node, job0: Node)
    requires GoodType(t) && HasType(job, t) && HasType(job0, t)
    ensures var (e, after) := AssignAll(JobConfig(t, strict, ram), job0, AsReadAll(JobAttrs(t, job)));
            && (e.None? <==> forall i :: 0 <= i < |Leaves(t)| ==> ReadBack(t, ram, job, i).Some?)
            && (e.None? ==> forall i :: 0 <= i < |Leaves(t)| ==>
                  ReadBack(t, ram, job, i) == Some(LeafValue(t, after, i)))
  {
    var c, attrs := JobConfig(t, strict, ram), AsReadAll(JobAttrs(t, job));
    FoldSucceeds(c, job0, attrs);
    hide Leaves, JobConfig, AssignAll, ReadBack, JobAttrs, ParseValue;
    forall i | 0 <= i < |Leaves(t)| ensures Assignable(c, attrs[i]) <==> ReadBack(t, ram, job, i).Some? {
      LeafRead(t, strict, ram, job, i);
    }
    var after := AssignAll(c, job0, attrs).1;
    if AssignAll(c, job0, attrs).0.None? {
      forall i | 0 <= i < |Leaves(t)| ensures ReadBack(t, ram, job, i) == Some(LeafValue(t, after, i)) {
        LeafRead(t, strict, ram, job, i);
        LastTextDistinct(attrs, KeyOf(Leaves(t)[i]));
        FoldFields(c, job0, attrs, KeyOf(Leaves(t)[i]));
      }
    }
  }

  /** Every text the encoder writes for a simple value parses, though perhaps as another value. */
  lemma SimpleReadsBack(t: Type, ram: HumanUnits, job: Node, i: nat)
    requires GoodType(t) && HasType(job, t) && i < |Leaves(t)| && Simple(Leaves(t)[i].kind)
    ensures ReadBack(t, ram, job, i).Some?
  {
    var leaf, v := Leaves(t)[i], LeafValue(t, job, i);
    hide Leaves, GoodType;
    SimpleParses(ram, leaf.kind, v, leaf.separator);
  }

  /** Whatever the values of a job of a simple type, its file assigns all of them. */
  lemma MarshalledAssigns(t: Type, strict: bool, ram: HumanUnits, job: Node, job0: Node)
    requires GoodType(t) && HasType(job, t) && HasType(job0, t) && (SimpleType(t) || InDomain(t, job))
    ensures AssignAll(JobConfig(t, strict, ram), job0, AsReadAll(JobAttrs(t, job))).0.None?
  {
    MarshalledFold(t, strict, ram, job, job0);
    hide AssignAll, JobAttrs, JobConfig, Leaves;
    forall i | 0 <= i < |Leaves(t)| ensures ReadBack(t, ram, job, i).Some? {
      if SimpleType(t) {
        SimpleReadsBack(t, ram, job, i);
      } else {
        assert CarriedLeaf(t, job, i);
        ParseText(ram, Leaves(t)[i].kind, LeafValue(t, job, i), Leaves(t)[i].separator);
      }
    }
  }

  lemma SameLeafValues(t: Type, m: Node, n: Node)
    requires GoodType(t) && HasType(m, t) && HasType(n, t)
    requires forall i :: 0 <= i < |Leaves(t)| ==> LeafValue(t, m, i) == LeafValue(t, n, i)
    ensures m == n
  {
    forall i | 0 <= i < |Leaves(t)|
      ensures FieldByIndex(m, Leaves(t)[i].index) == FieldByIndex(n, Leaves(t)[i].index)
    {
      assert LeafValue(t, m, i) == LeafValue(t, n, i);
    }
    hide Leaves;
    SameLeavesSameValue(t, m, n);
  }

  /**
   Round trip: a job whose values the format carries comes back from its own file, whatever
   job it is decoded into, in strict mode too.
   */
  lemma RoundTrips(t: Type, strict: bool, ram: HumanUnits, job: Node, job0: Node)
    requires GoodType(t) && CleanNames(t) && HasType(job, t) && HasType(job0, t) && FitsFile(t, job)
    requires InDomain(t, job)
    ensures DecodeFile(JobConfig(t, strict, ram), job0, Marshalled(t, job)) == (Accepted(""), job)
  {
    DecodeMarshalled(t, strict, ram, job, job0);
    MarshalledFold(t, strict, ram, job, job0);
    hide AssignAll, DecodeFile, Marshalled, JobAttrs, JobConfig, Leaves;
    forall i | 0 <= i < |Leaves(t)| ensures ReadBack(t, ram, job, i) == Some(LeafValue(t, job, i)) {
      assert CarriedLeaf(t, job, i);
      ParseText(ram, Leaves(t)[i].kind, LeafValue(t, job, i), Leaves(t)[i].separator);
    }
    SameLeafValues(t, AssignAll(JobConfig(t, strict, ram), job0, AsReadAll(JobAttrs(t, job))).1, job);
  }

  /** For the kinds `Job` uses, the job comes back exactly when the format carries all its values. */
  lemma RoundTripsExactly(t: Type, strict: bool, ram: HumanUnits, job: Node, job0: Node)
    requires GoodType(t) && CleanNames(t) && HasType(job, t) && HasType(job0, t) && FitsFile(t, job)
    requires SimpleType(t)
    ensures DecodeFile(JobConfig(t, strict, ram), job0, Marshalled(t, job)) == (Accepted(""), job) <==> InDomain(t, job)
  {
    if InDomain(t, job) {
      RoundTrips(t, strict, ram, job, job0);
    } else if DecodeFile(JobConfig(t, strict, ram), job0, Marshalled(t, job)) == (Accepted(""), job) {
      DecodeMarshalled(t, strict, ram, job, job0);
      MarshalledFold(t, strict, ram, job, job0);
      hide AssignAll, DecodeFile, Marshalled, JobAttrs, JobConfig, Leaves, ParseValue;
      forall i | 0 <= i < |Leaves(t)| ensures CarriedLeaf(t, job, i) {
        CarriedExactly(ram, Leaves(t)[i].kind, LeafValue(t, job, i), Leaves(t)[i].separator);
      }
    }
  }

  // ---- normal form ----

  /** What is asked of the value of leaf `i`. */
  type LeafTest = (nat, Value) -> bool

  /** Every leaf of the job passes. */
  ghost predicate Passes(t: Type, job: Node, test: LeafTest)
    requires GoodType(t) && HasType(job, t)
  {
    forall i :: 0 <= i < |Leaves(t)| ==> test(i, LeafValue(t, job, i))
  }

  /** Whatever a trimmed text of at most `bound` characters parses to passes. */
  ghost predicate ParsedPass(t: Type, ram: HumanUnits, test: LeafTest, bound: int)
    requires GoodType(t)
  {
    forall i, text ::
      0 <= i < |Leaves(t)| && IsTrimmed(text, {NUL}) && |text| <= bound ==> ParsedPassesAt(t, ram, test, i, text)
  }

  predicate ParsedPassesAt(t: Type, ram: HumanUnits, test: LeafTest, i: nat, text: string)
    requires GoodType(t) && i < |Leaves(t)|
  {
    var v := ParseValue(ram, Leaves(t)[i].kind, text, Leaves(t)[i].separator);
    v.Some? ==> test(i, v.value)
  }

  lemma AssignKeepsLeaf(
    t: Type, strict: bool, ram: HumanUnits, job: Node, a: Attr, i: nat, test: LeafTest, bound: int)
    requires GoodType(t) && HasType(job, t) && IsTrimmed(a.value, {NUL}) && |a.value| <= bound
    requires i < |Leaves(t)| && test(i, LeafValue(t, job, i)) && ParsedPass(t, ram, test, bound)
    requires AssignAttr(JobConfig(t, strict, ram), job, a).Assigned?
    ensures test(i, LeafValue(t, AssignAttr(JobConfig(t, strict, ram), job, a).job, i))
  {
    hide AssignAttr, Leaves, JobConfig, ParseValue, DistinctNames;
    var c := JobConfig(t, strict, ram);
    var key := KeyOf(Leaves(t)[i]);
    LeafRead(t, strict, ram, job, i);
    AssignOne(c, job, a, key);
    assert ParsedPassesAt(t, ram, test, i, a.value);
  }

  lemma AssignKeeps(t: Type, strict: bool, ram: HumanUnits, job: Node, a: Attr, test: LeafTest, bound: int)
    requires GoodType(t) && HasType(job, t) && IsTrimmed(a.value, {NUL}) && |a.value| <= bound
    requires Passes(t, job, test) && ParsedPass(t, ram, test, bound)
    requires AssignAttr(JobConfig(t, strict, ram), job, a).Assigned?
    ensures Passes(t, AssignAttr(JobConfig(t, strict, ram), job, a).job, test)
  {
    hide AssignAttr, Leaves, JobConfig, DistinctNames, ParsedPass;
    var after := AssignAttr(JobConfig(t, strict, ram), job, a).job;
    forall i | 0 <= i < |Leaves(t)| ensures test(i, LeafValue(t, after, i)) {
      AssignKeepsLeaf(t, strict, ram, job, a, i, test, bound);
    }
  }

  /** Whatever the stream and however decoding ends, a job that passes still does. */
  lemma {:induction false} DecodeLoopKeeps(
    t: Type, strict: bool, ram: HumanUnits, job: Node, last: Attr, s: string, test: LeafTest, bound: int)
    requires GoodType(t) && HasType(job, t) && Passes(t, job, test) && ParsedPass(t, ram, test, bound)
    requires IsTrimmed(last.value, {NUL}) && |last.value| <= bound && |s| <= bound
    ensures Passes(t, DecodeLoop(JobConfig(t, strict, ram), job, last, s).1, test)
    decreases |s|
  {
    var c := JobConfig(t, strict, ram);
    hide ReadRecord, Passes, ParsedPass, AssignAttr, JobConfig, GoodType;
    match ReadRecord(s) {
      case CleanEnd =>
        if AssignAttr(c, job, last).Assigned? {
          AssignKeeps(t, strict, ram, job, last, test, bound);
        }
      case Read(a, rest) =>
        ReadIsTrimmed(s);
        ReadIsShort(s);
        if AssignAttr(c, job, a).Assigned? {
          AssignKeeps(t, strict, ram, job, a, test, bound);
          DecodeLoopKeeps(t, strict, ram, AssignAttr(c, job, a).job, a, rest, test, bound);
        }
      case _ =>
    }
  }

  lemma ReadIsTrimmed(s: string)
    requires ReadRecord(s).Read?
    ensures IsTrimmed(ReadRecord(s).attr.value, {NUL})
  {
    hide FillFrom, ReadHeader, Seek;
  }

  lemma ReadIsShort(s: string)
    requires ReadRecord(s).Read?
    ensures |ReadRecord(s).attr.value| <= |s|
  {
    hide ReadHeader, Seek, Trim;
    var h := ReadHeader(s[..HEADER_SIZE]);
    var name := FillFrom(h.name, s[HEADER_SIZE..]);
    var resource := FillFrom(h.resource, name.rest);
    var value := FillFrom(h.value, resource.rest);
    TrimShortens(DropLast(value.text), {NUL});
  }

  /** The format carries the value of the leaf. */
  function CarriedTest(t: Type): LeafTest
    requires GoodType(t)
  {
    var leaves := Leaves(t);
    (i: nat, v: Value) => i < |leaves| ==> Carried(v, leaves[i].separator)
  }

  lemma DomainIsTest(t: Type, job: Node)
    requires GoodType(t) && HasType(job, t)
    ensures InDomain(t, job) <==> Passes(t, job, CarriedTest(t))
  {
    hide Leaves, DistinctNames, Carried, LeafValue, HasType;
    if InDomain(t, job) {
      forall i | 0 <= i < |Leaves(t)| ensures CarriedTest(t)(i, LeafValue(t, job, i)) {
        assert CarriedLeaf(t, job, i);
      }
    }
    if Passes(t, job, CarriedTest(t)) {
      forall i | 0 <= i < |Leaves(t)| ensures CarriedLeaf(t, job, i) {
        assert CarriedTest(t)(i, LeafValue(t, job, i));
      }
    }
  }

  lemma ParsedPassCarried(t: Type, ram: HumanUnits, bound: int)
    requires GoodType(t) && SimpleType(t)
    ensures ParsedPass(t, ram, CarriedTest(t), bound)
  {
    hide Leaves, DistinctNames, Carried, ParseValue;
    forall i, text | 0 <= i < |Leaves(t)| && IsTrimmed(text, {NUL}) && |text| <= bound
      ensures ParsedPassesAt(t, ram, CarriedTest(t), i, text)
    {
      if ParseValue(ram, Leaves(t)[i].kind, text, Leaves(t)[i].separator).Some? {
        ParsedIsCarried(ram, Leaves(t)[i].kind, text, Leaves(t)[i].separator);
      }
    }
  }

  lemma ZeroInDomain(t: Type)
    requires GoodType(t)
    ensures InDomain(t, Zero(t))
  {
    hide Leaves, DistinctNames, Carried;
    KeyTable(t);
    forall i | 0 <= i < |Leaves(t)| ensures CarriedLeaf(t, Zero(t), i) {
      ZeroAt(t, Leaves(t)[i].index, Leaves(t)[i].kind);
      ZeroCarried(Leaves(t)[i].kind, Leaves(t)[i].separator);
    }
  }

  lemma ZeroCarried(k: Kind, separator: char)
    ensures Carried(ZeroValue(k), separator)
  {
  }

  lemma {:induction false} ZeroAt(t: Type, path: seq<nat>, k: Kind)
    requires TypeAt(t, path) == Some(Leaf(k))
    ensures FieldByIndex(Zero(t), path) == Some(LeafNode(k, ZeroValue(k)))
    decreases path
  {
    if path == [] {
    } else {
      ZeroAt(t.fields[path[0]].typ, path[1..], k);
    }
  }

  /** Every job decoded from any file into a job of the round-trip domain, such as an empty one, lies in the domain. */
  lemma DecodedInDomain(t: Type, strict: bool, ram: HumanUnits, start: Node, data: string)
    requires GoodType(t) && SimpleType(t) && HasType(start, t)
    requires InDomain(t, start) || start == Zero(t)
    ensures InDomain(t, DecodeFile(JobConfig(t, strict, ram), start, data).1)
  {
    hide GoodType, SimpleType, InDomain, Passes, ParsedPass, CarriedTest, DecodeLoop, JobConfig;
    ZeroInDomain(t);
    DomainIsTest(t, start);
    DomainIsTest(t, DecodeFile(JobConfig(t, strict, ram), start, data).1);
    ParsedPassCarried(t, ram, |data|);
    if |data| >= START_POS - HEADER_SIZE {
      DecodeLoopKeeps(t, strict, ram, start, NO_ATTR, data[START_POS - HEADER_SIZE..], CarriedTest(t), |data|);
    }
  }

  /** Decoding, encoding and decoding again gives what the first decoding gave. */
  lemma DecodeIsNormal(t: Type, strict: bool, ram: HumanUnits, start: Node, data: string, job0: Node)
    requires GoodType(t) && CleanNames(t) && SimpleType(t) && HasType(start, t) && HasType(job0, t)
    requires InDomain(t, start) || start == Zero(t)
    requires FitsFile(t, DecodeFile(JobConfig(t, strict, ram), start, data).1)
    ensures var job := DecodeFile(JobConfig(t, strict, ram), start, data).1;
            DecodeFile(JobConfig(t, strict, ram), job0, Marshalled(t, job)) == (Accepted(""), job)
  {
    DecodedInDomain(t, strict, ram, start, data);
    RoundTrips(t, strict, ram, DecodeFile(JobConfig(t, strict, ram), start, data).1, job0);
  }
}
