/** Which files decoding accepts, and how it ends on files cut short. */
module Acceptance {
  import opened Wrappers
  import opened GoStrings
  import opened Strconv
  import opened Reflect
  import opened JobFile
  import opened Layout
  import opened Utils
  import opened Decode
  import opened Records
  import opened Codec
  import opened RoundTrip
  import E = Encode

  // ---- a decoded file is prefix-free ----

  /** An accepted stream stays accepted, with the same job, when data follows it. */
  lemma {:induction false} AcceptedExtends(c: Config, job: Node, last: Attr, s: string, q: string)
    requires TableFits(c) && HasType(job, c.typ)
    requires DecodeLoop(c, job, last, s).0.Accepted?
    ensures DecodeLoop(c, job, last, s + q)
         == (Accepted(DecodeLoop(c, job, last, s).0.rest + q), DecodeLoop(c, job, last, s).1)
    decreases |s|
  {
    hide ReadRecord, AssignAttr;
    ReadRecordExtends(s, q);
    match ReadRecord(s) {
      case Read(a, rest) => AcceptedExtends(c, AssignAttr(c, job, a).job, a, rest, q);
      case _ =>
    }
  }

  lemma AcceptedFileExtends(c: Config, job: Node, data: string, q: string)
    requires TableFits(c) && HasType(job, c.typ) && DecodeFile(c, job, data).0.Accepted?
    ensures DecodeFile(c, job, data + q)
         == (Accepted(DecodeFile(c, job, data).0.rest + q), DecodeFile(c, job, data).1)
    ensures q != "" ==> DecodeFile(c, job, data + q).0 != Accepted("")
  {
    hide DecodeLoop;
    var start := START_POS - HEADER_SIZE;
    assert (data + q)[start..] == data[start..] + q;
    AcceptedExtends(c, job, NO_ATTR, data[start..], q);
    assert |DecodeFile(c, job, data).0.rest + q| >= |q|;
  }

  /** No strict prefix of a file that is accepted whole is accepted. */
  lemma NoStrictPrefixAccepted(c: Config, job: Node, data: string, n: nat)
    requires TableFits(c) && HasType(job, c.typ)
    requires DecodeFile(c, job, data).0 == Accepted("") && n < |data|
    ensures !DecodeFile(c, job, data[..n]).0.Accepted?
  {
    hide DecodeFile;
    assert data[..n] + data[n..] == data && |data[n..]| > 0;
    if DecodeFile(c, job, data[..n]).0.Accepted? {
      AcceptedFileExtends(c, job, data[..n], data[n..]);
      assert false;
    }
  }

  // ---- where decoding stops ----

  lemma NoRecords()
    ensures AllBytes([]) == "" && AllWellFormed([]) && AttrsOf([]) == []
  {
  }

  lemma NoneRun(c: Config, job: Node)
    requires TableFits(c) && HasType(job, c.typ)
    ensures AllBytes([]) == "" && AssignAll(c, job, AttrsOf([])) == (None, job)
  {
  }

  lemma FormedTail(rs: seq<RawRecord>)
    requires AllWellFormed(rs) && rs != []
    ensures WellFormed(rs[0]) && AllWellFormed(rs[1..])
  {
    hide WellFormed;
  }

  /** Records that all assign bring decoding to whatever follows them. */
  lemma {:induction false} RecordsRun(c: Config, job: Node, last: Attr, rs: seq<RawRecord>, tail: string)
    requires TableFits(c) && HasType(job, c.typ) && AllWellFormed(rs) && AssignAll(c, job, AttrsOf(rs)).0.None?
    ensures DecodeLoop(c, job, last, AllBytes(rs) + tail)
         == DecodeLoop(c, AssignAll(c, job, AttrsOf(rs)).1, if rs == [] then last else AttrOf(rs[|rs| - 1]), tail)
    decreases |rs|
  {
    hide AssignAttr, RawBytes, WellFormed, AttrsOf, AttrOf, DecodeLoop, AllWellFormed, AllBytes, AssignAll;
    if rs == [] {
      NoneRun(c, job);
      assert AllBytes(rs) + tail == tail;
    } else {
      FormedTail(rs);
      ConsBytes(rs, tail);
      LoopOverRecord(c, job, last, rs[0], AllBytes(rs[1..]) + tail);
      FoldCons(c, job, rs);
      var a := AttrOf(rs[0]);
      RecordsRun(c, AssignAttr(c, job, a).job, a, rs[1..], tail);
    }
  }

  lemma RestIsBytes(s: string, rest: string)
    requires ReadRecord(s).Read? && rest == ReadRecord(s).rest && IsBytes(s)
    ensures IsBytes(rest)
  {
    hide ReadRecord, RawBytes, WellFormed;
    var r := ReadIsRaw(s);
    forall i | 0 <= i < |rest| ensures rest[i] as int < 0x100 {
      assert rest[i] == s[|RawBytes(r)| + i];
    }
  }

  lemma ConsShape(c: Config, job: Node, r: RawRecord, more: seq<RawRecord>)
    requires TableFits(c) && HasType(job, c.typ) && WellFormed(r) && AllWellFormed(more)
    requires AssignAttr(c, job, AttrOf(r)).Assigned?
    requires AssignAll(c, AssignAttr(c, job, AttrOf(r)).job, AttrsOf(more)).0.None?
    ensures AllWellFormed([r] + more) && AssignAll(c, job, AttrsOf([r] + more)).0.None?
    ensures AllBytes([r] + more) == RawBytes(r) + AllBytes(more)
  {
    hide AssignAttr, RawBytes, WellFormed, AttrOf;
    assert ([r] + more)[1..] == more;
    assert AttrsOf([r] + more) == [AttrOf(r)] + AttrsOf(more);
    assert ([AttrOf(r)] + AttrsOf(more))[1..] == AttrsOf(more);
  }

  /** How decoding ends on a step that is no record. */
  function EndOf(step: Step): Outcome {
    match step
    case Marker(rest) => Accepted(rest)
    case CleanEnd => Loops
    case _ => Panicked
  }

  predicate Ends(step: Step) { step.Marker? || step.CleanEnd? || step.Panics? }

  /** Where decoding is not rejected, it has read well-formed records that all assign, and stands at its end. */
  lemma {:induction false} StopsAt(c: Config, job: Node, last: Attr, s: string)
    returns (rs: seq<RawRecord>, tail: string)
    requires TableFits(c) && HasType(job, c.typ) && IsBytes(s) && !DecodeLoop(c, job, last, s).0.Rejected?
    ensures AllWellFormed(rs) && AssignAll(c, job, AttrsOf(rs)).0.None? && s == AllBytes(rs) + tail && IsBytes(tail)
    ensures Ends(ReadRecord(tail)) && DecodeLoop(c, job, last, s).0 == EndOf(ReadRecord(tail))
    decreases |s|
  {
    hide AssignAttr, ReadRecord, RawBytes, AllWellFormed, AllBytes, AttrsOf, IsBytes, DecodeLoop;
    hide TableFits, HasType, AssignAll, WellFormed, AttrOf, Ends, EndOf;
    OneStep(c, job, last, s);
    if ReadRecord(s).Read? {
      var a, rest := ReadRecord(s).attr, ReadRecord(s).rest;
      var r := ReadIsRaw(s);
      RestIsBytes(s, rest);
      var more;
      more, tail := StopsAt(c, AssignAttr(c, job, a).job, a, rest);
      rs := [r] + more;
      ConsShape(c, job, r, more);
      Regroup3(RawBytes(r), AllBytes(more), tail);
    } else {
      rs, tail := [], s;
      NoRecords();
      NothingAssigned(c, job);
      assert AllBytes(rs) + tail == tail;
    }
  }

  lemma NothingAssigned(c: Config, job: Node)
    requires TableFits(c) && HasType(job, c.typ)
    ensures AssignAll(c, job, AttrsOf([])).0.None?
  {
  }

  lemma Regroup3(a: string, b: string, c: string)
    ensures a + (b + c) == (a + b) + c
  {
  }

  lemma OneStep(c: Config, job: Node, last: Attr, s: string)
    requires TableFits(c) && HasType(job, c.typ) && !DecodeLoop(c, job, last, s).0.Rejected?
    ensures !ReadRecord(s).Read? ==> Ends(ReadRecord(s)) && DecodeLoop(c, job, last, s).0 == EndOf(ReadRecord(s))
    ensures ReadRecord(s).Read? ==>
              var a := ReadRecord(s).attr;
              && AssignAttr(c, job, a).Assigned?
              && DecodeLoop(c, job, last, s) == DecodeLoop(c, AssignAttr(c, job, a).job, a, ReadRecord(s).rest)
  {
    hide ReadRecord, AssignAttr;
  }

  /** A file's prefix, and the records and the end its body decodes to. */
  ghost predicate Body(c: Config, job: Node, data: string, rs: seq<RawRecord>, tail: string)
    requires TableFits(c) && HasType(job, c.typ)
  {
    && START_POS - HEADER_SIZE <= |data|
    && data[START_POS - HEADER_SIZE..] == AllBytes(rs) + tail
    && AllWellFormed(rs) && AssignAll(c, job, AttrsOf(rs)).0.None?
  }

  lemma FileStopsAt(c: Config, job: Node, data: string) returns (rs: seq<RawRecord>, tail: string)
    requires TableFits(c) && HasType(job, c.typ) && IsBytes(data) && !DecodeFile(c, job, data).0.Rejected?
    ensures Body(c, job, data, rs, tail) && IsBytes(tail)
    ensures Ends(ReadRecord(tail)) && DecodeFile(c, job, data).0 == EndOf(ReadRecord(tail))
  {
    hide DecodeLoop, ReadRecord, AllWellFormed, AllBytes, AttrsOf, AssignAll, Ends, EndOf;
    rs, tail := StopsAt(c, job, NO_ATTR, data[START_POS - HEADER_SIZE..]);
  }

  /** The attribute decoding has read last when it comes to the end of the records. */
  function LastAttr(rs: seq<RawRecord>): Attr {
    if rs == [] then NO_ATTR else AttrOf(rs[|rs| - 1])
  }

  lemma BodyDecodes(c: Config, job: Node, data: string, rs: seq<RawRecord>, tail: string)
    requires TableFits(c) && HasType(job, c.typ) && Body(c, job, data, rs, tail)
    ensures DecodeFile(c, job, data) == DecodeLoop(c, AssignAll(c, job, AttrsOf(rs)).1, LastAttr(rs), tail)
  {
    hide DecodeLoop, AllWellFormed, AllBytes, AttrsOf, AttrOf, AssignAll;
    RecordsRun(c, job, NO_ATTR, rs, tail);
  }

  lemma EndDecodes(c: Config, job: Node, last: Attr, s: string)
    requires TableFits(c) && HasType(job, c.typ) && (s == "" ==> Assignable(c, last))
    ensures Ends(ReadRecord(s)) ==> DecodeLoop(c, job, last, s).0 == EndOf(ReadRecord(s))
  {
    AssignableIff(c, job, last);
    hide ReadRecord, AssignAttr, Assignable;
  }

  /** The attribute of a record that assigned can be assigned again. */
  lemma {:induction false} LastAssigns(c: Config, job: Node, rs: seq<RawRecord>)
    requires TableFits(c) && HasType(job, c.typ) && AssignAll(c, job, AttrsOf(rs)).0.None?
    ensures rs != [] ==> Assignable(c, LastAttr(rs))
  {
    hide AssignAttr, AttrOf, Assignable;
    FoldSucceeds(c, job, AttrsOf(rs));
    if rs != [] {
      assert Assignable(c, AttrsOf(rs)[|rs| - 1]);
    }
  }

  lemma LoopAtEnd(c: Config, job: Node, last: Attr)
    requires TableFits(c) && HasType(job, c.typ) && Assignable(c, last)
    ensures DecodeLoop(c, job, last, "").0 == Loops
  {
    AssignableIff(c, job, last);
  }

  lemma LoopOnBad(c: Config, job: Node, last: Attr, s: string)
    requires TableFits(c) && HasType(job, c.typ) && ReadRecord(s).Bad?
    ensures DecodeLoop(c, job, last, s).0.Rejected?
  {
    hide ReadRecord, AssignAttr;
  }

  // ---- the accepted language ----

  /** The file is a prefix, records that all assign, an end marker, and the rest. */
  ghost predicate IsEnded(c: Config, job: Node, data: string, rest: string)
    requires TableFits(c) && HasType(job, c.typ)
  {
    exists rs, h :: Ended(c, job, data, rest, rs, h)
  }

  ghost predicate Ended(c: Config, job: Node, data: string, rest: string, rs: seq<RawRecord>, h: JobAttrHeader)
    requires TableFits(c) && HasType(job, c.typ)
  {
    && START_POS - HEADER_SIZE <= |data|
    && AllWellFormed(rs) && h.length == END_FLAG
    && data == File(data[..START_POS - HEADER_SIZE], rs, h, rest)
    && AssignAll(c, job, AttrsOf(rs)).0.None?
  }

  lemma MarkerShape(s: string, rest: string) returns (h: JobAttrHeader)
    requires ReadRecord(s) == Marker(rest) && IsBytes(s)
    ensures h.length == END_FLAG && s == HeaderBytes(h) + rest
  {
    hide ReadHeader, HeaderBytes, ReadTexts;
    h := ReadHeader(s[..HEADER_SIZE]);
    HeaderBytesOfRead(s[..HEADER_SIZE]);
    assert s == s[..HEADER_SIZE] + s[HEADER_SIZE..];
  }

  /** Decoding accepts exactly the files that are ended, and stops right behind their end marker. */
  lemma AcceptsExactly(c: Config, job: Node, data: string, rest: string)
    requires TableFits(c) && HasType(job, c.typ) && IsBytes(data)
    ensures DecodeFile(c, job, data).0 == Accepted(rest) <==> IsEnded(c, job, data, rest)
  {
    hide DecodeFile, ReadRecord, AssignAll, AllBytes, AttrsOf, HeaderBytes, IsBytes, TableFits, HasType, AllWellFormed;
    if DecodeFile(c, job, data).0 == Accepted(rest) {
      var rs, tail := FileStopsAt(c, job, data);
      var h := MarkerShape(tail, rest);
      assert data == data[..START_POS - HEADER_SIZE] + data[START_POS - HEADER_SIZE..];
      assert Ended(c, job, data, rest, rs, h);
    }
    if IsEnded(c, job, data, rest) {
      var rs, h :| Ended(c, job, data, rest, rs, h);
      DecodeFileIsFold(c, job, data[..START_POS - HEADER_SIZE], rs, h, rest);
    }
  }

  // ---- files on which decoding never ends ----

  /** The file is a prefix and records that all assign, with no end marker behind them. */
  ghost predicate IsUnended(c: Config, job: Node, data: string)
    requires TableFits(c) && HasType(job, c.typ)
  {
    exists rs :: Unended(c, job, data, rs)
  }

  ghost predicate Unended(c: Config, job: Node, data: string, rs: seq<RawRecord>)
    requires TableFits(c) && HasType(job, c.typ)
  {
    && START_POS - HEADER_SIZE <= |data|
    && AllWellFormed(rs)
    && data == data[..START_POS - HEADER_SIZE] + AllBytes(rs)
    && AssignAll(c, job, AttrsOf(rs)).0.None?
    && (rs == [] ==> Assignable(c, NO_ATTR))
  }

  /** Decoding repeats forever exactly on files that stop between records before any end marker. */
  lemma LoopsExactly(c: Config, job: Node, data: string)
    requires TableFits(c) && HasType(job, c.typ) && IsBytes(data)
    ensures DecodeFile(c, job, data).0 == Loops <==> IsUnended(c, job, data)
  {
    hide *;
    if DecodeFile(c, job, data).0 == Loops {
      LoopingIsUnended(c, job, data);
    }
    if IsUnended(c, job, data) {
      UnendedIsLooping(c, job, data);
    }
  }

  lemma LoopingIsUnended(c: Config, job: Node, data: string)
    requires TableFits(c) && HasType(job, c.typ) && IsBytes(data) && DecodeFile(c, job, data).0 == Loops
    ensures IsUnended(c, job, data)
  {
    hide DecodeFile, DecodeLoop, ReadRecord, AssignAll, AllBytes, AttrsOf, Assignable, IsBytes, TableFits, HasType;
    hide AllWellFormed;
    var rs, tail := FileStopsAt(c, job, data);
    assert tail == "" && AllBytes(rs) + tail == AllBytes(rs);
    assert data == data[..START_POS - HEADER_SIZE] + data[START_POS - HEADER_SIZE..];
    if rs == [] {
      NoRecords();
      EmptyBodyAssigns(c, job, data);
    }
    assert Unended(c, job, data, rs);
  }

  lemma EmptyBodyAssigns(c: Config, job: Node, data: string)
    requires TableFits(c) && HasType(job, c.typ) && |data| == START_POS - HEADER_SIZE
    requires DecodeFile(c, job, data).0 == Loops
    ensures Assignable(c, NO_ATTR)
  {
    hide AssignAttr, Assignable;
    AssignableIff(c, job, NO_ATTR);
    assert data[START_POS - HEADER_SIZE..] == "";
  }

  lemma UnendedIsLooping(c: Config, job: Node, data: string)
    requires TableFits(c) && HasType(job, c.typ) && IsUnended(c, job, data)
    ensures DecodeFile(c, job, data).0 == Loops
  {
    hide DecodeFile, DecodeLoop, AssignAll, AllBytes, AttrsOf, AttrOf, Assignable, TableFits, HasType, AllWellFormed;
    var rs :| Unended(c, job, data, rs);
    assert data[START_POS - HEADER_SIZE..] == AllBytes(rs) == AllBytes(rs) + "";
    BodyDecodes(c, job, data, rs, "");
    LastAssigns(c, job, rs);
    LoopAtEnd(c, AssignAll(c, job, AttrsOf(rs)).1, LastAttr(rs));
  }

  // ---- files on which decoding panics ----

  /** Reading texts of these sizes from `t` meets a negative one before the data runs out. */
  predicate SizesPanic(h: JobAttrHeader, t: string) {
    h.name < 0
    || (h.name <= |t|
        && (h.resource < 0 || (h.name as int + h.resource <= |t| && h.value < 0)))
  }

  lemma ReadTextsPanics(h: JobAttrHeader, t: string)
    ensures ReadTexts(h, t).Panics? <==> SizesPanic(h, t)
  {
    hide TrimNul, Seek;
  }

  lemma HeaderPanics(h: JobAttrHeader, t: string)
    ensures ReadRecord(HeaderBytes(h) + t).Panics? <==> h.length != END_FLAG && SizesPanic(h, t)
  {
    ReadHeaderBytes(h);
    ReadTextsPanics(h, t);
    hide HeaderBytes, ReadHeader, ReadTexts, SizesPanic;
    var s := HeaderBytes(h) + t;
    assert s[..HEADER_SIZE] == HeaderBytes(h) && s[HEADER_SIZE..] == t;
  }

  lemma PanicShape(s: string) returns (h: JobAttrHeader, t: string)
    requires ReadRecord(s).Panics? && IsBytes(s)
    ensures s == HeaderBytes(h) + t && h.length != END_FLAG && SizesPanic(h, t)
  {
    hide ReadHeader, HeaderBytes, ReadTexts, SizesPanic;
    h, t := ReadHeader(s[..HEADER_SIZE]), s[HEADER_SIZE..];
    HeaderBytesOfRead(s[..HEADER_SIZE]);
    assert s == s[..HEADER_SIZE] + s[HEADER_SIZE..];
    HeaderPanics(h, t);
  }

  /** The file is a prefix, records that all assign, and a header whose sizes panic. */
  ghost predicate IsPanicking(c: Config, job: Node, data: string)
    requires TableFits(c) && HasType(job, c.typ)
  {
    exists rs, h, t :: Panicking(c, job, data, rs, h, t)
  }

  ghost predicate Panicking(
    c: Config, job: Node, data: string, rs: seq<RawRecord>, h: JobAttrHeader, t: string)
    requires TableFits(c) && HasType(job, c.typ)
  {
    Body(c, job, data, rs, HeaderBytes(h) + t) && h.length != END_FLAG && SizesPanic(h, t)
  }

  /** Decoding panics exactly where, behind records that all assign, a negative size is reached. */
  lemma PanicsExactly(c: Config, job: Node, data: string)
    requires TableFits(c) && HasType(job, c.typ) && IsBytes(data)
    ensures DecodeFile(c, job, data).0 == Panicked <==> IsPanicking(c, job, data)
  {
    hide DecodeFile, DecodeLoop, ReadRecord, Body, AssignAll, AttrsOf, IsBytes, TableFits, HasType, HeaderBytes;
    hide SizesPanic, LastAttr, Assignable;
    if DecodeFile(c, job, data).0 == Panicked {
      var rs, tail := FileStopsAt(c, job, data);
      var h, t := PanicShape(tail);
      assert Panicking(c, job, data, rs, h, t);
    }
    if IsPanicking(c, job, data) {
      var rs, h, t :| Panicking(c, job, data, rs, h, t);
      BodyDecodes(c, job, data, rs, HeaderBytes(h) + t);
      HeaderPanics(h, t);
      EndDecodes(c, AssignAll(c, job, AttrsOf(rs)).1, LastAttr(rs), HeaderBytes(h) + t);
    }
  }

  // ---- such files ----

  /** A file of the prefix alone makes lenient decoding repeat forever. */
  lemma PrefixLoops(c: Config, job: Node)
    requires TableFits(c) && HasType(job, c.typ) && !c.strict
    ensures DecodeFile(c, job, E.FILE_PREFIX).0 == Loops
  {
    hide DecodeLoop, TableFits, HasType, Repeat, Assignable;
    NoAttrAssignable(c);
    LoopAtEnd(c, job, NO_ATTR);
    assert E.FILE_PREFIX[START_POS - HEADER_SIZE..] == "";
  }

  /** A prefix and one header with name length -1 make decoding panic. */
  lemma NegativeNamePanics(c: Config, job: Node)
    requires TableFits(c) && HasType(job, c.typ)
    ensures DecodeFile(c, job, E.FILE_PREFIX + HeaderBytes(JobAttrHeader(0, -1, 0, 0, 0, 0))).0 == Panicked
  {
    hide DecodeLoop, TableFits, HasType, Repeat, HeaderBytes, ReadRecord, Assignable;
    var h := JobAttrHeader(0, -1, 0, 0, 0, 0);
    assert HeaderBytes(h) + "" == HeaderBytes(h);
    HeaderPanics(h, "");
    EndDecodes(c, job, NO_ATTR, HeaderBytes(h));
    AfterPrefix(c, job, E.FILE_PREFIX, HeaderBytes(h));
  }

  /** After a record, the step at a clean end succeeds and leaves job, attribute and stream as it found them. */
  lemma IdleStep(
    c: Config, before: Node, job: Node, last: Attr, status: Status, job1: Node, last1: Attr, s1: string)
    requires TableFits(c) && HasType(before, c.typ) && HasType(job, c.typ)
    requires AssignAttr(c, before, last) == Assigned(job)
    requires StepResult(c, job, last, "", status, job1, last1, s1)
    ensures status == Fine && job1 == job && last1 == last && s1 == ""
  {
    hide ParseValue;
    var key := KeyName(last);
    if key in c.cache {
      assert LeafAt(c, key);
      var index := c.cache[key].index;
      TypedField(before, c.typ, index);
      TypedField(job, c.typ, index);
      SetSame(job, index);
    }
  }

  /** Why `Loops` stands for forever: a step that succeeds at a clean end is followed by steps that change nothing. */
  lemma StuckStep(c: Config, job: Node, last: Attr, status: Status, job1: Node, last1: Attr, s1: string)
    requires TableFits(c) && HasType(job, c.typ)
    requires StepResult(c, job, last, "", status, job1, last1, s1) && status == Fine
    ensures last1 == last && s1 == "" && HasType(job1, c.typ)
    ensures StepResult(c, job1, last1, s1, Fine, job1, last1, s1)
  {
    hide ParseValue;
    var key := KeyName(last);
    if key in c.cache {
      assert LeafAt(c, key);
      var index := c.cache[key].index;
      TypedField(job, c.typ, index);
      TypedField(job1, c.typ, index);
      SetSame(job1, index);
    }
  }

  // ---- files cut short ----

  predicate Boundary(rs: seq<RawRecord>, n: int) {
    n == 0 || (rs != [] && n >= |RawBytes(rs[0])| && Boundary(rs[1..], n - |RawBytes(rs[0])|))
  }

  /** Before any record the loop would assign the attribute without name: strict decoding refuses it. */
  lemma NoAttrAssignable(c: Config)
    requires TableFits(c)
    ensures Assignable(c, NO_ATTR) <==> !c.strict || JobMapKey("", "") in c.cache
  {
    var key := JobMapKey("", "");
    if key in c.cache {
      assert LeafAt(c, key);
      EmptyParses(c.ram, KindOf(c, key), c.cache[key].separator);
    }
  }

  /** The empty text parses as any kind. */
  lemma EmptyParses(ram: HumanUnits, k: Kind, separator: char)
    ensures ParseValue(ram, k, "", separator).Some?
  {
    ParseFormatBool(false);
  }

  lemma RejectedAtEnd(c: Config, job: Node, last: Attr)
    requires TableFits(c) && HasType(job, c.typ) && !Assignable(c, last)
    ensures DecodeLoop(c, job, last, "").0.Rejected?
  {
    AssignableIff(c, job, last);
  }

  lemma {:induction false} CutLoop(
    c: Config, job: Node, last: Attr, rs: seq<RawRecord>, h: JobAttrHeader, n: nat)
    requires TableFits(c) && HasType(job, c.typ) && AllWellFormed(rs)
    requires AssignAll(c, job, AttrsOf(rs)).0.None?
    requires n < |AllBytes(rs)| + HEADER_SIZE
    ensures var o := DecodeLoop(c, job, last, (AllBytes(rs) + HeaderBytes(h))[..n]).0;
            if Boundary(rs, n) && (n > 0 || Assignable(c, last)) then o == Loops else o.Rejected?
    decreases |rs|
  {
    hide AssignAttr, ReadRecord, RawBytes, Assignable, WellFormed, HeaderBytes, DecodeLoop, AttrOf, AttrsOf;
    var s := AllBytes(rs) + HeaderBytes(h);
    if n == 0 {
      assert s[..n] == "";
      if Assignable(c, last) {
        LoopAtEnd(c, job, last);
      } else {
        RejectedAtEnd(c, job, last);
      }
    } else if rs == [] {
      assert s == HeaderBytes(h);
      CutMarker(h, n);
      LoopOnBad(c, job, last, s[..n]);
    } else {
      hide AllBytes;
      var first, tail := RawBytes(rs[0]), AllBytes(rs[1..]) + HeaderBytes(h);
      ConsBytes(rs, HeaderBytes(h));
      if n < |first| {
        assert s[..n] == first[..n];
        CutRecord(rs[0], n);
        LoopOnBad(c, job, last, s[..n]);
      } else {
        var m, a := n - |first|, AttrOf(rs[0]);
        CutTail(first, tail, m);
        LoopOverRecord(c, job, last, rs[0], tail[..m]);
        FoldCons(c, job, rs);
        AssignableIff(c, job, a);
        CutLoop(c, AssignAttr(c, job, a).job, a, rs[1..], h, m);
      }
    }
  }

  lemma CutTail(first: string, tail: string, m: nat)
    requires m <= |tail|
    ensures (first + tail)[..|first| + m] == first + tail[..m]
  {
  }

  /**
   The cut, `n` bytes behind the prefix, lies between records, where the attribute last read can
   be assigned again.
   */
  predicate LoopsWhenCut(c: Config, rs: seq<RawRecord>, n: int) {
    n >= 0 && Boundary(rs, n) && (n > 0 || !c.strict || JobMapKey("", "") in c.cache)
  }

  /**
   A file cut short: inside the prefix or inside a record it is rejected, between records
   decoding repeats forever (in strict mode only after a record); it is never accepted and
   never panics.
   */
  lemma CutFile(c: Config, job: Node, prefix: string, rs: seq<RawRecord>, h: JobAttrHeader, n: nat)
    requires TableFits(c) && HasType(job, c.typ) && AllWellFormed(rs) && |prefix| == START_POS - HEADER_SIZE
    requires AssignAll(c, job, AttrsOf(rs)).0.None?
    requires n < |File(prefix, rs, h, "")|
    ensures var o := DecodeFile(c, job, File(prefix, rs, h, "")[..n]).0;
            if LoopsWhenCut(c, rs, n - |prefix|) then o == Loops else o.Rejected?
  {
    var body := AllBytes(rs) + HeaderBytes(h);
    FileBody(prefix, rs, h);
    hide File, DecodeFile, DecodeLoop, AssignAll, AllBytes, HeaderBytes, Boundary, Assignable, AllWellFormed;
    if |prefix| <= n {
      var m := n - |prefix|;
      NoAttrAssignable(c);
      CutTail(prefix, body, m);
      CutLoop(c, job, NO_ATTR, rs, h, m);
      AfterPrefix(c, job, prefix, body[..m]);
    } else {
      InsidePrefix(c, job, (prefix + body)[..n]);
    }
  }

  lemma FileBody(prefix: string, rs: seq<RawRecord>, h: JobAttrHeader)
    ensures File(prefix, rs, h, "") == prefix + (AllBytes(rs) + HeaderBytes(h))
  {
    hide AllBytes, HeaderBytes;
    assert HeaderBytes(h) + "" == HeaderBytes(h);
  }

  lemma AfterPrefix(c: Config, job: Node, prefix: string, s: string)
    requires TableFits(c) && HasType(job, c.typ) && |prefix| == START_POS - HEADER_SIZE
    ensures DecodeFile(c, job, prefix + s) == DecodeLoop(c, job, NO_ATTR, s)
  {
    hide DecodeLoop;
    assert (prefix + s)[|prefix|..] == s;
  }

  lemma InsidePrefix(c: Config, job: Node, s: string)
    requires TableFits(c) && HasType(job, c.typ) && |s| < START_POS - HEADER_SIZE
    ensures DecodeFile(c, job, s).0.Rejected?
  {
  }

  /** A cut of a marshalled job is never accepted: it is rejected, or decoding repeats forever between its records. */
  lemma CutMarshalled(t: Type, strict: bool, ram: HumanUnits, job: Node, job0: Node, n: nat)
    requires GoodType(t) && CleanNames(t) && HasType(job, t) && HasType(job0, t) && FitsFile(t, job)
    requires (SimpleType(t) || InDomain(t, job)) && n < |Marshalled(t, job)|
    ensures var c := JobConfig(t, strict, ram);
            var o := DecodeFile(c, job0, Marshalled(t, job)[..n]).0;
            if LoopsWhenCut(c, RawsOf(JobAttrs(t, job)), n - (START_POS - HEADER_SIZE)) then o == Loops else o.Rejected?
  {
    var c, attrs := JobConfig(t, strict, ram), JobAttrs(t, job);
    MarshalledAssigns(t, strict, ram, job, job0);
    forall i | 0 <= i < |attrs| ensures Writable(attrs[i]) {
      JobAttrAt(t, job, i);
    }
    EncodedIsFile(attrs);
    RecordsAreRaw(attrs);
    hide DecodeFile, AssignAll, File, JobAttrs, RawsOf, Boundary, E.JobFileBytes, LoopsWhenCut;
    assert AttrsOf(RawsOf(attrs)) == AsReadAll(attrs);
    CutFile(c, job0, E.FILE_PREFIX, RawsOf(attrs), END_HEADER, n);
  }
}
