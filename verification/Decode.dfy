/** `internal/pbsjob/decode.go`: reading a job file into a job. */
module Decode {
  import opened Wrappers
  import opened GoStrings
  import opened Strconv
  import opened Reflect
  import opened JobFile
  import opened Layout
  import opened Utils

  datatype DecodeError =
    | SeekError | HeaderError | NameError | ResourceError | ValueError | DiscardError
    | UnknownAttribute(name: string, resource: string)
    | ParseError(name: string, resource: string)

  // ---- attribute values ----

  function ParseValue(ram: HumanUnits, k: Kind, text: string, separator: char): (r: Option<Value>)
    ensures r.Some? ==> WellTyped(k, r.value)
    decreases k, 0
  {
    match k
    case BoolKind =>
      (match ParseBool(if text == "" then "false" else text)
       case Num(n) => Some(BoolValue(n == 1))
       case _ => None)
    case IntKind(w) =>
      if text == "" then Some(IntValue(0))
      else
        (match ParseBytes(ram, text)
         case Some(n) => Some(IntValue(TruncateInt(w, n)))
         case None => None)
    case UintKind(w) =>
      if text == "" then Some(UintValue(0))
      else
        (match ParseUint(text)
         case Num(n) => Some(UintValue(TruncateUint(w, n)))
         case _ => None)
    case StringKind => Some(StringValue(text))
    case SliceKind(e) =>
      (match ParseValues(ram, e, if text == "" then [] else Split(text, separator), separator)
       case Some(vs) => Some(SliceValue(vs))
       case None => None)
  }

  function ParseValues(ram: HumanUnits, e: Kind, texts: seq<string>, separator: char): (r: Option<seq<Value>>)
    ensures r.Some? ==> |r.value| == |texts| && forall i :: 0 <= i < |texts| ==> WellTyped(e, r.value[i])
    decreases e, 1, |texts|
  {
    if texts == [] then Some([])
    else
      match ParseValues(ram, e, texts[..|texts| - 1], separator)
      case None => None
      case Some(vs) =>
        match ParseValue(ram, e, texts[|texts| - 1], separator)
        case None => None
        case Some(v) => Some(vs + [v])
  }

  /** One failing element fails the slice. */
  lemma {:induction false} ParseValuesPrefix(ram: HumanUnits, e: Kind, texts: seq<string>, separator: char, n: nat)
    requires n <= |texts| && ParseValues(ram, e, texts[..n], separator).None?
    ensures ParseValues(ram, e, texts, separator).None?
  {
    if n == |texts| {
      assert texts[..n] == texts;
    } else {
      assert texts[..|texts| - 1][..n] == texts[..n];
      ParseValuesPrefix(ram, e, texts[..|texts| - 1], separator, n);
    }
  }

  // ---- one attribute ----

  /** What a decoder knows: the key table, the type of the job, strictness, and the unit parser. */
  datatype Config = Config(cache: JobMap, typ: Type, strict: bool, ram: HumanUnits)

  /** Each key of the table leads to a leaf of the type. */
  ghost predicate TableFits(c: Config) {
    forall key :: key in c.cache ==> LeafAt(c, key)
  }

  ghost predicate LeafAt(c: Config, key: JobMapKey)
    requires key in c.cache
  {
    TypeAt(c.typ, c.cache[key].index).Some? && TypeAt(c.typ, c.cache[key].index).value.Leaf?
  }

  datatype Assignment = Assigned(job: Node) | Unassigned(error: DecodeError)

  /** `decodeAttributeValue`: assign the field the attribute's key names. */
  function AssignAttr(c: Config, job: Node, a: Attr): (r: Assignment)
    requires TableFits(c) && HasType(job, c.typ)
    ensures r.Assigned? ==> HasType(r.job, c.typ)
  {
    var key := JobMapKey(a.name, a.resource);
    if key in c.cache then
      var index := c.cache[key].index;
      assert LeafAt(c, key);
      TypedField(job, c.typ, index);
      var kind := FieldByIndex(job, index).value.kind;
      match ParseValue(c.ram, kind, a.value, c.cache[key].separator)
      case Some(v) =>
        SetKeepsType(job, c.typ, index, LeafNode(kind, v));
        Assigned(SetByIndex(job, index, LeafNode(kind, v)))
      case None => Unassigned(ParseError(a.name, a.resource))
    else if c.strict then Unassigned(UnknownAttribute(a.name, a.resource))
    else Assigned(job)
  }

  // ---- one record ----

  datatype Step =
    | Read(attr: Attr, rest: string)
    | CleanEnd
    | Marker(rest: string)
    | Bad(error: DecodeError)
    | Panics

  function TrimNul(s: string): string { Trim(s, {NUL}) }

  function DropLast(s: string): string {
    if s == "" then "" else s[..|s| - 1]
  }

  /** What `decodeAttributeHeader` makes of the bytes that follow. */
  function ReadRecord(s: string): (r: Step)
    ensures r.Read? ==> |r.rest| + HEADER_SIZE <= |s|
    ensures r.CleanEnd? <==> s == ""
  {
    if s == "" then CleanEnd
    else if |s| < HEADER_SIZE then Bad(HeaderError)
    else
      var h := ReadHeader(s[..HEADER_SIZE]);
      if h.length == END_FLAG then Marker(s[HEADER_SIZE..]) else ReadTexts(h, s[HEADER_SIZE..])
  }

  /** Reading `size` bytes into the scratch buffer; a negative size slices it out of bounds, and the program panics. */
  datatype Fill = Filled(text: string, rest: string) | Short | OutOfBounds

  function FillFrom(size: Int32, s: string): (f: Fill)
    ensures f.Filled? ==> |f.rest| <= |s|
  {
    if size < 0 then OutOfBounds
    else if |s| < size then Short
    else Filled(s[..size], s[size..])
  }

  function ReadTexts(h: JobAttrHeader, s: string): (r: Step)
    ensures r.Read? ==> |r.rest| <= |s|
    ensures !r.CleanEnd? && !r.Marker?
  {
    match FillFrom(h.name, s)
    case OutOfBounds => Panics
    case Short => Bad(NameError)
    case Filled(name, s1) =>
      match FillFrom(h.resource, s1)
      case OutOfBounds => Panics
      case Short => Bad(ResourceError)
      case Filled(resource, s2) =>
        match FillFrom(h.value, s2)
        case OutOfBounds => Panics
        case Short => Bad(ValueError)
        case Filled(value, s3) =>
          match FillFrom(Seek(h), s3)
          case Filled(_, rest) => Read(Attr(TrimNul(name), TrimNul(resource), TrimNul(DropLast(value))), rest)
          case _ => Bad(DiscardError)
  }

  /** The padding left after the texts, in 32-bit arithmetic. */
  function Seek(h: JobAttrHeader): Int32 {
    Wrap32(h.length as int - HEADER_SIZE - h.name - h.resource - h.value)
  }

  // ---- the whole file ----

  /** How decoding ends; `Loops` stands for a loop that repeats one step forever. */
  datatype Outcome = Accepted(rest: string) | Rejected(error: DecodeError) | Loops | Panicked

  /** The record loop, from the job and the attribute the previous step left. */
  function DecodeLoop(c: Config, job: Node, last: Attr, s: string): (r: (Outcome, Node))
    requires TableFits(c) && HasType(job, c.typ)
    ensures HasType(r.1, c.typ)
    decreases |s|
  {
    match ReadRecord(s)
    case Marker(rest) => (Accepted(rest), job)
    case Bad(e) => (Rejected(e), job)
    case Panics => (Panicked, job)
    case CleanEnd =>
      (match AssignAttr(c, job, last)
       case Assigned(job') => (Loops, job')
       case Unassigned(e) => (Rejected(e), job))
    case Read(a, rest) =>
      match AssignAttr(c, job, a)
      case Assigned(job') => DecodeLoop(c, job', a, rest)
      case Unassigned(e) => (Rejected(e), job)
  }

  const NO_ATTR := Attr("", "", "")

  function DecodeFile(c: Config, job: Node, data: string): (r: (Outcome, Node))
    requires TableFits(c) && HasType(job, c.typ)
    ensures HasType(r.1, c.typ)
  {
    if |data| < START_POS - HEADER_SIZE then (Rejected(SeekError), job)
    else DecodeLoop(c, job, NO_ATTR, data[START_POS - HEADER_SIZE..])
  }

  // ---- the program ----

  /** The job that decoding fills in through a pointer. */
  class JobRef {
    var root: Node

    constructor (root: Node)
      ensures this.root == root
    {
      this.root := root;
    }
  }

  datatype Status = Fine | Eof | Failed(error: DecodeError) | Crashed

  /** What `decodeAttributeHeader` owes its caller for each kind of record. */
  ghost predicate HeaderResult(step: Step, status: Status, before: Attr, after: Attr, r0: string, r1: string) {
    match step
    case Read(a, rest) => status == Fine && after == a && r1 == rest
    case CleanEnd => status == Fine && after == before && r1 == r0
    case Marker(rest) => status == Eof && after == before && r1 == rest
    case Bad(e) => status == Failed(e)
    case Panics => status == Crashed
  }

  /** What one pass of the record loop does to the job, the attribute and the stream. */
  ghost predicate StepResult(
    c: Config, job0: Node, last0: Attr, s0: string, status: Status, job1: Node, last1: Attr, s1: string)
    requires TableFits(c) && HasType(job0, c.typ)
  {
    match ReadRecord(s0)
    case Marker(rest) => status == Eof && job1 == job0 && s1 == rest
    case Bad(e) => status == Failed(e) && job1 == job0
    case Panics => status == Crashed && job1 == job0
    case CleanEnd => last1 == last0 && s1 == s0 && Assigns(AssignAttr(c, job0, last0), status, job0, job1)
    case Read(a, rest) => last1 == a && s1 == rest && Assigns(AssignAttr(c, job0, a), status, job0, job1)
  }

  ghost predicate Assigns(r: Assignment, status: Status, job0: Node, job1: Node) {
    match r
    case Assigned(job) => status == Fine && job1 == job
    case Unassigned(e) => status == Failed(e) && job1 == job0
  }

  lemma LoopStep(
    c: Config, job0: Node, last0: Attr, s0: string, status: Status, job1: Node, last1: Attr, s1: string)
    requires TableFits(c) && HasType(job0, c.typ)
    requires StepResult(c, job0, last0, s0, status, job1, last1, s1)
    ensures status == Eof ==> DecodeLoop(c, job0, last0, s0) == (Accepted(s1), job1)
    ensures status.Failed? ==> DecodeLoop(c, job0, last0, s0) == (Rejected(status.error), job1)
    ensures status == Crashed ==> DecodeLoop(c, job0, last0, s0) == (Panicked, job1)
    ensures status == Fine && |s1| == |s0| ==> DecodeLoop(c, job0, last0, s0) == (Loops, job1)
    ensures status == Fine && |s1| != |s0| ==>
              && |s1| < |s0| && HasType(job1, c.typ)
              && DecodeLoop(c, job1, last1, s1) == DecodeLoop(c, job0, last0, s0)
  {
    hide AssignAttr;
  }

  class Decoder {
    const c: Config
    var r: string
    var b: array<char>
    /** The length of the slice into the scratch buffer; its capacity is `b.Length`. */
    var n: nat

    ghost predicate Valid()
      reads this
    {
      n <= b.Length
    }

    constructor (c: Config, data: string)
      ensures Valid() && this.c == c && r == data && fresh(b)
    {
      this.c, r, n := c, data, 1024;
      b := new char[1024];
    }

    /** `parseAttributeValue`, for a value of kind `k`; None stands for its error. */
    method ParseAttributeValue(text: string, k: Kind, separator: char) returns (v: Option<Value>)
      ensures v == ParseValue(c.ram, k, text, separator)
      decreases k
    {
      hide ParseBool, ParseBytes, ParseUint, TruncateInt, TruncateUint;
      match k {
        case BoolKind =>
          var parsed := ParseBool(if text == "" then "false" else text);
          v := if parsed.Num? then Some(BoolValue(parsed.value == 1)) else None;
        case IntKind(w) =>
          if text == "" {
            return Some(IntValue(0));
          }
          var number := ParseBytes(c.ram, text);
          v := if number.Some? then Some(IntValue(TruncateInt(w, number.value))) else None;
        case UintKind(w) =>
          if text == "" {
            return Some(UintValue(0));
          }
          var parsed := ParseUint(text);
          v := if parsed.Num? then Some(UintValue(TruncateUint(w, parsed.value))) else None;
        case StringKind =>
          v := Some(StringValue(text));
        case SliceKind(e) =>
          var texts := if text == "" then [] else Split(text, separator);
          var values: seq<Value> := [];
          for i := 0 to |texts|
            invariant ParseValues(c.ram, e, texts[..i], separator) == Some(values)
          {
            var one := ParseAttributeValue(texts[i], e, separator);
            assert texts[..i + 1][..i] == texts[..i];
            if one.None? {
              ParseValuesPrefix(c.ram, e, texts, separator, i + 1);
              return None;
            }
            values := values + [one.value];
          }
          assert texts[..|texts|] == texts;
          v := Some(SliceValue(values));
      }
    }

    method DecodeAttributeValue(job: JobRef, attr: JobAttr) returns (status: Status)
      requires TableFits(c) && HasType(job.root, c.typ)
      modifies job
      ensures match AssignAttr(c, old(job.root), attr.View())
              case Assigned(root) => status == Fine && job.root == root
              case Unassigned(e) => status == Failed(e) && job.root == old(job.root)
    {
      var key := JobMapKey(attr.name, attr.resource);
      if key in c.cache {
        assert LeafAt(c, key);
        TypedField(job.root, c.typ, c.cache[key].index);
        var kind := FieldByIndex(job.root, c.cache[key].index).value.kind;
        var v := ParseAttributeValue(attr.value, kind, c.cache[key].separator);
        if v.None? {
          return Failed(ParseError(attr.name, attr.resource));
        }
        job.root := SetByIndex(job.root, c.cache[key].index, LeafNode(kind, v.value));
      } else if c.strict {
        return Failed(UnknownAttribute(attr.name, attr.resource));
      }
      status := Fine;
    }

    /** Reslice the scratch buffer to `size` bytes, fill it (`io.ReadFull`) and copy its text out. */
    method ReadText(size: Int32) returns (f: Fill)
      requires Valid() && size <= b.Length
      modifies this`r, this`n, b
      ensures Valid() && f == FillFrom(size, old(r))
      ensures f.Filled? ==> r == f.rest
    {
      if size < 0 {
        return OutOfBounds;
      }
      n := size;
      if |r| < n {
        r := "";
        return Short;
      }
      forall i | 0 <= i < n {
        b[i] := r[i];
      }
      assert b[..n] == r[..n];
      r := r[n..];
      f := Filled(b[..n], r);
    }

    /** `bufio.Reader.Discard` */
    method Discard(count: Int32) returns (ok: bool)
      modifies this`r
      ensures ok <==> FillFrom(count, old(r)).Filled?
      ensures ok ==> r == FillFrom(count, old(r)).rest
    {
      ok := 0 <= count <= |r|;
      if ok {
        r := r[count..];
      } else if count >= 0 {
        r := "";
      }
    }

    /** `decodeAttributeHeader`: the texts pass through one scratch buffer, replaced when it is too small. */
    method DecodeAttributeHeader(attr: JobAttr) returns (status: Status)
      requires Valid()
      modifies this, b, attr
      ensures Valid() && (b == old(b) || fresh(b))
      ensures HeaderResult(ReadRecord(old(r)), status, old(attr.View()), attr.View(), old(r), r)
    {
      hide ReadHeader, ReadTexts;
      if r == "" {
        return Fine;
      }
      if |r| < HEADER_SIZE {
        r := "";
        return Failed(HeaderError);
      }
      var header := ReadHeader(r[..HEADER_SIZE]);
      r := r[HEADER_SIZE..];
      if header.length == END_FLAG {
        return Eof;
      }
      status := DecodeTexts(header, attr);
    }

    /** The second half of `decodeAttributeHeader`: the three texts and the padding. */
    method DecodeTexts(header: JobAttrHeader, attr: JobAttr) returns (status: Status)
      requires Valid()
      modifies this, b, attr
      ensures Valid() && (b == old(b) || fresh(b))
      ensures HeaderResult(ReadTexts(header, old(r)), status, old(attr.View()), attr.View(), old(r), r)
    {
      hide TrimNul, Seek, FillFrom, DropLast;
      var required := Max(header.name, Max(header.resource, header.value));
      if b.Length < required {
        b := new char[required];
        n := required;
      }

      var name := ReadText(header.name);
      if !name.Filled? {
        return if name == Short then Failed(NameError) else Crashed;
      }
      attr.name := TrimNul(name.text);

      var resource := ReadText(header.resource);
      if !resource.Filled? {
        return if resource == Short then Failed(ResourceError) else Crashed;
      }
      attr.resource := TrimNul(resource.text);

      var value := ReadText(header.value);
      if !value.Filled? {
        return if value == Short then Failed(ValueError) else Crashed;
      }
      attr.value := TrimNul(DropLast(value.text));

      var ok := Discard(Seek(header));
      if !ok {
        return Failed(DiscardError);
      }
      status := Fine;
    }

    method DecodeAttribute(job: JobRef, attr: JobAttr) returns (status: Status)
      requires Valid() && TableFits(c) && HasType(job.root, c.typ)
      modifies this, b, attr, job
      ensures Valid() && (b == old(b) || fresh(b))
      ensures StepResult(c, old(job.root), old(attr.View()), old(r), status, job.root, attr.View(), r)
    {
      hide ReadRecord, AssignAttr;
      status := DecodeAttributeHeader(attr);
      if status != Fine {
        return;
      }
      status := DecodeAttributeValue(job, attr);
    }

    /** `Decode`; where the program would repeat the same step forever it returns `Loops`. */
    method Decode(job: JobRef) returns (outcome: Outcome)
      requires Valid() && TableFits(c) && HasType(job.root, c.typ)
      modifies this, b, job
      ensures (outcome, job.root) == DecodeFile(c, old(job.root), old(r))
      ensures outcome.Accepted? ==> r == outcome.rest
    {
      var ok := Discard(START_POS - HEADER_SIZE);
      if !ok {
        return Rejected(SeekError);
      }
      var attr := new JobAttr("", "");
      ghost var goal := DecodeLoop(c, job.root, NO_ATTR, r);
      hide DecodeLoop, StepResult;
      while true
        invariant Valid() && (b == old(b) || fresh(b))
        invariant HasType(job.root, c.typ)
        invariant DecodeLoop(c, job.root, attr.View(), r) == goal
        decreases |r|
      {
        var before := |r|;
        ghost var job0, last0, r0 := job.root, attr.View(), r;
        var status := DecodeAttribute(job, attr);
        LoopStep(c, job0, last0, r0, status, job.root, attr.View(), r);
        match status {
          case Eof => return Accepted(r);
          case Failed(e) => return Rejected(e);
          case Crashed => return Panicked;
          case Fine =>
            if |r| == before {
              return Loops;
            }
        }
      }
    }
  }

  function Max(x: int, y: int): int { if x >= y then x else y }

  /** `Unmarshal` */
  method Unmarshal(c: Config, data: string, job: JobRef) returns (outcome: Outcome)
    requires TableFits(c) && HasType(job.root, c.typ)
    modifies job
    ensures (outcome, job.root) == DecodeFile(c, old(job.root), data)
  {
    var decoder := new Decoder(c, data);
    outcome := decoder.Decode(job);
  }
}
