/** `internal/pbsjob/encode.go`: writing a job as a job file. */
module Encode {
  import opened Wrappers
  import opened GoStrings
  import opened Strconv
  import opened Reflect
  import opened JobFile
  import opened Layout

  // ---- what is written ----

  function Text(v: Value, separator: char): string
    decreases v, 1
  {
    match v
    case BoolValue(b) => FormatBool(b)
    case IntValue(i) => FormatInt(i)
    case UintValue(u) => FormatUint(u)
    case StringValue(s) => s
    case SliceValue(vs) => Join(Texts(vs, separator), separator)
  }

  function Texts(vs: seq<Value>, separator: char): (texts: seq<string>)
    ensures |texts| == |vs| && forall i :: 0 <= i < |vs| ==> texts[i] == Text(vs[i], separator)
    decreases vs, 0
  {
    if vs == [] then [] else [Text(vs[0], separator)] + Texts(vs[1..], separator)
  }

  function RecordHeader(a: Attr): JobAttrHeader {
    var name := Wrap32(AttrLength(|a.name|, 1));
    var resource := Wrap32(AttrLength(|a.resource|, 1));
    var value := Wrap32(AttrLength(|a.value|, 2));
    JobAttrHeader(Wrap32(HEADER_SIZE + PADDING + name + resource + value), name, resource, value, 0, 0)
  }

  function Suffixed(size: Int32, text: string, nuls: nat): string {
    if size > 0 then text + Repeat(NUL, nuls) else ""
  }

  function RecordBytes(a: Attr): string {
    var h := RecordHeader(a);
    HeaderBytes(h)
    + (Suffixed(h.name, a.name, 1)
       + (Suffixed(h.resource, a.resource, 1)
          + (Suffixed(h.value, a.value, 2)
             + Repeat(NUL, PADDING))))
  }

  /** Each listed key leads to a leaf of the job. */
  predicate Encodable(cache: JobMap, order: seq<JobMapKey>, job: Node) {
    forall i :: 0 <= i < |order| ==> order[i] in cache && LeadsToLeaf(job, cache[order[i]].index)
  }

  predicate LeadsToLeaf(job: Node, index: seq<nat>) {
    FieldByIndex(job, index).Some? && FieldByIndex(job, index).value.LeafNode?
  }

  function AttrAt(cache: JobMap, key: JobMapKey, job: Node): Attr
    requires key in cache && LeadsToLeaf(job, cache[key].index)
  {
    Attr(key.name, key.resource,
         Text(FieldByIndex(job, cache[key].index).value.value, cache[key].separator))
  }

  function Attrs(cache: JobMap, order: seq<JobMapKey>, job: Node): (attrs: seq<Attr>)
    requires Encodable(cache, order, job)
    ensures |attrs| == |order|
  {
    seq(|order|, i requires 0 <= i < |order| => AttrAt(cache, order[i], job))
  }

  function Records(attrs: seq<Attr>): string {
    if attrs == [] then "" else RecordBytes(attrs[0]) + Records(attrs[1..])
  }

  const END_MARKER := HeaderBytes(JobAttrHeader(END_FLAG, 0, 0, 0, 0, 0))

  const FILE_PREFIX := Repeat(NUL, START_POS - HEADER_SIZE)

  /** The whole job file. */
  function JobFileBytes(attrs: seq<Attr>): string {
    FILE_PREFIX + (Records(attrs) + END_MARKER)
  }

  /** The record written piece by piece. */
  lemma RecordParts(h: JobAttrHeader, name: string, resource: string, value: string)
    requires h == RecordHeader(Attr(name, resource, value))
    ensures HeaderBytes(h) + Suffixed(h.name, name, 1) + Suffixed(h.resource, resource, 1)
            + Suffixed(h.value, value, 2) + Repeat(NUL, PADDING) == RecordBytes(Attr(name, resource, value))
  {
    var a, b, c, d, e := HeaderBytes(h), Suffixed(h.name, name, 1), Suffixed(h.resource, resource, 1),
                         Suffixed(h.value, value, 2), Repeat(NUL, PADDING);
    RegroupRight(a, b, c, d, e);
  }

  lemma RegroupRight(a: string, b: string, c: string, d: string, e: string)
    ensures a + b + c + d + e == a + (b + (c + (d + e)))
  {
    assert a + b + c + d + e == a + b + c + (d + e);
    assert a + b + c + (d + e) == a + b + (c + (d + e));
  }

  // ---- the program ----

  class Encoder {
    var w: string
    var b: string

    constructor ()
      ensures w == "" && b == ""
    {
      w, b := "", "";
    }

    method EncodeAttributeValue(v: Value, separator: char) returns (text: string)
      ensures text == Text(v, separator)
      decreases v
    {
      match v {
        case BoolValue(x) => text := FormatBool(x);
        case IntValue(i) => text := FormatInt(i);
        case UintValue(u) => text := FormatUint(u);
        case StringValue(s) => text := s;
        case SliceValue(vs) =>
          var values: seq<string> := [];
          for i := 0 to |vs|
            invariant |values| == i
            invariant forall k :: 0 <= k < i ==> values[k] == Text(vs[k], separator)
          {
            var one := EncodeAttributeValue(vs[i], separator);
            values := values + [one];
          }
          assert values == Texts(vs, separator);
          text := Join(values, separator);
      }
    }

    /** A text and the NUL bytes behind it, unless its size is not positive. */
    method WriteText(size: Int32, text: string, nuls: nat)
      modifies this`b
      ensures b == old(b) + Suffixed(size, text, nuls)
    {
      if size > 0 {
        b := b + text;
        for i := 0 to nuls
          invariant b == old(b) + (text + Repeat(NUL, i))
        {
          b := b + [NUL];
        }
      }
    }

    method EncodeAttribute(attr: JobAttr, v: Value, separator: char)
      requires b == ""
      modifies this, attr
      ensures attr.View() == old(attr.View()).(value := Text(v, separator))
      ensures b == "" && w == old(w) + RecordBytes(attr.View())
    {
      hide HeaderBytes, RecordBytes, Repeat, Suffixed, Wrap32;
      var text := EncodeAttributeValue(v, separator);
      attr.value := text;

      var header := JobAttrHeader(
        HEADER_SIZE + PADDING,
        Wrap32(AttrLength(|attr.name|, 1)),
        Wrap32(AttrLength(|attr.resource|, 1)),
        Wrap32(AttrLength(|attr.value|, 2)),
        0, 0);
      header := header.(length := Wrap32(header.length as int + header.name + header.resource + header.value));
      b := b + HeaderBytes(header);
      assert b == HeaderBytes(header);
      WriteText(header.name, attr.name, 1);
      WriteText(header.resource, attr.resource, 1);
      WriteText(header.value, attr.value, 2);
      b := b + Repeat(NUL, PADDING);
      RecordParts(header, attr.name, attr.resource, attr.value);
      assert b == RecordBytes(attr.View());
      w := w + b;
      b := "";
    }

    method Encode(cache: JobMap, order: seq<JobMapKey>, job: Node)
      requires b == "" && Encodable(cache, order, job)
      modifies this
      ensures w == old(w) + JobFileBytes(Attrs(cache, order, job))
    {
      hide HeaderBytes, RecordBytes, Repeat, JobFileBytes;
      w := w + FILE_PREFIX;
      ghost var attrs, head := Attrs(cache, order, job), w;
      for i := 0 to |order|
        invariant b == ""
        invariant w + Records(attrs[i..]) == head + Records(attrs)
      {
        var v := cache[order[i]];
        var attr := new JobAttr(order[i].name, order[i].resource);
        RecordsStep(attrs, i, w);
        EncodeAttribute(attr, FieldByIndex(job, v.index).value.value, v.separator);
      }
      assert attrs[|order|..] == [];
      FileParts(old(w), attrs);
      w := w + END_MARKER;
    }
  }

  lemma RecordsStep(attrs: seq<Attr>, i: nat, w: string)
    requires i < |attrs|
    ensures w + Records(attrs[i..]) == (w + RecordBytes(attrs[i])) + Records(attrs[i + 1..])
  {
    assert attrs[i..][1..] == attrs[i + 1..];
  }

  lemma FileParts(w: string, attrs: seq<Attr>)
    ensures ((w + FILE_PREFIX) + Records(attrs)) + END_MARKER == w + JobFileBytes(attrs)
  {
    hide HeaderBytes, Repeat;
  }

  method Marshal(cache: JobMap, order: seq<JobMapKey>, job: Node) returns (data: string)
    requires Encodable(cache, order, job)
    ensures data == JobFileBytes(Attrs(cache, order, job))
  {
    hide *;
    var encoder := new Encoder();
    encoder.Encode(cache, order, job);
    data := encoder.w;
  }

  // ---- layout ----

  function TextLengths(attrs: seq<Attr>): nat {
    if attrs == [] then 0
    else HEADER_SIZE + PADDING + AttrLength(|attrs[0].name|, 1) + AttrLength(|attrs[0].resource|, 1)
         + AttrLength(|attrs[0].value|, 2) + TextLengths(attrs[1..])
  }

  /** The size of each text fits the header's 32 bits. */
  predicate FitsTexts(a: Attr) {
    && AttrLength(|a.name|, 1) <= 0x7FFF_FFFF
    && AttrLength(|a.resource|, 1) <= 0x7FFF_FFFF
    && AttrLength(|a.value|, 2) <= 0x7FFF_FFFF
  }

  /**
   The record can be read back.  Its length need not fit the header's 32 bits: the reader only
   takes differences with it, so it may wrap around, though not to the end flag.
   */
  predicate FitsRecord(a: Attr) {
    FitsTexts(a) && RecordHeader(a).length != END_FLAG
  }

  /** A job file is as long as its prefix, its records and its end marker. */
  lemma {:induction false} MarshalLength(attrs: seq<Attr>)
    requires forall a :: a in attrs ==> FitsTexts(a)
    ensures |JobFileBytes(attrs)| == 1096 + TextLengths(attrs) + 24
  {
    RecordsLength(attrs);
  }

  lemma RecordLength(a: Attr)
    requires FitsTexts(a)
    ensures |RecordBytes(a)| == HEADER_SIZE + PADDING + AttrLength(|a.name|, 1) + AttrLength(|a.resource|, 1)
                                + AttrLength(|a.value|, 2)
  {
    hide HeaderBytes;
  }

  lemma {:induction false} RecordsLength(attrs: seq<Attr>)
    requires forall a :: a in attrs ==> FitsTexts(a)
    ensures |Records(attrs)| == TextLengths(attrs)
  {
    hide RecordBytes;
    if attrs == [] {
    } else {
      RecordLength(attrs[0]);
      assert attrs[0] in attrs;
      assert forall a :: a in attrs[1..] ==> a in attrs;
      RecordsLength(attrs[1..]);
    }
  }

  /** Every eight bytes that start in such a header meet a NUL. */
  lemma NamedHeader(h: JobAttrHeader)
    requires h.name == 9 && h.resource == 0 && h.flags == 0 && h.refCount == 0
    ensures HeaderBytes(h)[7] == HeaderBytes(h)[8] == HeaderBytes(h)[16] == HeaderBytes(h)[23] == NUL
  {
    assert Le32(9)[3] == NUL && Le32(0)[0] == NUL && Le32(0)[3] == NUL;
    assert HeaderBytes(h)[7] == Le32(h.name)[3] && HeaderBytes(h)[8] == Le32(h.resource)[0];
    assert HeaderBytes(h)[16] == Le32(h.flags)[0] && HeaderBytes(h)[23] == Le32(h.refCount)[3];
  }

  /**
   The first record starts where the program expects it: whatever the job, the sentinel
   first occurs at byte 1120 when the first attribute is named by it.
   */
  lemma SentinelPosition(attrs: seq<Attr>)
    requires attrs != [] && attrs[0].name == SENTINEL && attrs[0].resource == ""
    ensures IndexFrom(JobFileBytes(attrs), SENTINEL, 0) == Some(START_POS)
  {
    var data, h := JobFileBytes(attrs), RecordHeader(attrs[0]);
    assert |SENTINEL| == 8 && forall k :: 0 <= k < 8 ==> SENTINEL[k] != NUL;
    NamedHeader(h);
    var tail := RecordBytes(attrs[0])[HEADER_SIZE..] + Records(attrs[1..]) + END_MARKER;
    SplitHeader(attrs);
    assert data == FILE_PREFIX + HeaderBytes(h) + tail;
    hide HeaderBytes, RecordBytes, RecordHeader, JobFileBytes;
    forall i | 0 <= i < START_POS ensures !(SENTINEL <= data[i..]) {
      var z := if i < 1096 then i else if i <= 1103 then 1103 else if i == 1104 then 1104
               else if i <= 1112 then 1112 else 1119;
      assert data[i..][z - i] == data[z] == NUL != SENTINEL[z - i];
    }
    assert SENTINEL <= tail && data[START_POS..] == tail;
  }

  lemma SplitHeader(attrs: seq<Attr>)
    requires attrs != [] && attrs[0].name == SENTINEL
    ensures JobFileBytes(attrs)
         == FILE_PREFIX + HeaderBytes(RecordHeader(attrs[0]))
            + (RecordBytes(attrs[0])[HEADER_SIZE..] + Records(attrs[1..]) + END_MARKER)
    ensures SENTINEL <= RecordBytes(attrs[0])[HEADER_SIZE..] + Records(attrs[1..]) + END_MARKER
  {
    var h, record := HeaderBytes(RecordHeader(attrs[0])), RecordBytes(attrs[0]);
    assert record[..HEADER_SIZE] == h;
    assert SENTINEL <= record[HEADER_SIZE..];
    hide HeaderBytes, RecordBytes, RecordHeader;
    assert record == h + record[HEADER_SIZE..];
    RegroupLeft(FILE_PREFIX, h, record[HEADER_SIZE..], Records(attrs[1..]), END_MARKER);
  }

  lemma RegroupLeft(p: string, h: string, r: string, s: string, e: string)
    ensures p + (((h + r) + s) + e) == p + h + (r + s + e)
  {
    assert ((h + r) + s) + e == h + (r + s + e);
    assert p + (h + (r + s + e)) == p + h + (r + s + e);
  }
}
