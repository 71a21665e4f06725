/** What the record reader does to printed records, to arbitrary bytes and to cut records. */
module Records {
  import opened GoStrings
  import opened Strconv
  import opened Layout
  import opened Decode
  import E = Encode

  /** A record as PBS may write it: any flags, any padding, any last value byte. */
  datatype RawRecord = RawRecord(header: JobAttrHeader, name: string, resource: string, value: string, padding: string)

  /**
   The header's sizes are the sizes of what follows, as the reader computes them: in 32-bit
   arithmetic, so that with texts of gigabytes a smaller or even negative length will do.
   */
  predicate WellFormed(r: RawRecord) {
    && r.header.name == |r.name|
    && r.header.resource == |r.resource|
    && r.header.value == |r.value|
    && r.header.length != END_FLAG
    && Seek(r.header) == |r.padding|
  }

  function TextBytes(r: RawRecord): string {
    r.name + (r.resource + (r.value + r.padding))
  }

  function RawBytes(r: RawRecord): string {
    HeaderBytes(r.header) + TextBytes(r)
  }

  /** The attribute a record stands for: the last value byte and outer NULs do not count. */
  function AttrOf(r: RawRecord): Attr {
    Attr(TrimNul(r.name), TrimNul(r.resource), TrimNul(DropLast(r.value)))
  }

  lemma FillFromAppend(text: string, rest: string)
    requires |text| <= 0x7FFF_FFFF
    ensures FillFrom(|text|, text + rest) == Filled(text, rest)
  {
    assert (text + rest)[..|text|] == text && (text + rest)[|text|..] == rest;
  }

  lemma ReadTextBytes(r: RawRecord, rest: string)
    requires WellFormed(r)
    ensures ReadTexts(r.header, TextBytes(r) + rest) == Read(AttrOf(r), rest)
  {
    hide Seek, FillFrom, TrimNul;
    var s3 := r.padding + rest;
    var s2 := r.value + s3;
    var s1 := r.resource + s2;
    assert TextBytes(r) + rest == r.name + s1;
    FillFromAppend(r.name, s1);
    FillFromAppend(r.resource, s2);
    FillFromAppend(r.value, s3);
    FillFromAppend(r.padding, rest);
  }

  /** Reading a printed record consumes exactly it and yields its attribute. */
  lemma ReadRaw(r: RawRecord, rest: string)
    requires WellFormed(r)
    ensures ReadRecord(RawBytes(r) + rest) == Read(AttrOf(r), rest)
  {
    hide HeaderBytes, ReadHeader, TextBytes, ReadTexts;
    ReadHeaderBytes(r.header);
    ReadTextBytes(r, rest);
    HeadAndTail(HeaderBytes(r.header), TextBytes(r), rest);
  }

  lemma HeadAndTail(head: string, tail: string, rest: string)
    ensures ((head + tail) + rest)[..|head|] == head
    ensures ((head + tail) + rest)[|head|..] == tail + rest
  {
  }

  lemma ReadMarker(h: JobAttrHeader, rest: string)
    requires h.length == END_FLAG
    ensures ReadRecord(HeaderBytes(h) + rest) == Marker(rest)
  {
    hide HeaderBytes, ReadHeader;
    ReadHeaderBytes(h);
    var s := HeaderBytes(h) + rest;
    assert s[..HEADER_SIZE] == HeaderBytes(h) && s[HEADER_SIZE..] == rest;
  }

  // ---- progress ----

  /**
   A successful record step consumes at least a header, and as many bytes as the header says
   up to 32-bit wrap-around; in data below 2 GiB it consumes exactly `Length`.
   */
  lemma StepConsumes(s: string)
    requires ReadRecord(s).Read?
    ensures var used, h := |s| - |ReadRecord(s).rest|, ReadHeader(s[..HEADER_SIZE]);
            && used >= HEADER_SIZE
            && h.name >= 0 && h.resource >= 0 && h.value >= 0
            && (used - h.length) % 0x1_0000_0000 == 0
            && (|s| < 0x8000_0000 ==> used == h.length)
  {
    hide ReadHeader, TrimNul, Wrap32;
    var h := ReadHeader(s[..HEADER_SIZE]);
    var sum := h.length as int - HEADER_SIZE - h.name - h.resource - h.value;
    var used := |s| - |ReadRecord(s).rest|;
    assert used == HEADER_SIZE + h.name + h.resource + h.value + Seek(h);
    assert (sum - Seek(h)) % 0x1_0000_0000 == 0;
    assert used - h.length == -(sum - Seek(h));
  }

  /** Every step that succeeds on bytes has read a well-formed record. */
  lemma ReadIsRaw(s: string) returns (r: RawRecord)
    requires ReadRecord(s).Read? && IsBytes(s)
    ensures WellFormed(r) && s == RawBytes(r) + ReadRecord(s).rest && AttrOf(r) == ReadRecord(s).attr
  {
    hide ReadHeader, TrimNul, Seek, HeaderBytes, FillFrom;
    var h, t := ReadHeader(s[..HEADER_SIZE]), s[HEADER_SIZE..];
    var name := FillFrom(h.name, t);
    var resource := FillFrom(h.resource, name.rest);
    var value := FillFrom(h.value, resource.rest);
    var padding := FillFrom(Seek(h), value.rest);
    FillFromJoin(h.name, t);
    FillFromJoin(h.resource, name.rest);
    FillFromJoin(h.value, resource.rest);
    FillFromJoin(Seek(h), value.rest);
    r := RawRecord(h, name.text, resource.text, value.text, padding.text);
    HeaderBytesOfRead(s[..HEADER_SIZE]);
    assert s == HeaderBytes(h) + t;
    Regroup(HeaderBytes(h), r.name, r.resource, r.value, r.padding, padding.rest);
  }

  lemma FillFromJoin(size: Int32, s: string)
    requires FillFrom(size, s).Filled?
    ensures s == FillFrom(size, s).text + FillFrom(size, s).rest && |FillFrom(size, s).text| == size
  {
  }

  lemma Regroup(h: string, a: string, b: string, c: string, d: string, e: string)
    ensures h + (a + (b + (c + (d + e)))) == (h + (a + (b + (c + d)))) + e
  {
    assert c + (d + e) == (c + d) + e;
    assert b + ((c + d) + e) == (b + (c + d)) + e;
    assert a + ((b + (c + d)) + e) == (a + (b + (c + d))) + e;
  }

  // ---- prefixes ----

  lemma FillFromExtends(size: Int32, s: string, q: string)
    requires FillFrom(size, s).Filled?
    ensures FillFrom(size, s + q) == Filled(FillFrom(size, s).text, FillFrom(size, s).rest + q)
  {
    assert (s + q)[..size] == s[..size] && (s + q)[size..] == s[size..] + q;
  }

  lemma ReadTextsExtends(h: JobAttrHeader, s: string, q: string)
    requires ReadTexts(h, s).Read?
    ensures ReadTexts(h, s + q) == Read(ReadTexts(h, s).attr, ReadTexts(h, s).rest + q)
  {
    hide FillFrom, Seek, TrimNul;
    FillFromExtends(h.name, s, q);
    var s1 := FillFrom(h.name, s).rest;
    FillFromExtends(h.resource, s1, q);
    var s2 := FillFrom(h.resource, s1).rest;
    FillFromExtends(h.value, s2, q);
    FillFromExtends(Seek(h), FillFrom(h.value, s2).rest, q);
  }

  /** A record or marker that was read is read the same when more data follows. */
  lemma ReadRecordExtends(s: string, q: string)
    ensures match ReadRecord(s)
            case Read(a, rest) => ReadRecord(s + q) == Read(a, rest + q)
            case Marker(rest) => ReadRecord(s + q) == Marker(rest + q)
            case _ => true
  {
    hide ReadHeader, ReadTexts;
    if |s| >= HEADER_SIZE {
      assert (s + q)[..HEADER_SIZE] == s[..HEADER_SIZE] && (s + q)[HEADER_SIZE..] == s[HEADER_SIZE..] + q;
      var h := ReadHeader(s[..HEADER_SIZE]);
      if ReadTexts(h, s[HEADER_SIZE..]).Read? {
        ReadTextsExtends(h, s[HEADER_SIZE..], q);
      }
    }
  }

  /** A record cut anywhere inside is an error that tells which part is cut, not an end and not a panic. */
  lemma CutRecord(r: RawRecord, n: nat)
    requires WellFormed(r) && 0 < n < |RawBytes(r)|
    ensures ReadRecord(RawBytes(r)[..n])
         == Bad(if n < 24 then HeaderError
                else if n < 24 + |r.name| then NameError
                else if n < 24 + |r.name| + |r.resource| then ResourceError
                else if n < 24 + |r.name| + |r.resource| + |r.value| then ValueError
                else DiscardError)
  {
    var s := RawBytes(r)[..n];
    if n >= HEADER_SIZE {
      hide HeaderBytes, ReadHeader, Seek, TrimNul;
      ReadHeaderBytes(r.header);
      assert s[..HEADER_SIZE] == HeaderBytes(r.header);
      assert |s[HEADER_SIZE..]| < |r.name| + |r.resource| + |r.value| + |r.padding|;
    }
  }

  lemma CutMarker(h: JobAttrHeader, n: nat)
    requires 0 < n < HEADER_SIZE
    ensures ReadRecord(HeaderBytes(h)[..n]) == Bad(HeaderError)
  {
    hide HeaderBytes;
  }

  // ---- the records the encoder writes ----

  function RawOf(a: Attr): RawRecord {
    var h := E.RecordHeader(a);
    RawRecord(h, E.Suffixed(h.name, a.name, 1), E.Suffixed(h.resource, a.resource, 1),
              E.Suffixed(h.value, a.value, 2), Repeat(NUL, PADDING))
  }

  lemma TrimSuffixed(text: string)
    requires IsTrimmed(text, {NUL}) && text != ""
    ensures TrimNul(text + Repeat(NUL, 1)) == text
  {
    TrimTrailing(text, NUL, 1);
  }

  lemma EncodedSizes(a: Attr)
    requires E.FitsRecord(a)
    ensures WellFormed(RawOf(a)) && E.RecordBytes(a) == RawBytes(RawOf(a))
  {
    hide HeaderBytes;
  }

  lemma EncodedTexts(a: Attr)
    requires E.FitsRecord(a)
    ensures RawOf(a).name == if a.name == "" then "" else a.name + Repeat(NUL, 1)
    ensures RawOf(a).resource == if a.resource == "" then "" else a.resource + Repeat(NUL, 1)
    ensures RawOf(a).value == if a.value == "" then "" else a.value + Repeat(NUL, 2)
  {
    hide Repeat;
  }

  lemma EncodedAttr(a: Attr)
    requires E.FitsRecord(a) && IsTrimmed(a.name, {NUL}) && IsTrimmed(a.resource, {NUL})
    ensures AttrOf(RawOf(a)) == a.(value := TrimNul(a.value))
  {
    hide RawOf, E.FitsRecord, Repeat, TrimNul, DropLast, IsTrimmed;
    EncodedTexts(a);
    TrimSuffixedOrEmpty(a.name);
    TrimSuffixedOrEmpty(a.resource);
    TrimValue(a.value);
  }

  /** An encoded record is a well-formed record, and stands for the attribute with its value's outer NULs trimmed. */
  lemma EncodedRecord(a: Attr)
    requires E.FitsRecord(a) && IsTrimmed(a.name, {NUL}) && IsTrimmed(a.resource, {NUL})
    ensures E.RecordBytes(a) == RawBytes(RawOf(a)) && WellFormed(RawOf(a))
    ensures AttrOf(RawOf(a)) == a.(value := TrimNul(a.value))
  {
    hide *;
    EncodedSizes(a);
    EncodedAttr(a);
  }

  lemma TrimValue(text: string)
    ensures TrimNul(DropLast(if text == "" then "" else text + Repeat(NUL, 2))) == TrimNul(text)
  {
    if text != "" {
      DropLastNul(text);
      hide TrimNul, DropLast;
      TrimOneNul(text);
    }
  }

  lemma DropLastNul(text: string)
    ensures DropLast(text + Repeat(NUL, 2)) == text + Repeat(NUL, 1)
  {
    var s := text + Repeat(NUL, 2);
    assert s[..|s| - 1] == text + Repeat(NUL, 1);
  }

  lemma TrimSuffixedOrEmpty(text: string)
    requires IsTrimmed(text, {NUL})
    ensures TrimNul(if text == "" then "" else text + Repeat(NUL, 1)) == text
  {
    if text != "" {
      TrimSuffixed(text);
    }
  }

  /** One more NUL at the end is trimmed away with the others. */
  lemma TrimOneNul(s: string)
    ensures TrimNul(s + Repeat(NUL, 1)) == TrimNul(s)
  {
    TrimLeftSnoc(s);
    var t := TrimLeft(s, {NUL});
    if t == "" {
      TrimLeftAll(1, NUL);
    } else {
      assert (t + [NUL])[..|t + [NUL]| - 1] == t;
    }
    assert Repeat(NUL, 1) == [NUL];
  }

  lemma {:induction false} TrimLeftSnoc(s: string)
    ensures TrimLeft(s + [NUL], {NUL}) == if TrimLeft(s, {NUL}) == "" then "" else TrimLeft(s, {NUL}) + [NUL]
  {
    if s == "" {
      assert (s + [NUL])[1..] == "";
    } else if s[0] == NUL {
      assert (s + [NUL])[1..] == s[1..] + [NUL];
      TrimLeftSnoc(s[1..]);
    }
  }
}
