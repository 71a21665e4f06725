/** Job files byte by byte: what the reader accepts and what the writer writes, in the numbers of the format. */
module FileBytes {
  import opened Wrappers
  import opened GoStrings
  import opened Strconv
  import opened Reflect
  import opened JobFile
  import opened Layout
  import opened Utils
  import opened Decode
  import opened Records
  import opened Codec
  import A = Acceptance
  import E = Encode

  /** A record: 24 header bytes, three texts, and padding. */
  datatype Piece = Piece(header: string, name: string, resource: string, value: string, padding: string)

  function PieceBytes(p: Piece): string {
    p.header + p.name + p.resource + p.value + p.padding
  }

  function PiecesBytes(ps: seq<Piece>): string {
    if ps == [] then "" else PieceBytes(ps[0]) + PiecesBytes(ps[1..])
  }

  /** The first four numbers of the header are the sizes of the record and of its texts. */
  predicate Measured(p: Piece) {
    var h := p.header;
    && |h| == 24 && (forall i :: 0 <= i < 24 ==> h[i] as int < 0x100)
    && Signed32(h[0], h[1], h[2], h[3]) == 24 + |p.name| + |p.resource| + |p.value| + |p.padding|
    && Signed32(h[4], h[5], h[6], h[7]) == |p.name|
    && Signed32(h[8], h[9], h[10], h[11]) == |p.resource|
    && Signed32(h[12], h[13], h[14], h[15]) == |p.value|
  }

  predicate AllMeasured(ps: seq<Piece>) {
    forall i :: 0 <= i < |ps| ==> Measured(ps[i])
  }

  function Nuls(n: nat): string {
    seq(n, _ => '\0')
  }

  /** The text, with NULs around it that are no part of it. */
  predicate PaddedBy(padded: string, text: string, before: nat, after: nat) {
    && padded == Nuls(before) + text + Nuls(after)
    && (text == "" || (text[0] != '\0' && text[|text| - 1] != '\0'))
  }

  ghost predicate Padded(padded: string, text: string) {
    exists before, after :: PaddedBy(padded, text, before, after)
  }

  /** The record's texts: NULs around them, and the last byte of the value, do not count. */
  ghost predicate StandsFor(p: Piece, a: Attr) {
    && Padded(p.name, a.name) && Padded(p.resource, a.resource)
    && (if p.value == "" then a.value == "" else Padded(p.value[..|p.value| - 1], a.value))
  }

  ghost predicate AllStandFor(ps: seq<Piece>, attrs: seq<Attr>) {
    |ps| == |attrs| && forall i :: 0 <= i < |ps| ==> StandsFor(ps[i], attrs[i])
  }

  lemma PaddedTrims(padded: string, text: string)
    requires Padded(padded, text)
    ensures TrimNul(padded) == text
  {
    var before, after :| PaddedBy(padded, text, before, after);
    TrimOff(Nuls(before), text, Nuls(after), {'\0'});
  }

  function RawOfPiece(p: Piece): RawRecord
    requires |p.header| == 24
  {
    RawRecord(ReadHeader(p.header), p.name, p.resource, p.value, p.padding)
  }

  lemma PieceIsRaw(p: Piece)
    requires Measured(p)
    ensures WellFormed(RawOfPiece(p)) && RawBytes(RawOfPiece(p)) == PieceBytes(p)
  {
    HeaderNumbers(p.header);
    HeaderBytesOfRead(p.header);
    hide ReadHeader, HeaderBytes, Signed32;
    E.RegroupRight(p.header, p.name, p.resource, p.value, p.padding);
  }

  lemma PieceAttr(p: Piece, a: Attr)
    requires Measured(p) && StandsFor(p, a)
    ensures AttrOf(RawOfPiece(p)) == a
  {
    hide TrimNul, Padded, ReadHeader, Measured;
    PaddedTrims(p.name, a.name);
    PaddedTrims(p.resource, a.resource);
    if p.value == "" {
      NothingTrims();
    } else {
      PaddedTrims(p.value[..|p.value| - 1], a.value);
    }
  }

  lemma NothingTrims()
    ensures TrimNul("") == ""
  {
  }

  function RawsOfPieces(ps: seq<Piece>): (rs: seq<RawRecord>)
    requires AllMeasured(ps)
    ensures |rs| == |ps| && forall i :: 0 <= i < |rs| ==> rs[i] == RawOfPiece(ps[i])
  {
    seq(|ps|, i requires 0 <= i < |ps| => RawOfPiece(ps[i]))
  }

  lemma {:induction false} PiecesAreRaw(ps: seq<Piece>, attrs: seq<Attr>)
    requires AllMeasured(ps) && AllStandFor(ps, attrs)
    ensures AllWellFormed(RawsOfPieces(ps)) && AllBytes(RawsOfPieces(ps)) == PiecesBytes(ps)
    ensures AttrsOf(RawsOfPieces(ps)) == attrs
  {
    hide Measured, StandsFor, PieceBytes, RawBytes, WellFormed, AttrOf, RawOfPiece;
    if ps == [] {
    } else {
      PieceIsRaw(ps[0]);
      PieceAttr(ps[0], attrs[0]);
      PiecesAreRaw(ps[1..], attrs[1..]);
      var rs := RawsOfPieces(ps);
      assert rs[1..] == RawsOfPieces(ps[1..]);
      assert attrs == [attrs[0]] + attrs[1..];
      forall i | 0 <= i < |rs| ensures WellFormed(rs[i]) {
        assert i == 0 || rs[i] == rs[1..][i - 1];
      }
    }
  }

  /** The number -711, and any twenty bytes behind it. */
  lemma MarkerBytes(tail: string)
    requires |tail| == 20 && forall i :: 0 <= i < 20 ==> tail[i] as int < 0x100
    ensures ReadHeader("9\U{FD}\U{FF}\U{FF}" + tail).length == END_FLAG
    ensures HeaderBytes(ReadHeader("9\U{FD}\U{FF}\U{FF}" + tail)) == "9\U{FD}\U{FF}\U{FF}" + tail
  {
    var s := "9\U{FD}\U{FF}\U{FF}" + tail;
    assert Signed32(s[0], s[1], s[2], s[3]) == -711;
    hide Signed32, ReadHeader, HeaderBytes;
    HeaderNumbers(s);
    HeaderBytesOfRead(s);
  }

  /**
   A file of 1096 bytes, measured records, the bytes 39 FD FF FF and twenty more: decoding
   assigns the records' attributes in order and stops right behind, or is rejected by the first
   that cannot be assigned.
   */
  lemma FileDecodes(
    c: Config, job: Node, prefix: string, ps: seq<Piece>, attrs: seq<Attr>, tail: string, rest: string)
    requires TableFits(c) && HasType(job, c.typ)
    requires |prefix| == 1096 && AllMeasured(ps) && AllStandFor(ps, attrs)
    requires |tail| == 20 && forall i :: 0 <= i < 20 ==> tail[i] as int < 0x100
    ensures var (e, after) := AssignAll(c, job, attrs);
            DecodeFile(c, job, prefix + PiecesBytes(ps) + "9\U{FD}\U{FF}\U{FF}" + tail + rest)
            == if e.None? then (Accepted(rest), after) else (Rejected(e.value), after)
  {
    var h := ReadHeader("9\U{FD}\U{FF}\U{FF}" + tail);
    hide *;
    PiecesAreRaw(ps, attrs);
    MarkerBytes(tail);
    FoldedFile(c, job, prefix, RawsOfPieces(ps), h, rest);
    FilePieces(prefix, PiecesBytes(ps), "9\U{FD}\U{FF}\U{FF}", tail, rest);
  }

  lemma FoldedFile(c: Config, job: Node, prefix: string, rs: seq<RawRecord>, h: JobAttrHeader, rest: string)
    requires TableFits(c) && HasType(job, c.typ) && AllWellFormed(rs) && h.length == END_FLAG && |prefix| == 1096
    ensures var (e, after) := AssignAll(c, job, AttrsOf(rs));
            DecodeFile(c, job, prefix + (AllBytes(rs) + (HeaderBytes(h) + rest)))
            == if e.None? then (Accepted(rest), after) else (Rejected(e.value), after)
  {
    hide DecodeFile, AssignAll, AllBytes, AttrsOf, HeaderBytes, AllWellFormed, TableFits, HasType;
    DecodeFileIsFold(c, job, prefix, rs, h, rest);
  }

  lemma FilePieces(a: string, b: string, c: string, d: string, e: string)
    ensures a + b + c + d + e == a + (b + ((c + d) + e))
  {
    E.RegroupRight(a, b, c, d, e);
    assert c + (d + e) == (c + d) + e;
  }

  // ---- files cut short ----

  lemma TooShort(c: Config, job: Node, data: string)
    requires TableFits(c) && HasType(job, c.typ) && |data| < 1096
    ensures DecodeFile(c, job, data) == (Rejected(SeekError), job)
  {
  }

  lemma BadEnd(c: Config, job: Node, prefix: string, rs: seq<RawRecord>, end: string)
    requires TableFits(c) && HasType(job, c.typ) && |prefix| == 1096
    requires AllWellFormed(rs) && AssignAll(c, job, AttrsOf(rs)).0.None? && ReadRecord(end).Bad?
    ensures DecodeFile(c, job, prefix + AllBytes(rs) + end).0.Rejected?
  {
    hide DecodeFile, AssignAll, AllBytes, AttrsOf, AllWellFormed, ReadRecord, DecodeLoop, TableFits, HasType;
    hide A.LastAttr;
    var data := prefix + AllBytes(rs) + end;
    assert data[1096..] == AllBytes(rs) + end;
    A.BodyDecodes(c, job, data, rs, end);
    A.LoopOnBad(c, AssignAll(c, job, AttrsOf(rs)).1, A.LastAttr(rs), end);
  }

  /** A file of fewer than 1096 bytes, or one cut inside a record behind others that assign, is rejected. */
  lemma CutInside(
    c: Config, job: Node, prefix: string, ps: seq<Piece>, attrs: seq<Attr>, p: Piece, n: nat, short: string)
    requires TableFits(c) && HasType(job, c.typ) && |short| < 1096
    requires |prefix| == 1096 && AllMeasured(ps) && AllStandFor(ps, attrs) && AssignAll(c, job, attrs).0.None?
    requires Measured(p) && 0 < n < |PieceBytes(p)|
    ensures DecodeFile(c, job, short) == (Rejected(SeekError), job)
    ensures DecodeFile(c, job, prefix + PiecesBytes(ps) + PieceBytes(p)[..n]).0.Rejected?
  {
    hide *;
    TooShort(c, job, short);
    PiecesAreRaw(ps, attrs);
    MeasuredHeader(p);
    PieceIsRaw(p);
    CutRecord(RawOfPiece(p), n);
    BadEnd(c, job, prefix, RawsOfPieces(ps), PieceBytes(p)[..n]);
  }

  lemma MeasuredHeader(p: Piece)
    requires Measured(p)
    ensures |p.header| == 24
  {
    hide Signed32;
  }

  // ---- what the writer writes ----

  function Ended(text: string, nuls: nat): string {
    if text == "" then "" else text + Nuls(nuls)
  }

  /** A record as the program writes it: terminated texts, 80 NULs of padding, flags and reference count zero. */
  predicate WrittenFor(p: Piece, a: Attr) {
    && |p.header| == 24
    && p.name == Ended(a.name, 1) && p.resource == Ended(a.resource, 1) && p.value == Ended(a.value, 2)
    && p.padding == Nuls(80)
    && Signed32(p.header[16], p.header[17], p.header[18], p.header[19]) == 0
    && Signed32(p.header[20], p.header[21], p.header[22], p.header[23]) == 0
  }

  predicate ShortAttr(a: Attr) {
    |a.name| + |a.resource| + |a.value| <= 0x7FFF_F000
  }

  lemma RecordWritten(a: Attr) returns (p: Piece)
    requires ShortAttr(a)
    ensures E.RecordBytes(a) == PieceBytes(p) && Measured(p) && WrittenFor(p, a)
  {
    var h := E.RecordHeader(a);
    p := Piece(HeaderBytes(h), Ended(a.name, 1), Ended(a.resource, 1), Ended(a.value, 2), Nuls(80));
    HeaderWritten(h);
    hide HeaderBytes, Signed32;
    assert Repeat(NUL, 1) == Nuls(1) && Repeat(NUL, 2) == Nuls(2) && Repeat(NUL, PADDING) == Nuls(80);
    E.RegroupRight(p.header, p.name, p.resource, p.value, p.padding);
  }

  lemma {:induction false} RecordsWritten(attrs: seq<Attr>) returns (ps: seq<Piece>)
    requires forall i :: 0 <= i < |attrs| ==> ShortAttr(attrs[i])
    ensures E.Records(attrs) == PiecesBytes(ps) && AllMeasured(ps)
    ensures |ps| == |attrs| && forall i :: 0 <= i < |ps| ==> WrittenFor(ps[i], attrs[i])
  {
    hide E.RecordBytes, PieceBytes, Measured, WrittenFor, ShortAttr;
    if attrs == [] {
      ps := [];
    } else {
      var p := RecordWritten(attrs[0]);
      var more := RecordsWritten(attrs[1..]);
      ps := [p] + more;
      assert ps[1..] == more;
    }
  }

  /**
   The file `Marshal` writes: 1096 NULs, a measured record for each attribute in order, the bytes
   39 FD FF FF and twenty NULs.
   */
  lemma FileWritten(attrs: seq<Attr>) returns (ps: seq<Piece>)
    requires forall i :: 0 <= i < |attrs| ==> ShortAttr(attrs[i])
    ensures E.JobFileBytes(attrs) == Nuls(1096) + PiecesBytes(ps) + "9\U{FD}\U{FF}\U{FF}" + Nuls(20)
    ensures AllMeasured(ps) && |ps| == |attrs| && forall i :: 0 <= i < |ps| ==> WrittenFor(ps[i], attrs[i])
  {
    hide E.Records, PiecesBytes, AllMeasured, WrittenFor, ShortAttr;
    ps := RecordsWritten(attrs);
    EndWritten();
    hide HeaderBytes;
    assert Repeat(NUL, 1096) == Nuls(1096);
    assert Nuls(1096) + PiecesBytes(ps) + "9\U{FD}\U{FF}\U{FF}" + Nuls(20)
        == Nuls(1096) + (PiecesBytes(ps) + ("9\U{FD}\U{FF}\U{FF}" + Nuls(20)));
  }

  lemma EndWritten()
    ensures E.END_MARKER == "9\U{FD}\U{FF}\U{FF}" + Nuls(20)
  {
    assert Le32(-711) == "9\U{FD}\U{FF}\U{FF}" && Le32(0) == Nuls(4);
    hide Le32;
    assert "9\U{FD}\U{FF}\U{FF}" + Nuls(4) + Nuls(4) + Nuls(4) + Nuls(4) + Nuls(4) == "9\U{FD}\U{FF}\U{FF}" + Nuls(20);
  }
}
