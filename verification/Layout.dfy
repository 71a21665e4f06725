/**
 The records of a job file: attribute headers, their little-endian form
 (`binary.Read` and `binary.Write`), and the constants of `internal/pbsjob/job_file.go`.
 */
module Layout {
  import opened Strconv

  const END_FLAG: Int32 := -711
  const PADDING: nat := 80
  const SENTINEL: string := "Job_Name"
  const START_POS: nat := 1120
  const HEADER_SIZE: nat := 24
  const NUL: char := '\0'

  datatype JobAttrHeader = JobAttrHeader(
    length: Int32, name: Int32, resource: Int32, value: Int32, flags: Int32, refCount: Int32)

  /** The three texts of an attribute; the class `JobAttr` holds them while the program fills them in. */
  datatype Attr = Attr(name: string, resource: string, value: string)

  class JobAttr {
    var name: string
    var resource: string
    var value: string

    constructor (name: string, resource: string)
      ensures View() == Attr(name, resource, "")
    {
      this.name, this.resource, value := name, resource, "";
    }

    function View(): Attr
      reads this
    {
      Attr(name, resource, value)
    }
  }

  /** `attrLength` */
  function AttrLength(length: nat, padding: nat): nat {
    if length > 0 then length + padding else 0
  }

  function Byte(n: int): (c: char)
    ensures c as int == Code(c) == n % 0x100
  {
    (n % 0x100) as char
  }

  function Code(c: char): (n: int)
    ensures 0 <= n < 0x100 && (c as int < 0x100 ==> n == c as int)
  {
    c as int % 0x100
  }

  function Le32(n: Int32): (s: string)
    ensures |s| == 4
  {
    [Byte(n), Byte(n / 0x100), Byte(n / 0x100 / 0x100), Byte(n / 0x100 / 0x100 / 0x100)]
  }

  function ReadLe32(s: string): Int32
    requires |s| == 4
  {
    Wrap32(Code(s[0]) + 0x100 * Code(s[1]) + 0x1_0000 * Code(s[2]) + 0x100_0000 * Code(s[3]))
  }

  function HeaderBytes(h: JobAttrHeader): (s: string)
    ensures |s| == HEADER_SIZE
  {
    Le32(h.length) + Le32(h.name) + Le32(h.resource) + Le32(h.value) + Le32(h.flags) + Le32(h.refCount)
  }

  function ReadHeader(s: string): JobAttrHeader
    requires |s| == HEADER_SIZE
  {
    JobAttrHeader(ReadLe32(s[0..4]), ReadLe32(s[4..8]), ReadLe32(s[8..12]),
                  ReadLe32(s[12..16]), ReadLe32(s[16..20]), ReadLe32(s[20..24]))
  }

  lemma ReadLe32Bytes(n: Int32)
    ensures ReadLe32(Le32(n)) == n
  {
    var n1, n2, n3, n4 := n / 0x100, n / 0x100 / 0x100, n / 0x100 / 0x100 / 0x100, n / 0x100 / 0x100 / 0x100 / 0x100;
    assert n == 0x100 * n1 + n % 0x100 && n1 == 0x100 * n2 + n1 % 0x100;
    assert n2 == 0x100 * n3 + n2 % 0x100 && n3 == 0x100 * n4 + n3 % 0x100;
    Wrap32Shift(n, -n4);
  }

  lemma Wrap32Shift(n: Int32, k: int)
    ensures Wrap32(n + 0x1_0000_0000 * k) == n
  {
    var m := n + 0x8000_0000;
    assert m + 0x1_0000_0000 * k == 0x1_0000_0000 * k + m && 0 <= m < 0x1_0000_0000;
    assert (0x1_0000_0000 * k + m) % 0x1_0000_0000 == m;
  }

  lemma ReadHeaderBytes(h: JobAttrHeader)
    ensures ReadHeader(HeaderBytes(h)) == h
  {
    ReadLe32Bytes(h.length);
    ReadLe32Bytes(h.name);
    ReadLe32Bytes(h.resource);
    ReadLe32Bytes(h.value);
    ReadLe32Bytes(h.flags);
    ReadLe32Bytes(h.refCount);
    var s := HeaderBytes(h);
    assert s[0..4] == Le32(h.length) && s[4..8] == Le32(h.name) && s[8..12] == Le32(h.resource);
    assert s[12..16] == Le32(h.value) && s[16..20] == Le32(h.flags) && s[20..24] == Le32(h.refCount);
  }

  /** A byte is a character below 256. */
  ghost predicate IsBytes(s: string) {
    forall i :: 0 <= i < |s| ==> s[i] as int < 0x100
  }

  /** The base-256 digits of a number written with them. */
  lemma DigitsOf(a: int, b: int, c: int, d: int, q: int, n: int)
    requires 0 <= a < 0x100 && 0 <= b < 0x100 && 0 <= c < 0x100 && 0 <= d < 0x100
    requires n == a + 0x100 * (b + 0x100 * (c + 0x100 * (d + 0x100 * q)))
    ensures n % 0x100 == a && n / 0x100 % 0x100 == b
    ensures n / 0x100 / 0x100 % 0x100 == c && n / 0x100 / 0x100 / 0x100 % 0x100 == d
  {
    var z := d + 0x100 * q;
    var y := c + 0x100 * z;
    var x := b + 0x100 * y;
    assert n / 0x100 == x && x / 0x100 == y && y / 0x100 == z;
  }

  lemma ByteIs(n: int, c: char)
    requires c as int < 0x100 && n % 0x100 == c as int
    ensures Byte(n) == c
  {
  }

  lemma WrapSum(sum: int)
    requires 0 <= sum < 0x1_0000_0000
    ensures Wrap32(sum) == sum + 0x1_0000_0000 * (if sum < 0x8000_0000 then 0 else -1)
  {
  }

  lemma Le32OfRead(s: string)
    requires |s| == 4 && IsBytes(s)
    ensures Le32(ReadLe32(s)) == s
  {
    hide Wrap32, Byte, Code;
    var a, b, c, d := s[0] as int, s[1] as int, s[2] as int, s[3] as int;
    var sum := a + 0x100 * b + 0x1_0000 * c + 0x100_0000 * d;
    var n: int := ReadLe32(s);
    WrapSum(sum);
    if sum < 0x8000_0000 {
      DigitsOf(a, b, c, d, 0, n);
    } else {
      DigitsOf(a, b, c, d, -1, n);
    }
    ByteIs(n, s[0]);
    ByteIs(n / 0x100, s[1]);
    ByteIs(n / 0x100 / 0x100, s[2]);
    ByteIs(n / 0x100 / 0x100 / 0x100, s[3]);
  }

  lemma HeaderBytesOfRead(s: string)
    requires |s| == HEADER_SIZE && IsBytes(s)
    ensures HeaderBytes(ReadHeader(s)) == s
  {
    Le32OfRead(s[0..4]);
    Le32OfRead(s[4..8]);
    Le32OfRead(s[8..12]);
    Le32OfRead(s[12..16]);
    Le32OfRead(s[16..20]);
    Le32OfRead(s[20..24]);
  }

  // ---- the header, byte by byte ----

  /** Four bytes as a signed number, the lowest first. */
  function Signed32(a: char, b: char, c: char, d: char): int {
    var n := a as int + 0x100 * (b as int) + 0x1_0000 * (c as int) + 0x100_0000 * (d as int);
    if n < 0x8000_0000 then n else n - 0x1_0000_0000
  }

  lemma ReadLe32Is(s: string)
    requires |s| == 4 && forall i :: 0 <= i < 4 ==> s[i] as int < 0x100
    ensures ReadLe32(s) == Signed32(s[0], s[1], s[2], s[3])
  {
    var n := s[0] as int + 0x100 * (s[1] as int) + 0x1_0000 * (s[2] as int) + 0x100_0000 * (s[3] as int);
    WrapSum(n);
  }

  /** The six numbers of a header are those of its bytes, four at a time, the lowest byte first. */
  lemma HeaderNumbers(s: string)
    requires |s| == 24 && forall i :: 0 <= i < 24 ==> s[i] as int < 0x100
    ensures var h := ReadHeader(s);
            && h.length == Signed32(s[0], s[1], s[2], s[3])
            && h.name == Signed32(s[4], s[5], s[6], s[7])
            && h.resource == Signed32(s[8], s[9], s[10], s[11])
            && h.value == Signed32(s[12], s[13], s[14], s[15])
            && h.flags == Signed32(s[16], s[17], s[18], s[19])
            && h.refCount == Signed32(s[20], s[21], s[22], s[23])
  {
    hide ReadLe32, Signed32;
    ReadLe32Is(s[0..4]);
    ReadLe32Is(s[4..8]);
    ReadLe32Is(s[8..12]);
    ReadLe32Is(s[12..16]);
    ReadLe32Is(s[16..20]);
    ReadLe32Is(s[20..24]);
  }

  lemma HeaderIsBytes(h: JobAttrHeader)
    ensures forall i :: 0 <= i < 24 ==> HeaderBytes(h)[i] as int < 0x100
  {
    hide Byte;
  }

  /** The header written is one of real bytes that stand for its numbers. */
  lemma HeaderWritten(h: JobAttrHeader)
    ensures var s := HeaderBytes(h);
            && |s| == 24 && (forall i :: 0 <= i < 24 ==> s[i] as int < 0x100)
            && h.length == Signed32(s[0], s[1], s[2], s[3])
            && h.name == Signed32(s[4], s[5], s[6], s[7])
            && h.resource == Signed32(s[8], s[9], s[10], s[11])
            && h.value == Signed32(s[12], s[13], s[14], s[15])
            && h.flags == Signed32(s[16], s[17], s[18], s[19])
            && h.refCount == Signed32(s[20], s[21], s[22], s[23])
  {
    hide HeaderBytes, ReadHeader, Signed32;
    HeaderIsBytes(h);
    ReadHeaderBytes(h);
    HeaderNumbers(HeaderBytes(h));
  }
}
