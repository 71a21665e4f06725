/** Go's fixed-width integers and the parts of `strconv` that the modelled files call. */
module Strconv {
  const MIN_INT64: int := -0x8000_0000_0000_0000
  const MAX_INT64: int := 0x7FFF_FFFF_FFFF_FFFF
  const MAX_UINT64: int := 0xFFFF_FFFF_FFFF_FFFF

  type Int64 = n: int | MIN_INT64 <= n <= MAX_INT64
  type UInt64 = n: int | 0 <= n <= MAX_UINT64
  type Int32 = n: int | -0x8000_0000 <= n <= 0x7FFF_FFFF

  /** The value of an integer after Go's wrap-around to 64 or 32 signed bits. */
  function Wrap64(n: int): (w: Int64)
    ensures (n - w) % 0x1_0000_0000_0000_0000 == 0
    ensures MIN_INT64 <= n <= MAX_INT64 ==> w == n
  {
    (n + 0x8000_0000_0000_0000) % 0x1_0000_0000_0000_0000 - 0x8000_0000_0000_0000
  }

  function WrapU64(n: int): (w: UInt64)
    ensures (n - w) % 0x1_0000_0000_0000_0000 == 0
    ensures 0 <= n <= MAX_UINT64 ==> w == n
  {
    n % 0x1_0000_0000_0000_0000
  }

  function Wrap32(n: int): (w: Int32)
    ensures (n - w) % 0x1_0000_0000 == 0
    ensures -0x8000_0000 <= n <= 0x7FFF_FFFF ==> w == n
  {
    (n + 0x8000_0000) % 0x1_0000_0000 - 0x8000_0000
  }

  lemma Wrap64Shift(n: int, k: int)
    ensures Wrap64(n + 0x1_0000_0000_0000_0000 * k) == Wrap64(n)
  {
    var m := n + 0x8000_0000_0000_0000;
    assert (m + 0x1_0000_0000_0000_0000 * k) / 0x1_0000_0000_0000_0000 == m / 0x1_0000_0000_0000_0000 + k;
  }

  /** Wrapping early or late gives the same sum. */
  lemma Wrap64Add(a: int, b: int)
    ensures Wrap64(Wrap64(a) + b) == Wrap64(a + b)
  {
    var k := (a - Wrap64(a)) / 0x1_0000_0000_0000_0000;
    assert a + b == Wrap64(a) + b + 0x1_0000_0000_0000_0000 * k;
    Wrap64Shift(Wrap64(a) + b, k);
  }

  lemma WrapU64Add(a: int, b: int)
    ensures WrapU64(WrapU64(a) + b) == WrapU64(a + b)
  {
    var k := (a - WrapU64(a)) / 0x1_0000_0000_0000_0000;
    assert a + b == WrapU64(a) + b + 0x1_0000_0000_0000_0000 * k;
    var m := WrapU64(a) + b;
    assert (m + 0x1_0000_0000_0000_0000 * k) / 0x1_0000_0000_0000_0000 == m / 0x1_0000_0000_0000_0000 + k;
  }

  /** Sums that wrap to the same value still do after values are added that do. */
  lemma WrapU64Step(a: int, b: int, x: int, y: int)
    requires WrapU64(a) == WrapU64(b) && x == WrapU64(y)
    ensures WrapU64(a + x) == WrapU64(b + y)
  {
    WrapU64Add(a, x);
    WrapU64Add(b, x);
    WrapU64Add(y, b);
    hide WrapU64;
  }

  lemma Wrap64Step(a: int, b: int, x: int, y: int)
    requires Wrap64(a) == Wrap64(b) && x == Wrap64(y)
    ensures Wrap64(a + x) == Wrap64(b + y)
  {
    Wrap64Add(a, x);
    Wrap64Add(b, x);
    Wrap64Add(y, b);
    hide Wrap64;
  }

  predicate IsDigit(c: char) { '0' <= c <= '9' }

  function DigitValue(c: char): (d: nat)
    requires IsDigit(c)
    ensures d < 10
  {
    c as int - '0' as int
  }

  function DigitChar(d: nat): (c: char)
    requires d < 10
    ensures IsDigit(c) && DigitValue(c) == d
  {
    ('0' as int + d) as char
  }

  /** `strconv.FormatUint` in base ten. */
  function FormatUint(n: nat): (s: string)
    ensures s != "" && forall i :: 0 <= i < |s| ==> IsDigit(s[i])
  {
    if n < 10 then [DigitChar(n)] else FormatUint(n / 10) + [DigitChar(n % 10)]
  }

  /** `strconv.FormatInt` in base ten, and `strconv.Itoa`. */
  function FormatInt(n: int): (s: string)
    ensures s != "" && IsDigit(s[|s| - 1])
    ensures forall i :: 0 <= i < |s| ==> IsDigit(s[i]) || s[i] == '-'
    ensures n >= 0 ==> forall i :: 0 <= i < |s| ==> IsDigit(s[i])
  {
    if n < 0 then "-" + FormatUint(-n) else FormatUint(n)
  }

  /** Result of a numeric parse: a range error carries the clamped value Go returns beside it. */
  datatype Parsed = Num(value: int) | SyntaxError | RangeError(clamped: int)

  /** What Go leaves in the result when the caller ignores the error. */
  function Lenient(p: Parsed): int {
    match p
    case Num(v) => v
    case SyntaxError => 0
    case RangeError(v) => v
  }

  /** The digit loop of `strconv.ParseUint`: it stops at the first bad digit or overflow. */
  function ScanDigits(s: string, acc: nat): (p: Parsed)
    ensures p.Num? ==> p.value >= 0 && (acc <= MAX_UINT64 ==> p.value <= MAX_UINT64)
    ensures p.RangeError? ==> p.clamped == MAX_UINT64
  {
    if s == "" then Num(acc)
    else if !IsDigit(s[0]) then SyntaxError
    else
      var next := 10 * acc + DigitValue(s[0]);
      if next > MAX_UINT64 then RangeError(MAX_UINT64) else ScanDigits(s[1..], next)
  }

  /** `strconv.ParseUint(s, 10, 64)`. */
  function ParseUint(s: string): (p: Parsed)
    ensures p.Num? ==> 0 <= p.value <= MAX_UINT64
    ensures p.RangeError? ==> p.clamped == MAX_UINT64
  {
    if s == "" then SyntaxError else ScanDigits(s, 0)
  }

  /** `strconv.ParseInt(s, 10, 64)`, and `strconv.Atoi`. */
  function ParseInt(s: string): (p: Parsed)
    ensures p.Num? ==> MIN_INT64 <= p.value <= MAX_INT64
    ensures p.RangeError? ==> p.clamped == MIN_INT64 || p.clamped == MAX_INT64
  {
    if s == "" then SyntaxError
    else
      var negative := s[0] == '-';
      var magnitude := ParseUint(if negative || s[0] == '+' then s[1..] else s);
      if magnitude.SyntaxError? then SyntaxError
      else if !negative && Lenient(magnitude) > MAX_INT64 then RangeError(MAX_INT64)
      else if negative && Lenient(magnitude) > MAX_INT64 + 1 then RangeError(MIN_INT64)
      else Num(if negative then -Lenient(magnitude) else Lenient(magnitude))
  }

  /** `strconv.FormatBool` and `strconv.ParseBool`. */
  function FormatBool(b: bool): string { if b then "true" else "false" }

  function ParseBool(s: string): (p: Parsed) {
    if s in ["1", "t", "T", "TRUE", "true", "True"] then Num(1)
    else if s in ["0", "f", "F", "FALSE", "false", "False"] then Num(0)
    else SyntaxError
  }

  // ---- what a text of digits is read as ----

  /** The text is made of decimal digits. */
  predicate AllDigits(s: string) {
    forall i :: 0 <= i < |s| ==> '0' <= s[i] <= '9'
  }

  /** The number a text of digits stands for: the last digit counts ones, and each place before it ten times more. */
  function Decimal(s: string): nat
    requires AllDigits(s)
  {
    if s == "" then 0 else 10 * Decimal(s[..|s| - 1]) + (s[|s| - 1] as int - '0' as int)
  }

  /** Reading on from the left, with `acc` read so far. */
  function ReadOn(s: string, acc: nat): (n: nat)
    requires AllDigits(s)
    ensures n >= acc
  {
    if s == "" then acc else ReadOn(s[1..], 10 * acc + DigitValue(s[0]))
  }

  lemma {:induction false} ReadOnSnoc(s: string, c: char, acc: nat)
    requires AllDigits(s) && '0' <= c <= '9'
    ensures ReadOn(s + [c], acc) == 10 * ReadOn(s, acc) + (c as int - '0' as int)
  {
    if s == "" {
      assert (s + [c])[1..] == "";
    } else {
      assert (s + [c])[1..] == s[1..] + [c];
      ReadOnSnoc(s[1..], c, 10 * acc + DigitValue(s[0]));
    }
  }

  lemma {:induction false} ReadOnIsDecimal(s: string)
    requires AllDigits(s)
    ensures ReadOn(s, 0) == Decimal(s)
  {
    if s == "" {
    } else {
      var init := s[..|s| - 1];
      ReadOnIsDecimal(init);
      ReadOnSnoc(init, s[|s| - 1], 0);
      assert s == init + [s[|s| - 1]];
    }
  }

  lemma {:induction false} ScanReads(s: string, acc: nat)
    requires AllDigits(s) && acc <= 0xFFFF_FFFF_FFFF_FFFF
    ensures ScanDigits(s, acc)
         == if ReadOn(s, acc) <= 0xFFFF_FFFF_FFFF_FFFF then Num(ReadOn(s, acc)) else RangeError(0xFFFF_FFFF_FFFF_FFFF)
  {
    if s != "" && 10 * acc + DigitValue(s[0]) <= 0xFFFF_FFFF_FFFF_FFFF {
      ScanReads(s[1..], 10 * acc + DigitValue(s[0]));
    }
  }

  /** A scan meets the end of the digits only if they have not overflowed before it. */
  lemma {:induction false} ScanStops(s: string, c: char, rest: string, acc: nat)
    requires AllDigits(s) && !('0' <= c <= '9') && acc <= 0xFFFF_FFFF_FFFF_FFFF
    ensures ScanDigits(s + [c] + rest, acc)
         == if ReadOn(s, acc) <= 0xFFFF_FFFF_FFFF_FFFF then SyntaxError else RangeError(0xFFFF_FFFF_FFFF_FFFF)
  {
    var t := s + [c] + rest;
    if s == "" {
      assert t[0] == c;
    } else {
      assert t[0] == s[0] && t[1..] == s[1..] + [c] + rest;
      if 10 * acc + DigitValue(s[0]) <= 0xFFFF_FFFF_FFFF_FFFF {
        ScanStops(s[1..], c, rest, 10 * acc + DigitValue(s[0]));
      }
    }
  }

  /** Digits are read as their decimal value, with any number of leading zeros; beyond 64 bits they are out of range. */
  lemma ParseUintDigits(s: string)
    requires s != "" && AllDigits(s)
    ensures ParseUint(s)
         == if Decimal(s) <= 0xFFFF_FFFF_FFFF_FFFF then Num(Decimal(s)) else RangeError(0xFFFF_FFFF_FFFF_FFFF)
  {
    ScanReads(s, 0);
    ReadOnIsDecimal(s);
  }

  /** Any other text is empty or has a first character that is no digit: refused, unless the digits overflow first. */
  lemma ParseUintOther(s: string, c: char, rest: string)
    requires AllDigits(s) && !('0' <= c <= '9')
    ensures ParseUint("") == SyntaxError
    ensures ParseUint(s + [c] + rest)
         == if Decimal(s) <= 0xFFFF_FFFF_FFFF_FFFF then SyntaxError else RangeError(0xFFFF_FFFF_FFFF_FFFF)
  {
    ScanStops(s, c, rest, 0);
    ReadOnIsDecimal(s);
  }

  lemma NoSign(s: string)
    requires s != "" && s[0] != '+' && s[0] != '-'
    ensures ParseInt(s) == Clamped(false, ParseUint(s))
  {
  }

  lemma Signed(s: string)
    ensures ParseInt("+" + s) == Clamped(false, ParseUint(s)) && ParseInt("-" + s) == Clamped(true, ParseUint(s))
  {
    assert ("+" + s)[1..] == s && ("-" + s)[1..] == s;
  }

  /** A magnitude with its sign, as 64 bits hold it. */
  function Clamped(negative: bool, magnitude: Parsed): Parsed {
    match magnitude
    case SyntaxError => SyntaxError
    case _ =>
      var n := Lenient(magnitude);
      if negative then (if n <= 0x8000_0000_0000_0000 then Num(-n) else RangeError(-0x8000_0000_0000_0000))
      else if n <= 0x7FFF_FFFF_FFFF_FFFF then Num(n)
      else RangeError(0x7FFF_FFFF_FFFF_FFFF)
  }

  /** Digits, with or without a sign, are read as the signed decimal value, clamped to 64 bits where out of range. */
  lemma ParseIntDigits(s: string)
    requires s != "" && AllDigits(s)
    ensures ParseInt(s) == ParseInt("+" + s)
         == if Decimal(s) <= 0x7FFF_FFFF_FFFF_FFFF then Num(Decimal(s)) else RangeError(0x7FFF_FFFF_FFFF_FFFF)
    ensures ParseInt("-" + s)
         == if Decimal(s) <= 0x8000_0000_0000_0000 then Num(-(Decimal(s) as int))
            else RangeError(-0x8000_0000_0000_0000)
  {
    ParseUintDigits(s);
    NoSign(s);
    Signed(s);
  }

  /** Any other text is refused, unless its leading digits overflow 64 unsigned bits first. */
  lemma ParseIntOther(s: string, c: char, rest: string)
    requires AllDigits(s) && !('0' <= c <= '9') && (s == "" ==> c != '+' && c != '-')
    ensures var small := Decimal(s) <= 0xFFFF_FFFF_FFFF_FFFF;
            && ParseInt(s + [c] + rest) == ParseInt("+" + (s + [c] + rest))
               == (if small then SyntaxError else RangeError(0x7FFF_FFFF_FFFF_FFFF))
            && ParseInt("-" + (s + [c] + rest)) == if small then SyntaxError else RangeError(-0x8000_0000_0000_0000)
    ensures ParseInt("") == ParseInt("+") == ParseInt("-") == SyntaxError
  {
    ParseUintOther(s, c, rest);
    var t := s + [c] + rest;
    assert t[0] == if s == "" then c else s[0];
    NoSign(t);
    Signed(t);
    Signed("");
    assert "+" + "" == "+" && "-" + "" == "-";
  }

  /** Leading zeros do not count. */
  lemma {:induction false} ZerosInFront(k: nat, s: string)
    requires AllDigits(s)
    ensures AllDigits(seq(k, _ => '0') + s) && Decimal(seq(k, _ => '0') + s) == Decimal(s)
    decreases |s|, k
  {
    var zeros := seq(k, _ => '0');
    var t := zeros + s;
    if s != "" {
      assert t[..|t| - 1] == zeros + s[..|s| - 1];
      ZerosInFront(k, s[..|s| - 1]);
    } else if k > 0 {
      assert t[..|t| - 1] == seq(k - 1, _ => '0') + s;
      ZerosInFront(k - 1, s);
    }
  }

  /** A printed number stands for that number, and has no leading zero. */
  lemma {:induction false} PrintedDecimal(n: nat)
    ensures AllDigits(FormatUint(n)) && Decimal(FormatUint(n)) == n && (n > 0 ==> FormatUint(n)[0] != '0')
  {
    var s := FormatUint(n);
    if n < 10 {
      assert s[..0] == "" && s[0] as int - '0' as int == n;
    } else {
      PrintedDecimal(n / 10);
      assert s[..|s| - 1] == FormatUint(n / 10);
    }
  }

  // ---- printing then parsing ----

  lemma {:induction false} ScanSnoc(s: string, c: char, acc: nat)
    requires ScanDigits(s, acc).Num? && IsDigit(c)
    requires 10 * ScanDigits(s, acc).value + DigitValue(c) <= MAX_UINT64
    ensures ScanDigits(s + [c], acc) == Num(10 * ScanDigits(s, acc).value + DigitValue(c))
  {
    if s == "" {
      assert (s + [c])[1..] == "";
    } else {
      assert (s + [c])[1..] == s[1..] + [c];
      ScanSnoc(s[1..], c, 10 * acc + DigitValue(s[0]));
    }
  }

  lemma {:induction false} ParseFormatUint(n: nat)
    requires n <= MAX_UINT64
    ensures ParseUint(FormatUint(n)) == Num(n)
  {
    if n < 10 {
      var s := FormatUint(n);
      assert s[1..] == "" && ScanDigits(s[1..], n) == Num(n);
    } else {
      ParseFormatUint(n / 10);
      ScanSnoc(FormatUint(n / 10), DigitChar(n % 10), 0);
    }
  }

  /** Every int64 survives printing and parsing. */
  lemma ParseFormatInt(n: int)
    requires MIN_INT64 <= n <= MAX_INT64
    ensures ParseInt(FormatInt(n)) == Num(n)
  {
    if n < 0 {
      assert FormatInt(n)[1..] == FormatUint(-n);
      ParseFormatUint(-n);
    } else {
      ParseFormatUint(n);
    }
  }

  lemma ParseFormatBool(b: bool)
    ensures ParseBool(FormatBool(b)) == Num(if b then 1 else 0)
  {
    var s := FormatBool(b);
    if b {
      assert s == ["1", "t", "T", "TRUE", "true", "True"][4];
    } else {
      assert s == ["0", "f", "F", "FALSE", "false", "False"][4];
      assert |s| == 5 && s[0] == 'f';
      assert forall t :: t in ["1", "t", "T", "TRUE", "true", "True"] ==> |t| < 5;
    }
  }
}
