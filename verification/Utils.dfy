/** `internal/utils/utils.go`: numbers with units, and wall times. */
module Utils {
  import opened Wrappers
  import opened GoStrings
  import opened Strconv

  /** `units.RAMInBytes`, whose code is not part of the repository: any function may stand for it. */
  type HumanUnits = string -> Option<Int64>

  /** `ParseBytes`: plain decimal first, human-readable units second. */
  function ParseBytes(ram: HumanUnits, value: string): (r: Option<Int64>)
    ensures ParseInt(value).Num? ==> r == Some(ParseInt(value).value)
  {
    match ParseInt(value)
    case Num(n) => Some(n)
    case _ => ram(value)
  }

  /** `ParseWalltime` reads three colon parts; with fewer it indexes out of range and panics. */
  predicate WalltimeReadable(walltime: string) {
    walltime == "" || |Split(walltime, ':')| >= 3
  }

  function ParseWalltime(walltime: string): Int64
    requires WalltimeReadable(walltime)
  {
    if walltime == "" then 0
    else
      var parts := Split(walltime, ':');
      Wrap64(3600 * Lenient(ParseInt(parts[0])) + 60 * Lenient(ParseInt(parts[1])) + Lenient(ParseInt(parts[2])))
  }

  /** `parts[i]`; None where the program panics. */
  function Indexed(parts: seq<string>, i: nat): Option<string> {
    if i < |parts| then Some(parts[i]) else None
  }

  /** `ParseWalltime` step by step; None where it panics. */
  method TryParseWalltime(walltime: string) returns (seconds: Option<Int64>)
    ensures seconds == if WalltimeReadable(walltime) then Some(ParseWalltime(walltime)) else None
  {
    hide Split, ParseInt;
    var walltimeSeconds: Int64 := 0;
    if walltime == "" {
      return Some(0);
    }
    var walltimeParts := Split(walltime, ':');
    var hours := Indexed(walltimeParts, 0);
    if hours.None? {
      return None;
    }
    var minutes := Indexed(walltimeParts, 1);
    if minutes.None? {
      return None;
    }
    var secondsPart := Indexed(walltimeParts, 2);
    if secondsPart.None? {
      return None;
    }
    var h, m := Lenient(ParseInt(hours.value)), Lenient(ParseInt(minutes.value));
    var s := Lenient(ParseInt(secondsPart.value));
    walltimeSeconds := Wrap64(walltimeSeconds + Wrap64(3600 * h));
    walltimeSeconds := Wrap64(walltimeSeconds + Wrap64(60 * m));
    walltimeSeconds := Wrap64(walltimeSeconds + s);
    WrapSteps(3600 * h, 60 * m, s);
    seconds := Some(walltimeSeconds);
  }

  /** Wrapping at every step or once at the end is the same. */
  lemma WrapSteps(a: int, b: int, c: int)
    ensures Wrap64(Wrap64(Wrap64(0 + Wrap64(a)) + Wrap64(b)) + c) == Wrap64(a + b + c)
  {
    Wrap64Add(a, Wrap64(b));
    Wrap64Add(b, a);
    Wrap64Add(a + b, c);
    hide Wrap64;
    assert Wrap64(0 + Wrap64(a)) == Wrap64(a);
  }

  function Colons(s: string): nat {
    if s == "" then 0 else Colons(s[1..]) + (if s[0] == ':' then 1 else 0)
  }

  lemma {:induction false} SplitCounts(s: string)
    ensures |Split(s, ':')| == Colons(s) + 1
  {
    if s == "" {
    } else {
      SplitCounts(s[1..]);
    }
  }

  /** So it panics exactly on non-empty texts with fewer than two colons, such as "1:30". */
  lemma WalltimePanicsExactly(walltime: string)
    ensures !WalltimeReadable(walltime) <==> walltime != "" && Colons(walltime) < 2
    ensures !WalltimeReadable("1:30")
  {
    SplitCounts(walltime);
    SplitCounts("1:30");
    assert "1:30"[1..] == ":30" && ":30"[1..] == "30" && "30"[1..] == "0" && "0"[1..] == "";
    assert Colons("0") == 0 && Colons("30") == 0 && Colons(":30") == 1;
  }

  /** A decimal 64-bit integer parses as itself, whatever the unit parser behind it does. */
  lemma ParseBytesDecimal(ram: HumanUnits, n: Int64)
    ensures ParseBytes(ram, FormatInt(n)) == Some(n)
  {
    ParseFormatInt(n);
  }

  /** A wall time h:m:s is that many seconds. */
  lemma WalltimeOfParts(h: nat, m: nat, s: nat)
    requires 3600 * h + 60 * m + s <= MAX_INT64
    ensures var text := Join([FormatInt(h), FormatInt(m), FormatInt(s)], ':');
            WalltimeReadable(text) && ParseWalltime(text) == 3600 * h + 60 * m + s
  {
    var parts := [FormatInt(h), FormatInt(m), FormatInt(s)];
    SplitJoin(parts, ':');
    ParseFormatInt(h);
    ParseFormatInt(m);
    ParseFormatInt(s);
  }

  // ---- any text ----

  /** Digits that 64 bits hold are read as they stand; longer ones go to the unit parser, with or without a sign. */
  lemma ParseBytesDigits(ram: HumanUnits, s: string)
    requires s != "" && AllDigits(s)
    ensures ParseBytes(ram, s) == if Decimal(s) <= 0x7FFF_FFFF_FFFF_FFFF then Some(Decimal(s)) else ram(s)
    ensures ParseBytes(ram, "+" + s) == if Decimal(s) <= 0x7FFF_FFFF_FFFF_FFFF then Some(Decimal(s)) else ram("+" + s)
    ensures ParseBytes(ram, "-" + s)
         == if Decimal(s) <= 0x8000_0000_0000_0000 then Some(-(Decimal(s) as int)) else ram("-" + s)
  {
    ParseIntDigits(s);
    hide ParseInt, Decimal;
  }

  /** Any other text, such as "92gb", goes to the unit parser as it stands. */
  lemma ParseBytesUnits(ram: HumanUnits, s: string, c: char, rest: string)
    requires AllDigits(s) && !('0' <= c <= '9') && (s == "" ==> c != '+' && c != '-')
    ensures ParseBytes(ram, s + [c] + rest) == ram(s + [c] + rest)
    ensures ParseBytes(ram, "+" + (s + [c] + rest)) == ram("+" + (s + [c] + rest))
    ensures ParseBytes(ram, "-" + (s + [c] + rest)) == ram("-" + (s + [c] + rest))
    ensures ParseBytes(ram, "") == ram("") && ParseBytes(ram, "+") == ram("+") && ParseBytes(ram, "-") == ram("-")
    ensures ParseBytes(ram, "92gb") == ram("92gb")
  {
    ParseIntOther(s, c, rest);
    ParseIntOther("92", 'g', "b");
    assert "92" + ['g'] + "b" == "92gb";
    hide ParseInt, Decimal;
  }

  lemma SplitThree(a: string, b: string, c: string, rest: string)
    requires ':' !in a && ':' !in b && ':' !in c
    ensures Split(a + ":" + b + ":" + c, ':') == [a, b, c]
    ensures Split(a + ":" + b + ":" + c + ":" + rest, ':') == [a, b, c] + Split(rest, ':')
  {
    SplitNoSep(a, ':');
    SplitNoSep(b, ':');
    SplitNoSep(c, ':');
    SplitAppend(a, b + ":" + c, ':');
    SplitAppend(b, c, ':');
    assert a + ":" + b + ":" + c == a + [':'] + (b + ":" + c);
    assert b + ":" + c == b + [':'] + c;
    SplitAppend(a + ":" + b + ":" + c, rest, ':');
    assert a + ":" + b + ":" + c + ":" + rest == (a + ":" + b + ":" + c) + [':'] + rest;
    hide Split;
    assert [a] + ([b] + [c]) == [a, b, c];
  }

  function Least(a: int, b: int): int { if a <= b then a else b }

  lemma PartIs(s: string)
    requires s != "" && AllDigits(s)
    ensures Lenient(ParseInt(s)) == Least(Decimal(s), 0x7FFF_FFFF_FFFF_FFFF) && ':' !in s
  {
    ParseIntDigits(s);
    hide ParseInt, Decimal;
  }

  lemma WalltimeByParts(text: string)
    requires text != "" && |Split(text, ':')| >= 3
    ensures var parts := Split(text, ':');
            WalltimeReadable(text)
            && ParseWalltime(text)
               == Wrap64(3600 * Lenient(ParseInt(parts[0])) + 60 * Lenient(ParseInt(parts[1]))
                         + Lenient(ParseInt(parts[2])))
  {
    hide Split, ParseInt, Wrap64;
  }

  /**
   A wall time of digits, padded with zeros or not, is 3600 h + 60 m + s in 64-bit arithmetic;
   parts behind the third do not count.
   */
  lemma WalltimeOfDigits(h: string, m: string, s: string, rest: string)
    requires h != "" && AllDigits(h) && m != "" && AllDigits(m) && s != "" && AllDigits(s)
    ensures var text, most := h + ":" + m + ":" + s, 0x7FFF_FFFF_FFFF_FFFF;
            && WalltimeReadable(text) && WalltimeReadable(text + ":" + rest)
            && ParseWalltime(text) == ParseWalltime(text + ":" + rest)
               == Wrap64(3600 * Least(Decimal(h), most) + 60 * Least(Decimal(m), most) + Least(Decimal(s), most))
  {
    hide *;
    PartIs(h);
    PartIs(m);
    PartIs(s);
    SplitThree(h, m, s, rest);
    WalltimeByParts(h + ":" + m + ":" + s);
    WalltimeByParts(h + ":" + m + ":" + s + ":" + rest);
  }

  /** A part that does not begin with a digit or a sign counts nothing, and neither does an empty one. */
  lemma PartOfOther(c: char, rest: string)
    requires !('0' <= c <= '9') && c != '+' && c != '-'
    ensures Lenient(ParseInt([c] + rest)) == 0 == Lenient(ParseInt(""))
  {
    ParseIntOther("", c, rest);
    assert "" + [c] + rest == [c] + rest;
    hide ParseInt;
  }

  /** Hours that are no number are taken for none. */
  lemma WalltimeOfUnreadable(c: char, rest: string, m: string, s: string)
    requires !('0' <= c <= '9') && c != '+' && c != '-' && ':' !in [c] + rest
    requires m != "" && AllDigits(m) && s != "" && AllDigits(s) && 60 * Decimal(m) + Decimal(s) <= 0x7FFF_FFFF_FFFF_FFFF
    ensures var text := [c] + rest + ":" + m + ":" + s;
            WalltimeReadable(text) && ParseWalltime(text) == 60 * Decimal(m) + Decimal(s)
  {
    PartOfOther(c, rest);
    PartIs(m);
    PartIs(s);
    SplitThree([c] + rest, m, s, "");
    hide Split, ParseInt, Decimal, ParseWalltime, WalltimeReadable;
    WalltimeByParts([c] + rest + ":" + m + ":" + s);
  }

  lemma TwoDigits(s: string)
    requires |s| == 2 && AllDigits(s)
    ensures Decimal(s) == 10 * (s[0] as int - '0' as int) + (s[1] as int - '0' as int) < 100
  {
    assert s[..1][..0] == "" && Decimal(s[..1]) == s[0] as int - '0' as int;
  }

  lemma OfTwoDigits(h: string, m: string, s: string)
    requires |h| == 2 && |m| == 2 && |s| == 2 && AllDigits(h) && AllDigits(m) && AllDigits(s)
    ensures var text := h + ":" + m + ":" + s;
            WalltimeReadable(text) && ParseWalltime(text) == 3600 * Decimal(h) + 60 * Decimal(m) + Decimal(s)
  {
    hide *;
    TwoDigits(h);
    TwoDigits(m);
    TwoDigits(s);
    WalltimeOfDigits(h, m, s, "");
    SmallTime(Decimal(h), Decimal(m), Decimal(s));
  }

  lemma SmallTime(h: nat, m: nat, s: nat)
    requires h < 1000 && m < 1000 && s < 1000
    ensures var most := 0x7FFF_FFFF_FFFF_FFFF;
            Wrap64(3600 * Least(h, most) + 60 * Least(m, most) + Least(s, most)) == 3600 * h + 60 * m + s
  {
    hide Wrap64;
  }

  /** No text is no time, "01:00:00" is an hour, and "10:10:10" is 36610 seconds. */
  lemma OneHour()
    ensures WalltimeReadable("") && ParseWalltime("") == 0
    ensures WalltimeReadable("01:00:00") && ParseWalltime("01:00:00") == 3600
    ensures WalltimeReadable("10:10:10") && ParseWalltime("10:10:10") == 36610
  {
    NoTime();
    hide ParseWalltime, WalltimeReadable, Decimal;
    DigitsTime("01:00:00", "01", "00", "00");
    DigitsTime("10:10:10", "10", "10", "10");
  }

  lemma NoTime()
    ensures WalltimeReadable("") && ParseWalltime("") == 0
  {
  }

  lemma DigitsTime(text: string, h: string, m: string, s: string)
    requires |h| == 2 && |m| == 2 && |s| == 2 && AllDigits(h) && AllDigits(m) && AllDigits(s)
    requires text == h + ":" + m + ":" + s
    ensures WalltimeReadable(text)
         && ParseWalltime(text) == 3600 * (10 * (h[0] as int - '0' as int) + (h[1] as int - '0' as int))
                                   + 60 * (10 * (m[0] as int - '0' as int) + (m[1] as int - '0' as int))
                                   + 10 * (s[0] as int - '0' as int) + (s[1] as int - '0' as int)
  {
    hide Decimal, ParseWalltime, WalltimeReadable;
    TwoDigits(h);
    TwoDigits(m);
    TwoDigits(s);
    OfTwoDigits(h, m, s);
  }

  lemma DecimalTime(h: nat, m: nat, s: nat)
    requires 3600 * h + 60 * m + s <= 0x7FFF_FFFF_FFFF_FFFF
    ensures var most := 0x7FFF_FFFF_FFFF_FFFF;
            Wrap64(3600 * Least(h, most) + 60 * Least(m, most) + Least(s, most)) == 3600 * h + 60 * m + s
  {
    hide Wrap64;
  }

  /** The text is a wall time of this many seconds: none, or hours, minutes and seconds in digits. */
  ghost predicate Lasts(walltime: string, seconds: int) {
    || (walltime == "" && seconds == 0)
    || exists h, m, s :: LastsFor(walltime, seconds, h, m, s)
  }

  predicate LastsFor(walltime: string, seconds: int, h: string, m: string, s: string) {
    && h != "" && AllDigits(h) && m != "" && AllDigits(m) && s != "" && AllDigits(s)
    && walltime == h + ":" + m + ":" + s
    && seconds == 3600 * Decimal(h) + 60 * Decimal(m) + Decimal(s)
  }

  /** A wall time is read as its seconds, where 64 bits hold them. */
  lemma WalltimeLasts(walltime: string, seconds: int)
    requires Lasts(walltime, seconds) && seconds <= 0x7FFF_FFFF_FFFF_FFFF
    ensures WalltimeReadable(walltime) && ParseWalltime(walltime) == seconds
  {
    hide ParseWalltime, WalltimeReadable, Decimal, AllDigits;
    if walltime == "" && seconds == 0 {
      NoTime();
    } else {
      var h, m, s :| LastsFor(walltime, seconds, h, m, s);
      WalltimeOfDigits(h, m, s, "");
      DecimalTime(Decimal(h), Decimal(m), Decimal(s));
    }
  }

  lemma TimeOfParts(a: string, b: string, c: string, h: nat, m: nat, s: nat)
    requires a != "" && AllDigits(a) && b != "" && AllDigits(b) && c != "" && AllDigits(c)
    requires Decimal(a) == h && Decimal(b) == m && Decimal(c) == s && 3600 * h + 60 * m + s <= 0x7FFF_FFFF_FFFF_FFFF
    ensures WalltimeReadable(a + ":" + b + ":" + c) && ParseWalltime(a + ":" + b + ":" + c) == 3600 * h + 60 * m + s
  {
    hide ParseWalltime, WalltimeReadable, Decimal, AllDigits;
    assert LastsFor(a + ":" + b + ":" + c, 3600 * h + 60 * m + s, a, b, c);
    WalltimeLasts(a + ":" + b + ":" + c, 3600 * h + 60 * m + s);
  }

  /** A wall time is the same number of seconds with any number of zeros in front of its parts. */
  lemma PaddedWalltime(i: nat, h: nat, j: nat, m: nat, k: nat, s: nat)
    requires 3600 * h + 60 * m + s <= 0x7FFF_FFFF_FFFF_FFFF
    ensures var zeros := (n: nat) => seq(n, _ => '0');
            var text := zeros(i) + FormatUint(h) + ":" + (zeros(j) + FormatUint(m)) + ":" + (zeros(k) + FormatUint(s));
            WalltimeReadable(text) && ParseWalltime(text) == 3600 * h + 60 * m + s
  {
    PaddedDigits(i, h);
    PaddedDigits(j, m);
    PaddedDigits(k, s);
    hide ParseWalltime, WalltimeReadable, Decimal, AllDigits, FormatUint;
    var a, b, c := seq(i, _ => '0') + FormatUint(h), seq(j, _ => '0') + FormatUint(m), seq(k, _ => '0') + FormatUint(s);
    TimeOfParts(a, b, c, h, m, s);
  }

  lemma PaddedDigits(k: nat, n: nat)
    ensures var text := seq(k, _ => '0') + FormatUint(n);
            text != "" && AllDigits(text) && Decimal(text) == n
  {
    PrintedDecimal(n);
    ZerosInFront(k, FormatUint(n));
  }
}
