/**
 `ParseListFormat` of `internal/utils/utils.go`: CPU lists in the "List format" of
 cpuset(7), and the CPU count `internal/cgroups/cgroups_v1.go` takes from them.
 */
module ListFormat {
  import opened Wrappers
  import opened GoStrings
  import opened Strconv

  /** The one-byte characters `strings.TrimSpace` removes. */
  const SPACES: set<char> := {' ', '\t', '\n', '\r', '\U{0B}', '\U{0C}'}

  /** `strconv.Atoi` with its error ignored. */
  function Atoi(s: string): Int64 { Lenient(ParseInt(s)) }

  /** The numbers from `start` to `end`. */
  function Range(start: int, end: int): (r: seq<int>)
    ensures |r| == if start <= end then end - start + 1 else 0
    ensures forall i :: 0 <= i < |r| ==> r[i] == start + i
    decreases end - start
  {
    if start > end then [] else Range(start, end - 1) + [end]
  }

  function PartValues(part: string): seq<int> {
    if '-' in part then
      var ends := Split(part, '-');
      DashSplits(part);
      Range(Atoi(ends[0]), Atoi(ends[1]))
    else [Atoi(part)]
  }

  lemma {:induction false} DashSplits(part: string)
    requires '-' in part
    ensures |Split(part, '-')| >= 2
  {
    if part[0] != '-' {
      DashSplits(part[1..]);
    }
  }

  function PartsValues(parts: seq<string>): seq<int> {
    if parts == [] then [] else PartsValues(parts[..|parts| - 1]) + PartValues(parts[|parts| - 1])
  }

  function ListValues(text: string): seq<int> {
    var trimmed := Trim(text, SPACES);
    if trimmed == "" then [] else PartsValues(Split(trimmed, ','))
  }

  // ---- which texts the program ends on ----

  /** The counter of the range loop after some steps, in 64-bit arithmetic. */
  function Counter(start: Int64, steps: nat): Int64 {
    if steps == 0 then start else Wrap64(Counter(start, steps - 1) + 1)
  }

  /** The range loop ends: its counter exceeds `end` at some step. */
  ghost predicate LoopEnds(start: Int64, end: Int64) {
    exists steps: nat :: Counter(start, steps) > end
  }

  /** It does not end exactly where nothing can exceed its end: there the guard holds at every step. */
  lemma LoopEndsExactly(start: Int64, end: Int64)
    ensures LoopEnds(start, end) <==> end != MAX_INT64
  {
    if end != MAX_INT64 {
      if start > end {
        assert Counter(start, 0) > end;
      } else {
        CounterCounts(start, end - start + 1);
        assert Counter(start, end - start + 1) > end;
      }
    }
  }

  lemma {:induction false} CounterCounts(start: Int64, steps: nat)
    requires start + steps <= MAX_INT64
    ensures Counter(start, steps) == start + steps
  {
    if steps == 0 {
    } else {
      CounterCounts(start, steps - 1);
    }
  }

  /** The part is no range whose loop runs forever. */
  ghost predicate PartEnds(part: string) {
    '-' in part ==> |Split(part, '-')| >= 2 && LoopEnds(Atoi(Split(part, '-')[0]), Atoi(Split(part, '-')[1]))
  }

  /** The program ends on the text. */
  ghost predicate Ends(text: string) {
    Trim(text, SPACES) != "" ==> forall part :: part in Split(Trim(text, SPACES), ',') ==> PartEnds(part)
  }

  lemma PartEndsExactly(part: string)
    ensures PartEnds(part) <==> ('-' in part ==> |Split(part, '-')| >= 2 && Atoi(Split(part, '-')[1]) != MAX_INT64)
  {
    hide Split, Atoi, LoopEnds;
    if '-' in part {
      DashSplits(part);
      LoopEndsExactly(Atoi(Split(part, '-')[0]), Atoi(Split(part, '-')[1]));
    }
  }

  // ---- the program ----

  /** `ParseListFormat`; None where it appends numbers forever. */
  method ParseListFormat(listFormat: string) returns (result: Option<seq<int>>)
    ensures result.Some? <==> Ends(listFormat)
    ensures result.Some? ==> result.value == ListValues(listFormat)
  {
    hide Trim, Split, Atoi, PartValues, PartsValues, PartEnds, SPACES;
    var trimmed := Trim(listFormat, SPACES);
    if trimmed == "" {
      return Some([]);
    }
    var values: seq<int> := [];
    var parts := Split(trimmed, ',');
    NoParts(parts);
    for k := 0 to |parts|
      invariant values == PartsValues(parts[..k])
      invariant forall part :: part in parts[..k] ==> PartEnds(part)
    {
      PartsSnoc(parts, k);
      PartEndsExactly(parts[k]);
      assert parts[..k + 1] == parts[..k] + [parts[k]];
      if '-' in parts[k] {
        PartIsRange(parts[k]);
        var rangeParts := Split(parts[k], '-');
        var start: int, end: int := Atoi(rangeParts[0]), Atoi(rangeParts[1]);
        if end == MAX_INT64 {
          assert parts[k] in parts;
          return None;
        }
        ghost var before := values;
        var i := start;
        while i <= end
          invariant i <= end + 1 || i == start
          invariant values == before + Range(start, i - 1)
          decreases end - i
        {
          values := values + [i];
          i := Wrap64(i + 1);
        }
        RangeUpTo(start, end, i);
      } else {
        PartIsNumber(parts[k]);
        values := values + [Atoi(parts[k])];
      }
    }
    assert parts[..|parts|] == parts;
    result := Some(values);
  }

  lemma NoParts(parts: seq<string>)
    ensures PartsValues(parts[..0]) == []
  {
  }

  lemma PartsSnoc(parts: seq<string>, k: nat)
    requires k < |parts|
    ensures PartsValues(parts[..k + 1]) == PartsValues(parts[..k]) + PartValues(parts[k])
  {
    hide PartValues;
    assert parts[..k + 1][..k] == parts[..k] && parts[..k + 1][k] == parts[k];
  }

  lemma PartIsRange(part: string)
    requires '-' in part
    ensures |Split(part, '-')| >= 2
    ensures PartValues(part) == Range(Atoi(Split(part, '-')[0]), Atoi(Split(part, '-')[1]))
  {
    DashSplits(part);
  }

  lemma PartIsNumber(part: string)
    requires '-' !in part
    ensures PartValues(part) == [Atoi(part)]
  {
  }

  lemma RangeUpTo(start: int, end: int, i: int)
    requires end < i && (i <= end + 1 || i == start)
    ensures Range(start, i - 1) == Range(start, end)
  {
    if i == start {
      assert Range(start, i - 1) == [] == Range(start, end);
    }
  }

  // ---- printed lists ----

  /** A range from `lo` to `hi`, printed as one number when they are equal. */
  datatype Cpus = Cpus(lo: nat, hi: nat)

  predicate WellFormed(cs: seq<Cpus>) {
    forall i :: 0 <= i < |cs| ==> cs[i].lo <= cs[i].hi <= MAX_INT64
  }

  /** No range goes up to the largest int. */
  predicate Bounded(cs: seq<Cpus>) {
    forall i :: 0 <= i < |cs| && cs[i].lo < cs[i].hi ==> cs[i].hi < MAX_INT64
  }

  function CpusText(c: Cpus): string {
    if c.lo == c.hi then FormatInt(c.lo) else FormatInt(c.lo) + ['-'] + FormatInt(c.hi)
  }

  function CpusTexts(cs: seq<Cpus>): (texts: seq<string>)
    ensures |texts| == |cs| && forall i :: 0 <= i < |texts| ==> texts[i] == CpusText(cs[i])
  {
    seq(|cs|, i requires 0 <= i < |cs| => CpusText(cs[i]))
  }

  function Expanded(cs: seq<Cpus>): seq<int> {
    if cs == [] then [] else Expanded(cs[..|cs| - 1]) + Range(cs[|cs| - 1].lo, cs[|cs| - 1].hi)
  }

  function Count(cs: seq<Cpus>): int {
    if cs == [] then 0 else Count(cs[..|cs| - 1]) + (cs[|cs| - 1].hi - cs[|cs| - 1].lo + 1)
  }

  lemma DigitsOnly(n: nat, c: char)
    requires !IsDigit(c)
    ensures c !in FormatInt(n)
  {
    hide FormatInt;
  }

  /** A printed range reads back as its numbers. */
  lemma PartOfCpus(c: Cpus)
    requires c.lo <= c.hi <= MAX_INT64
    ensures PartValues(CpusText(c)) == Range(c.lo, c.hi)
    ensures '-' in CpusText(c) <==> c.lo < c.hi
    ensures c.lo < c.hi ==> |Split(CpusText(c), '-')| >= 2 && Atoi(Split(CpusText(c), '-')[1]) == c.hi
  {
    ParseFormatInt(c.lo);
    ParseFormatInt(c.hi);
    DigitsOnly(c.lo, '-');
    DigitsOnly(c.hi, '-');
    hide FormatInt, ParseInt;
    if c.lo == c.hi {
      assert Range(c.lo, c.hi) == [c.lo];
    } else {
      SplitAppend(FormatInt(c.lo), FormatInt(c.hi), '-');
      SplitNoSep(FormatInt(c.lo), '-');
      SplitNoSep(FormatInt(c.hi), '-');
      assert CpusText(c)[|FormatInt(c.lo)|] == '-';
    }
  }

  lemma {:induction false} PartsOfCpus(cs: seq<Cpus>)
    requires WellFormed(cs)
    ensures PartsValues(CpusTexts(cs)) == Expanded(cs)
    decreases |cs|
  {
    hide PartValues, CpusText, Range;
    if cs == [] {
    } else {
      var n := |cs| - 1;
      PartsOfCpus(cs[..n]);
      PartOfCpus(cs[n]);
      assert CpusTexts(cs)[..n] == CpusTexts(cs[..n]);
    }
  }

  lemma CpusTextChars(c: Cpus)
    ensures CpusText(c) != "" && ',' !in CpusText(c)
    ensures forall i :: 0 <= i < |CpusText(c)| ==> CpusText(c)[i] !in SPACES
  {
    DigitsOnly(c.lo, ',');
    DigitsOnly(c.hi, ',');
    hide FormatInt;
  }

  lemma {:induction false} JoinEnds(parts: seq<string>, sep: char, cutset: set<char>)
    requires parts != [] && sep !in cutset
    requires forall k :: 0 <= k < |parts| ==>
                           parts[k] != "" && forall i :: 0 <= i < |parts[k]| ==> parts[k][i] !in cutset
    ensures Join(parts, sep) != "" && IsTrimmed(Join(parts, sep), cutset)
  {
    assert parts[0] != "" && parts[0][0] !in cutset;
    if |parts| > 1 {
      JoinEnds(parts[1..], sep, cutset);
    }
  }

  /** Surrounding space does not matter. */
  lemma TrimAround(before: string, s: string, after: string, cutset: set<char>)
    requires s != "" && IsTrimmed(s, cutset)
    requires forall i :: 0 <= i < |before| ==> before[i] in cutset
    requires forall i :: 0 <= i < |after| ==> after[i] in cutset
    ensures Trim(before + s + after, cutset) == s
  {
    TrimLeftPast(before, s + after, cutset);
    TrimRightPast(s, after, cutset);
    assert before + s + after == before + (s + after);
  }

  lemma {:induction false} TrimLeftPast(before: string, s: string, cutset: set<char>)
    requires s != "" && s[0] !in cutset && forall i :: 0 <= i < |before| ==> before[i] in cutset
    ensures TrimLeft(before + s, cutset) == s
  {
    if before == "" {
      assert before + s == s;
    } else {
      assert (before + s)[1..] == before[1..] + s;
      TrimLeftPast(before[1..], s, cutset);
    }
  }

  lemma {:induction false} TrimRightPast(s: string, after: string, cutset: set<char>)
    requires s != "" && s[|s| - 1] !in cutset && forall i :: 0 <= i < |after| ==> after[i] in cutset
    ensures TrimRight(s + after, cutset) == s
  {
    if after == "" {
      assert s + after == s;
    } else {
      assert (s + after)[..|s + after| - 1] == s + after[..|after| - 1];
      TrimRightPast(s, after[..|after| - 1], cutset);
    }
  }

  /** The print of a list of ranges, with any space around it. */
  function ListText(before: string, cs: seq<Cpus>, after: string): string {
    before + Join(CpusTexts(cs), ',') + after
  }

  predicate IsSpace(s: string) {
    forall i :: 0 <= i < |s| ==> s[i] in SPACES
  }

  lemma SplitList(before: string, cs: seq<Cpus>, after: string)
    requires cs != [] && WellFormed(cs) && IsSpace(before) && IsSpace(after)
    ensures var t := Trim(ListText(before, cs, after), SPACES);
            t != "" && Split(t, ',') == CpusTexts(cs)
  {
    var texts := CpusTexts(cs);
    forall k | 0 <= k < |texts|
      ensures texts[k] != "" && ',' !in texts[k] && forall i :: 0 <= i < |texts[k]| ==> texts[k][i] !in SPACES
    {
      CpusTextChars(cs[k]);
    }
    JoinEnds(texts, ',', SPACES);
    hide Trim, Join, Split;
    TrimAround(before, Join(texts, ','), after, SPACES);
    SplitJoin(texts, ',');
  }

  /**
   Parsing the print of a list of ranges yields the ranges' numbers, one after the other; it
   ends exactly when no range goes up to the largest int.
   */
  lemma PrintedList(before: string, cs: seq<Cpus>, after: string)
    requires cs != [] && WellFormed(cs) && IsSpace(before) && IsSpace(after)
    ensures Ends(ListText(before, cs, after)) <==> Bounded(cs)
    ensures ListValues(ListText(before, cs, after)) == Expanded(cs)
  {
    hide ListText, Trim, Split, PartsValues, CpusTexts, CpusText, PartEnds, Ends;
    SplitList(before, cs, after);
    PartsOfCpus(cs);
    EndsByParts(ListText(before, cs, after), cs);
  }

  lemma EndsByParts(text: string, cs: seq<Cpus>)
    requires WellFormed(cs) && Trim(text, SPACES) != "" && Split(Trim(text, SPACES), ',') == CpusTexts(cs)
    ensures Ends(text) <==> Bounded(cs)
  {
    hide Trim, Split, CpusText, PartEnds;
    var texts := CpusTexts(cs);
    forall k | 0 <= k < |cs|
      ensures texts[k] in texts
      ensures PartEnds(texts[k]) <==> (cs[k].lo < cs[k].hi ==> cs[k].hi < MAX_INT64)
    {
      CpusEnd(cs[k]);
    }
  }

  lemma CpusEnd(c: Cpus)
    requires c.lo <= c.hi <= MAX_INT64
    ensures PartEnds(CpusText(c)) <==> (c.lo < c.hi ==> c.hi < MAX_INT64)
  {
    hide CpusText, Split, Atoi, PartEnds;
    PartOfCpus(c);
    PartEndsExactly(CpusText(c));
  }

  /** "0-9223372036854775807" is such a list: the program never ends on it. */
  lemma NeverEnds()
    ensures !Ends("0-9223372036854775807")
  {
    var cs := [Cpus(0, MAX_INT64)];
    EndlessText();
    hide Ends, ListText;
    PrintedList("", cs, "");
    assert !Bounded(cs);
  }

  lemma EndlessText()
    ensures ListText("", [Cpus(0, MAX_INT64)], "") == "0-9223372036854775807"
  {
    var c := Cpus(0, MAX_INT64);
    LargestDigits();
    EndlessRange(FormatInt(0), FormatInt(MAX_INT64));
    hide FormatInt;
    assert CpusTexts([c]) == [CpusText(c)];
    assert "" + CpusText(c) + "" == CpusText(c);
  }

  lemma EndlessRange(lo: string, hi: string)
    requires lo == "0" && hi == "9223372036854775807"
    ensures lo + ['-'] + hi == "0-9223372036854775807"
  {
  }

  lemma FormatMore(text: string, n: nat, digit: char)
    requires n > 0 && FormatUint(n) == text && IsDigit(digit)
    ensures FormatUint(10 * n + DigitValue(digit)) == text + [digit]
  {
    assert (10 * n + DigitValue(digit)) / 10 == n && (10 * n + DigitValue(digit)) % 10 == DigitValue(digit);
  }

  lemma LargestDigits()
    ensures FormatInt(0) == "0" && FormatInt(MAX_INT64) == "9223372036854775807"
  {
    assert FormatUint(0) == "0";
    FirstDigits();
    hide FormatUint;
    FormatMore("9223372036", 9223372036, '8');
    FormatMore("92233720368", 92233720368, '5');
    FormatMore("922337203685", 922337203685, '4');
    FormatMore("9223372036854", 9223372036854, '7');
    FormatMore("92233720368547", 92233720368547, '7');
    FormatMore("922337203685477", 922337203685477, '5');
    FormatMore("9223372036854775", 9223372036854775, '8');
    FormatMore("92233720368547758", 92233720368547758, '0');
    FormatMore("922337203685477580", 922337203685477580, '7');
  }

  lemma FirstDigits()
    ensures FormatUint(9223372036) == "9223372036"
  {
    assert FormatUint(9) == "9";
    hide FormatUint;
    FormatMore("9", 9, '2');
    FormatMore("92", 92, '2');
    FormatMore("922", 922, '3');
    FormatMore("9223", 9223, '3');
    FormatMore("92233", 92233, '7');
    FormatMore("922337", 922337, '2');
    FormatMore("9223372", 9223372, '0');
    FormatMore("92233720", 92233720, '3');
    FormatMore("922337203", 922337203, '6');
  }

  /** Neither does it on a range whose end does not fit: what cannot be represented reads as the largest int. */
  lemma EndClamps(hi: nat)
    requires MAX_INT64 <= hi <= MAX_UINT64
    ensures Atoi(FormatUint(hi)) == MAX_INT64
  {
    ParseFormatUint(hi);
  }

  /** As many numbers as the ranges count. */
  lemma {:induction false} ExpandedLength(cs: seq<Cpus>)
    requires WellFormed(cs)
    ensures |Expanded(cs)| == Count(cs)
  {
    if cs == [] {
    } else {
      ExpandedLength(cs[..|cs| - 1]);
    }
  }

  /** The ranges increase and do not touch one another's numbers. */
  predicate Increasing(cs: seq<Cpus>) {
    forall i :: 0 < i < |cs| ==> cs[i - 1].hi < cs[i].lo
  }

  ghost predicate StrictlyIncreasing(s: seq<int>) {
    forall i, j :: 0 <= i < j < |s| ==> s[i] < s[j]
  }

  lemma {:induction false} ExpandedIncreasing(cs: seq<Cpus>)
    requires WellFormed(cs) && Increasing(cs)
    ensures StrictlyIncreasing(Expanded(cs))
    ensures cs != [] ==> forall i :: 0 <= i < |Expanded(cs)| ==> Expanded(cs)[i] <= cs[|cs| - 1].hi
  {
    if cs == [] {
    } else {
      ExpandedIncreasing(cs[..|cs| - 1]);
    }
  }

  lemma {:induction false} IncreasingCounts(s: seq<int>)
    requires StrictlyIncreasing(s)
    ensures |set x | x in s| == |s|
  {
    if s == [] {
      assert (set x | x in s) == {};
    } else {
      var init, last := s[..|s| - 1], s[|s| - 1];
      IncreasingCounts(init);
      assert s == init + [last];
      assert (set x | x in s) == (set x | x in init) + {last};
      assert last !in init;
    }
  }

  /** For increasing disjoint ranges the CPU count, where there is one, is the number of different CPUs. */
  lemma CpuCount(before: string, cs: seq<Cpus>, after: string)
    requires cs != [] && WellFormed(cs) && Increasing(cs) && IsSpace(before) && IsSpace(after)
    ensures var cpus := ListValues(ListText(before, cs, after));
            (Ends(ListText(before, cs, after)) <==> Bounded(cs)) && |cpus| == Count(cs) == |set x | x in cpus|
  {
    PrintedList(before, cs, after);
    ExpandedLength(cs);
    ExpandedIncreasing(cs);
    IncreasingCounts(Expanded(cs));
  }

  // ---- digits and separators, spelled out ----

  /** The space that is trimmed, by its codes. */
  lemma SpaceCodes(c: char)
    ensures c in SPACES <==> c as int == 32 || 9 <= c as int <= 13
  {
  }

  lemma DigitsAreRead(s: string)
    requires s != "" && AllDigits(s) && Decimal(s) < 0x7FFF_FFFF_FFFF_FFFF
    ensures Atoi(s) == Decimal(s) && '-' !in s && ',' !in s
    ensures s[0] !in SPACES && s[|s| - 1] !in SPACES
  {
    ParseIntDigits(s);
    SpaceCodes(s[0]);
    SpaceCodes(s[|s| - 1]);
    hide ParseInt, Decimal, SPACES;
  }

  lemma AtoiOfDigits(s: string)
    requires AllDigits(s) && Decimal(s) < 0x7FFF_FFFF_FFFF_FFFF
    ensures Atoi(s) == Decimal(s) && '-' !in s
  {
    if s != "" {
      ParseIntDigits(s);
    }
    hide ParseInt;
  }

  /**
   A part of digits is its number; two joined by a hyphen are all numbers from the first to the
   second, whatever comes behind another hyphen; no digits are 0.
   */
  lemma PartOfDigits(lo: string, hi: string, rest: string)
    requires AllDigits(lo) && Decimal(lo) < 0x7FFF_FFFF_FFFF_FFFF
    requires AllDigits(hi) && Decimal(hi) < 0x7FFF_FFFF_FFFF_FFFF
    ensures PartValues(lo) == [Decimal(lo)] && PartEnds(lo)
    ensures PartValues(lo + "-" + hi) == Range(Decimal(lo), Decimal(hi)) && PartEnds(lo + "-" + hi)
    ensures var more := lo + "-" + hi + "-" + rest;
            PartValues(more) == Range(Decimal(lo), Decimal(hi)) && PartEnds(more)
  {
    AtoiOfDigits(lo);
    AtoiOfDigits(hi);
    hide Decimal, Range, Atoi, PartValues, PartEnds;
    NumberPart(lo);
    TwoParts(lo, hi, rest);
    RangePart(lo + "-" + hi, lo, hi);
    RangePart(lo + "-" + hi + "-" + rest, lo, hi);
  }

  lemma NumberPart(s: string)
    requires '-' !in s
    ensures PartValues(s) == [Atoi(s)] && PartEnds(s)
  {
  }

  lemma TwoParts(lo: string, hi: string, rest: string)
    requires '-' !in lo && '-' !in hi
    ensures var text, more := lo + "-" + hi, lo + "-" + hi + "-" + rest;
            && '-' in text && Split(text, '-') == [lo, hi]
            && '-' in more && Split(more, '-') == [lo, hi] + Split(rest, '-')
  {
    SplitNoSep(lo, '-');
    SplitNoSep(hi, '-');
    SplitAppend(lo, hi, '-');
    assert lo + ['-'] + hi == lo + "-" + hi;
    var text := lo + "-" + hi;
    SplitAppend(text, rest, '-');
    assert text + ['-'] + rest == text + "-" + rest;
    assert text[|lo|] == '-' && (text + "-" + rest)[|lo|] == '-';
    hide Split;
    assert [lo] + [hi] == [lo, hi];
  }

  lemma RangePart(text: string, lo: string, hi: string)
    requires '-' in text && |Split(text, '-')| >= 2 && Split(text, '-')[0] == lo && Split(text, '-')[1] == hi
    requires Atoi(hi) < 0x7FFF_FFFF_FFFF_FFFF
    ensures PartValues(text) == Range(Atoi(lo), Atoi(hi)) && PartEnds(text)
  {
    hide Split, Atoi, LoopEnds;
    PartEndsExactly(text);
  }

  /** Parts joined by commas, with any space around them, are listed one after the other. */
  lemma ListOfParts(before: string, parts: seq<string>, after: string)
    requires (forall i :: 0 <= i < |before| ==> before[i] as int == 32 || 9 <= before[i] as int <= 13)
    requires (forall i :: 0 <= i < |after| ==> after[i] as int == 32 || 9 <= after[i] as int <= 13)
    requires parts != [] && forall part :: part in parts ==> ',' !in part
    requires var s := Join(parts, ','); s != "" && s[0] !in SPACES && s[|s| - 1] !in SPACES
    ensures var text := before + Join(parts, ',') + after;
            && ListValues(text) == PartsValues(parts)
            && (Ends(text) <==> forall part :: part in parts ==> PartEnds(part))
  {
    forall i | 0 <= i < |before| ensures before[i] in SPACES {
      SpaceCodes(before[i]);
    }
    forall i | 0 <= i < |after| ensures after[i] in SPACES {
      SpaceCodes(after[i]);
    }
    SplitJoin(parts, ',');
    TrimOff(before, Join(parts, ','), after, SPACES);
    hide Trim, Join, Split, PartsValues, PartEnds, SPACES;
  }

  /** The text is a number that is no end beyond all counting. */
  predicate Countable(s: string) {
    s != "" && AllDigits(s) && Decimal(s) < 0x7FFF_FFFF_FFFF_FFFF
  }

  lemma ThreeParts(a: string, b: string, c: string)
    requires ',' !in a && ',' !in b && ',' !in c && a != "" && c != ""
    requires a[0] !in SPACES && c[|c| - 1] !in SPACES && PartEnds(a) && PartEnds(b) && PartEnds(c)
    ensures var text := a + "," + b + "," + c;
            Ends(text) && ListValues(text) == PartValues(a) + PartValues(b) + PartValues(c)
  {
    var text := a + "," + b + "," + c;
    hide PartValues, SPACES, Ends, PartEnds, Join, ListValues, PartsValues;
    JoinThree(a, b, c);
    assert "" + text + "" == text;
    assert text[0] == a[0] && text[|text| - 1] == c[|c| - 1];
    ListOfParts("", [a, b, c], "");
    PartsOfThree(a, b, c);
  }

  /** The part ends, lists these numbers, and has neither comma nor outer space. */
  ghost predicate IsPart(part: string, values: seq<int>) {
    && part != "" && ',' !in part && part[0] !in SPACES && part[|part| - 1] !in SPACES
    && PartEnds(part) && PartValues(part) == values
  }

  lemma RangeEdges(lo: string, hi: string)
    requires Countable(lo) && Countable(hi)
    ensures var part := lo + "-" + hi;
            part != "" && ',' !in part && part[0] !in SPACES && part[|part| - 1] !in SPACES
  {
    DigitsAreRead(lo);
    DigitsAreRead(hi);
    hide Decimal, SPACES, Atoi;
    var part := lo + "-" + hi;
    assert part[0] == lo[0] && part[|part| - 1] == hi[|hi| - 1];
  }

  lemma PartsOfNumbers(lo: string, hi: string)
    requires Countable(lo) && Countable(hi)
    ensures IsPart(lo, [Decimal(lo)]) && IsPart(lo + "-" + hi, Range(Decimal(lo), Decimal(hi)))
  {
    PartOfDigits(lo, hi, "");
    DigitsAreRead(lo);
    hide Decimal, PartValues, Range, SPACES, PartEnds, AllDigits, Atoi, Countable;
    RangeEdges(lo, hi);
  }

  lemma ThreeAreListed(a: string, b: string, c: string, x: seq<int>, y: seq<int>, z: seq<int>)
    requires IsPart(a, x) && IsPart(b, y) && IsPart(c, z)
    ensures Ends(a + "," + b + "," + c) && ListValues(a + "," + b + "," + c) == x + y + z
  {
    hide PartValues, SPACES, Ends, PartEnds, ListValues;
    ThreeParts(a, b, c);
  }

  lemma JoinThree(a: string, b: string, c: string)
    ensures Join([a, b, c], ',') == a + "," + b + "," + c
  {
    JoinCons(a, [b, c], ',');
    JoinCons(b, [c], ',');
    assert Join([c], ',') == c;
    hide Join;
    assert [a] + [b, c] == [a, b, c] && [b] + [c] == [b, c];
  }

  lemma PartsOfThree(a: string, b: string, c: string)
    ensures PartsValues([a, b, c]) == PartValues(a) + PartValues(b) + PartValues(c)
  {
    hide PartValues;
    assert [a, b, c][..2] == [a, b] && [a, b][..1] == [a] && [a][..0] == [];
    assert PartsValues([]) == [] && PartsValues([a]) == PartValues(a);
  }

  lemma SmallDecimals()
    ensures Decimal("0") == 0 && Decimal("2") == 2 && Decimal("7") == 7 && Decimal("12") == 12 && Decimal("14") == 14
  {
    assert "12"[..1] == "1" && "14"[..1] == "1" && Decimal("1") == 1;
  }

  lemma SmallRanges()
    ensures IsPart("0-2", [0, 1, 2]) && IsPart("7", [7]) && IsPart("12-14", [12, 13, 14])
  {
    SmallDecimals();
    hide Decimal, IsPart;
    PartsOfNumbers("0", "2");
    PartsOfNumbers("7", "7");
    PartsOfNumbers("12", "14");
    assert "0" + "-" + "2" == "0-2" && "12" + "-" + "14" == "12-14";
    assert Range(0, 2) == [0, 1, 2] && Range(12, 14) == [12, 13, 14];
  }

  lemma NoCpus()
    ensures Ends("") && ListValues("") == []
  {
  }

  /** "0-2,7,12-14" lists 0, 1, 2, 7, 12, 13 and 14, and no text lists nothing. */
  lemma SevenCpus()
    ensures Ends("0-2,7,12-14") && ListValues("0-2,7,12-14") == [0, 1, 2, 7, 12, 13, 14]
    ensures Ends("") && ListValues("") == []
  {
    NoCpus();
    SmallRanges();
    hide ListValues, Ends, IsPart;
    ThreeAreListed("0-2", "7", "12-14", [0, 1, 2], [7], [12, 13, 14]);
    assert "0-2" + "," + "7" + "," + "12-14" == "0-2,7,12-14";
  }
}
