/**
 The parts of Go's `strings` and `bytes` packages that the modelled files call.
 A Go string is a sequence of bytes; here a byte is a character.  Characters above
 255 never come from the program, and every statement also holds for them.
 */
module GoStrings {
  import opened Wrappers

  /** `strings.Split` with a one-byte separator. */
  function Split(s: string, sep: char): (parts: seq<string>)
    ensures |parts| >= 1
  {
    if s == "" then [""]
    else
      var rest := Split(s[1..], sep);
      if s[0] == sep then [""] + rest else [[s[0]] + rest[0]] + rest[1..]
  }

  /** `strings.Join` with a one-byte separator. */
  function Join(parts: seq<string>, sep: char): string {
    if parts == [] then ""
    else if |parts| == 1 then parts[0]
    else parts[0] + [sep] + Join(parts[1..], sep)
  }

  /** `strings.Cut` at the first `sep`. */
  function Cut(s: string, sep: char): (r: (string, string, bool)) {
    if s == "" then ("", "", false)
    else if s[0] == sep then ("", s[1..], true)
    else
      var (before, after, found) := Cut(s[1..], sep);
      ([s[0]] + before, after, found)
  }

  /** `strings.CutPrefix` with its second result dropped. */
  function CutPrefix(s: string, prefix: string): string {
    if prefix <= s then s[|prefix|..] else s
  }

  predicate HasSuffix(s: string, suffix: string) {
    |suffix| <= |s| && s[|s| - |suffix|..] == suffix
  }

  /** `strings.CutSuffix` with its second result dropped. */
  function CutSuffix(s: string, suffix: string): string {
    if HasSuffix(s, suffix) then s[..|s| - |suffix|] else s
  }

  function TrimLeft(s: string, cutset: set<char>): (t: string)
    ensures |t| <= |s| && t == s[|s| - |t|..]
    ensures t == "" || t[0] !in cutset
    ensures s == "" || s[0] !in cutset ==> t == s
  {
    if s != "" && s[0] in cutset then TrimLeft(s[1..], cutset) else s
  }

  function TrimRight(s: string, cutset: set<char>): (t: string)
    ensures t <= s
    ensures t == "" || t[|t| - 1] !in cutset
    ensures s == "" || s[|s| - 1] !in cutset ==> t == s
  {
    if s != "" && s[|s| - 1] in cutset then TrimRight(s[..|s| - 1], cutset) else s
  }

  /** `bytes.Trim` and `strings.Trim`. */
  function Trim(s: string, cutset: set<char>): (t: string)
    ensures IsTrimmed(t, cutset)
    ensures IsTrimmed(s, cutset) ==> t == s
    ensures |t| <= |s|
  {
    TrimRight(TrimLeft(s, cutset), cutset)
  }

  predicate IsTrimmed(s: string, cutset: set<char>) {
    s == "" || (s[0] !in cutset && s[|s| - 1] !in cutset)
  }

  /** `bytes.Index`: the least position at which `sub` occurs, searched from `from` on. */
  function IndexFrom(s: string, sub: string, from: nat): (r: Option<nat>)
    requires from <= |s|
    ensures r.Some? ==> from <= r.value <= |s| && sub <= s[r.value..]
    ensures r.Some? ==> forall i :: from <= i < r.value ==> !(sub <= s[i..])
    ensures r.None? ==> forall i :: from <= i <= |s| ==> !(sub <= s[i..])
    decreases |s| - from
  {
    if sub <= s[from..] then Some(from)
    else if from == |s| then None
    else IndexFrom(s, sub, from + 1)
  }

  /** `filepath.Base` of a path that does not end in a slash: what follows the last slash. */
  function Base(path: string): string {
    var parts := Split(path, '/');
    parts[|parts| - 1]
  }

  function Repeat(c: char, n: nat): (s: string)
    ensures |s| == n && forall i :: 0 <= i < n ==> s[i] == c
  {
    seq(n, _ => c)
  }

  // ---- Split, Join and Cut ----

  /** One more character in front of the parts: a separator starts a new part, any other joins the first. */
  lemma SplitStep(c: char, ra: seq<string>, rb: seq<string>, sep: char)
    requires ra != []
    ensures [""] + (ra + rb) == ([""] + ra) + rb
    ensures [[c] + (ra + rb)[0]] + (ra + rb)[1..] == ([[c] + ra[0]] + ra[1..]) + rb
  {
    assert (ra + rb)[0] == ra[0] && (ra + rb)[1..] == ra[1..] + rb;
  }

  lemma {:induction false} SplitAppend(a: string, b: string, sep: char)
    ensures Split(a + [sep] + b, sep) == Split(a, sep) + Split(b, sep)
  {
    var s := a + [sep] + b;
    if a == "" {
      assert s[1..] == b;
    } else {
      assert s[1..] == a[1..] + [sep] + b;
      SplitAppend(a[1..], b, sep);
      SplitStep(a[0], Split(a[1..], sep), Split(b, sep), sep);
    }
  }

  lemma {:induction false} SplitNoSep(s: string, sep: char)
    requires sep !in s
    ensures Split(s, sep) == [s]
  {
    if s == "" {
    } else {
      assert sep !in s[1..];
      SplitNoSep(s[1..], sep);
      assert s == [s[0]] + s[1..];
    }
  }

  lemma {:induction false} SplitPartsHaveNoSep(s: string, sep: char)
    ensures forall part :: part in Split(s, sep) ==> sep !in part
  {
    if s == "" {
    } else {
      SplitPartsHaveNoSep(s[1..], sep);
      var rest := Split(s[1..], sep);
      assert rest[0] in rest;
      assert forall part :: part in rest[1..] ==> part in rest;
    }
  }

  /** Joining what was split gives the text back. */
  lemma {:induction false} JoinSplit(s: string, sep: char)
    ensures Join(Split(s, sep), sep) == s
  {
    if s == "" {
    } else {
      JoinSplit(s[1..], sep);
      var rest := Split(s[1..], sep);
      assert s == [s[0]] + s[1..];
      if s[0] == sep {
        assert ([""] + rest)[1..] == rest;
        assert "" + [sep] + s[1..] == [sep] + s[1..];
      } else if |rest| > 1 {
        assert ([[s[0]] + rest[0]] + rest[1..])[1..] == rest[1..];
        assert ([s[0]] + rest[0]) + [sep] + Join(rest[1..], sep) == [s[0]] + (rest[0] + [sep] + Join(rest[1..], sep));
      }
    }
  }

  /** Splitting what was joined gives the parts back when no part holds the separator. */
  lemma {:induction false} SplitJoin(parts: seq<string>, sep: char)
    requires parts != []
    requires forall part :: part in parts ==> sep !in part
    ensures Split(Join(parts, sep), sep) == parts
  {
    assert parts[0] in parts;
    SplitNoSep(parts[0], sep);
    if |parts| > 1 {
      assert forall part :: part in parts[1..] ==> part in parts;
      SplitJoin(parts[1..], sep);
      SplitAppend(parts[0], Join(parts[1..], sep), sep);
      assert parts == [parts[0]] + parts[1..];
    } else {
      assert parts == [parts[0]];
    }
  }

  lemma JoinCons(first: string, parts: seq<string>, sep: char)
    requires parts != []
    ensures Join([first] + parts, sep) == first + [sep] + Join(parts, sep)
  {
    assert ([first] + parts)[1..] == parts;
  }

  lemma {:induction false} CutAt(a: string, b: string, sep: char)
    requires sep !in a
    ensures Cut(a + [sep] + b, sep) == (a, b, true)
  {
    var s := a + [sep] + b;
    if a == "" {
      assert s[1..] == b;
    } else {
      assert s[1..] == a[1..] + [sep] + b;
      CutAt(a[1..], b, sep);
      assert a == [a[0]] + a[1..];
    }
  }

  lemma {:induction false} CutNone(s: string, sep: char)
    requires sep !in s
    ensures Cut(s, sep) == (s, "", false)
  {
    if s == "" {
    } else {
      assert sep !in s[1..];
      CutNone(s[1..], sep);
      assert s == [s[0]] + s[1..];
    }
  }

  /** The text before a cut and the separator are where they were. */
  lemma {:induction false} CutParts(s: string, sep: char)
    ensures var (before, after, found) := Cut(s, sep);
            sep !in before && s == (if found then before + [sep] + after else before)
  {
    if s != "" && s[0] != sep {
      CutParts(s[1..], sep);
      assert s == [s[0]] + s[1..];
    }
  }

  lemma TrimShortens(s: string, cutset: set<char>)
    ensures |Trim(s, cutset)| <= |s|
  {
    TrimLeftShortens(s, cutset);
    TrimRightShortens(TrimLeft(s, cutset), cutset);
  }

  lemma {:induction false} TrimLeftShortens(s: string, cutset: set<char>)
    ensures |TrimLeft(s, cutset)| <= |s|
  {
    if s == "" {
    } else {
      TrimLeftShortens(s[1..], cutset);
    }
  }

  lemma {:induction false} TrimRightShortens(s: string, cutset: set<char>)
    ensures |TrimRight(s, cutset)| <= |s|
  {
    if s == "" {
    } else {
      TrimRightShortens(s[..|s| - 1], cutset);
    }
  }

  lemma TrimTrailing(s: string, c: char, n: nat)
    requires IsTrimmed(s, {c})
    ensures Trim(s + Repeat(c, n), {c}) == s
  {
    if s == "" {
      assert s + Repeat(c, n) == Repeat(c, n);
      TrimLeftAll(n, c);
    } else {
      TrimRightRepeat(s, c, n);
    }
  }

  lemma {:induction false} TrimLeftAll(n: nat, c: char)
    ensures TrimLeft(Repeat(c, n), {c}) == ""
  {
    if n > 0 {
      assert Repeat(c, n)[1..] == Repeat(c, n - 1);
      TrimLeftAll(n - 1, c);
    }
  }

  lemma {:induction false} TrimRightRepeat(s: string, c: char, n: nat)
    requires IsTrimmed(s, {c})
    ensures TrimRight(s + Repeat(c, n), {c}) == s
  {
    if n == 0 {
      assert s + Repeat(c, n) == s;
    } else {
      var t := s + Repeat(c, n);
      assert t[..|t| - 1] == s + Repeat(c, n - 1);
      TrimRightRepeat(s, c, n - 1);
    }
  }

  // ---- trimming, exactly ----

  lemma {:induction false} TrimLeftOff(before: string, t: string, cutset: set<char>)
    requires forall i :: 0 <= i < |before| ==> before[i] in cutset
    ensures TrimLeft(before + t, cutset) == TrimLeft(t, cutset)
  {
    if before == "" {
      assert before + t == t;
    } else {
      assert (before + t)[1..] == before[1..] + t;
      TrimLeftOff(before[1..], t, cutset);
    }
  }

  lemma {:induction false} TrimRightOff(t: string, after: string, cutset: set<char>)
    requires forall i :: 0 <= i < |after| ==> after[i] in cutset
    ensures TrimRight(t + after, cutset) == TrimRight(t, cutset)
  {
    if after == "" {
      assert t + after == t;
    } else {
      assert (t + after)[..|t + after| - 1] == t + after[..|after| - 1];
      TrimRightOff(t, after[..|after| - 1], cutset);
    }
  }

  /** Trimming leaves the text that stands between outer characters of the cutset. */
  lemma TrimOff(before: string, t: string, after: string, cutset: set<char>)
    requires forall i :: 0 <= i < |before| ==> before[i] in cutset
    requires forall i :: 0 <= i < |after| ==> after[i] in cutset
    requires t == "" || (t[0] !in cutset && t[|t| - 1] !in cutset)
    ensures Trim(before + t + after, cutset) == t
  {
    assert before + t + after == before + (t + after);
    TrimLeftOff(before, t + after, cutset);
    if t == "" {
      TrimLeftOff(after, "", cutset);
      assert t + after == after && after + "" == after;
    } else {
      assert (t + after)[0] == t[0];
      TrimRightOff(t, after, cutset);
    }
  }
}
