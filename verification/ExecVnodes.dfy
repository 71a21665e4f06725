/** `ParseExecVnode` and `Vnode` of `internal/pbsjob/pbsjob.go`. */
module ExecVnodes {
  import opened Wrappers
  import opened GoStrings
  import opened Strconv
  import opened Utils
  import opened Seqs
  import opened Sums

  datatype Vnode = Vnode(node: string, vnode: string)

  datatype ExecVnode = ExecVnode(mem: Int64, ncpus: Int64, nfpgas: Int64, ngpus: Int64)

  // ---- the pattern host[index], searched for from the left ----

  predicate IsNameChar(c: char) {
    'a' <= c <= 'z' || 'A' <= c <= 'Z' || '0' <= c <= '9' || c == '_' || c == '.' || c == '-'
  }

  /** How many characters at the start of `s` pass the test. */
  function RunLength(s: string, test: char -> bool): (n: nat)
    ensures n <= |s| && (forall i :: 0 <= i < n ==> test(s[i])) && (n < |s| ==> !test(s[n]))
  {
    if s != "" && test(s[0]) then 1 + RunLength(s[1..], test) else 0
  }

  function MatchHere(s: string): Option<Vnode> {
    var n := RunLength(s, IsNameChar);
    if n == 0 || n == |s| || s[n] != '[' then None
    else
      var t := s[n + 1..];
      var d := RunLength(t, IsDigit);
      if d == 0 || d == |t| || t[d] != ']' then None else Some(Vnode(s[..n], t[..d]))
  }

  /** `pbsVnodeRegexp.FindStringSubmatch`: the leftmost match, each part as long as it can be. */
  function FindVnode(s: string): Option<Vnode> {
    if MatchHere(s).Some? then MatchHere(s)
    else if s == "" then None
    else FindVnode(s[1..])
  }

  /** The pattern matches at the start of `s` with these two groups. */
  predicate Matches(s: string, v: Vnode) {
    && v.node != "" && (forall i :: 0 <= i < |v.node| ==> IsNameChar(v.node[i]))
    && v.vnode != "" && (forall i :: 0 <= i < |v.vnode| ==> IsDigit(v.vnode[i]))
    && v.node + "[" + v.vnode + "]" <= s
  }

  lemma {:induction false} RunLengthIs(a: string, b: string, test: char -> bool)
    requires (forall i :: 0 <= i < |a| ==> test(a[i])) && (b == "" || !test(b[0]))
    ensures RunLength(a + b, test) == |a|
  {
    if a == "" {
      assert a + b == b;
    } else {
      assert (a + b)[1..] == a[1..] + b;
      RunLengthIs(a[1..], b, test);
    }
  }

  lemma MatchIsFound(s: string, v: Vnode)
    requires Matches(s, v)
    ensures MatchHere(s) == Some(v)
  {
    var m := v.node + "[" + v.vnode + "]";
    var after := "]" + s[|m|..];
    var t := v.vnode + after;
    MatchSplits(s, v);
    RunLengthIs(v.node, "[" + t, IsNameChar);
    RunLengthIs(v.vnode, after, IsDigit);
    HeadOf(v.node, "[", t);
    HeadOf(v.vnode, "]", s[|m|..]);
    hide RunLength, IsNameChar, IsDigit;
  }

  lemma MatchSplits(s: string, v: Vnode)
    requires Matches(s, v)
    ensures var m := v.node + "[" + v.vnode + "]";
            s == v.node + ("[" + (v.vnode + ("]" + s[|m|..])))
  {
    var m := v.node + "[" + v.vnode + "]";
    assert s == m + s[|m|..];
  }

  lemma HeadOf(a: string, c: string, b: string)
    requires |c| == 1
    ensures var s := a + (c + b);
            s[..|a|] == a && s[|a|] == c[0] && s[|a| + 1..] == b
  {
  }

  lemma FoundMatches(s: string)
    requires MatchHere(s).Some?
    ensures Matches(s, MatchHere(s).value)
  {
    var v := MatchHere(s).value;
    var n := RunLength(s, IsNameChar);
    var d := RunLength(s[n + 1..], IsDigit);
    var m := v.node + "[" + v.vnode + "]";
    assert |m| == n + d + 2;
    assert forall i :: 0 <= i < |m| ==> m[i] == s[i];
    hide IsNameChar, IsDigit;
  }

  /** At one position the pattern has at most one match, and `MatchHere` finds it. */
  lemma MatchHereExact(s: string, v: Vnode)
    ensures MatchHere(s) == Some(v) <==> Matches(s, v)
  {
    hide MatchHere, Matches;
    if Matches(s, v) {
      MatchIsFound(s, v);
    }
    if MatchHere(s).Some? {
      FoundMatches(s);
    }
  }

  predicate MatchesAt(s: string, i: int, v: Vnode) {
    0 <= i <= |s| && Matches(s[i..], v)
  }

  /** `FindVnode` finds the leftmost match, and misses none. */
  lemma {:induction false} FindVnodeLeftmost(s: string) returns (i: nat)
    ensures FindVnode(s).Some? ==> MatchesAt(s, i, FindVnode(s).value)
    ensures FindVnode(s).Some? ==> forall j, v :: 0 <= j < i ==> !MatchesAt(s, j, v)
    ensures FindVnode(s).None? ==> forall j, v :: !MatchesAt(s, j, v)
  {
    i := 0;
    forall v ensures MatchHere(s) == Some(v) <==> Matches(s, v) {
      MatchHereExact(s, v);
    }
    hide MatchHere, Matches;
    assert s[0..] == s;
    if MatchHere(s).None? && s != "" {
      var k := FindVnodeLeftmost(s[1..]);
      i := k + 1;
      forall j, v | 0 < j <= |s| ensures MatchesAt(s, j, v) <==> MatchesAt(s[1..], j - 1, v) {
        assert s[1..][j - 1..] == s[j..];
      }
    }
  }

  // ---- one chunk ----

  function Get(m: map<string, Int64>, key: string): Int64 {
    if key in m then m[key] else 0
  }

  function Plus(a: ExecVnode, m: map<string, Int64>): ExecVnode {
    ExecVnode(Wrap64(a.mem as int + Get(m, "mem")), Wrap64(a.ncpus as int + Get(m, "ncpus")),
              Wrap64(a.nfpgas as int + Get(m, "nfpgas")), Wrap64(a.ngpus as int + Get(m, "ngpus")))
  }

  const NOTHING := ExecVnode(0, 0, 0, 0)

  /** The readable values of the parts "key=value", a later one replacing an earlier of its key. */
  function Resources(ram: HumanUnits, parts: seq<string>): map<string, Int64> {
    if parts == [] then map[]
    else
      var (key, text, _) := Cut(parts[|parts| - 1], '=');
      var before := Resources(ram, parts[..|parts| - 1]);
      match ParseBytes(ram, text)
      case Some(n) => before[key := n]
      case None => before
  }

  datatype Chunk = Chunk(vnode: Vnode, resources: map<string, Int64>)

  function Unbracketed(entry: string): string {
    CutSuffix(CutPrefix(entry, "("), ")")
  }

  function ParseChunk(ram: HumanUnits, entry: string): Option<Chunk> {
    ParseInner(ram, Unbracketed(entry))
  }

  function ParseInner(ram: HumanUnits, inner: string): Option<Chunk> {
    var (hostVnode, resources, _) := Cut(inner, ':');
    match FindVnode(hostVnode)
    case None => None
    case Some(v) => Some(Chunk(v, Resources(ram, Split(resources, ':'))))
  }

  /** The chunks of a text; None where one of them names no vnode. */
  function ParseChunks(ram: HumanUnits, entries: seq<string>): (r: Option<seq<Chunk>>)
    ensures r.Some? ==> |r.value| == |entries|
  {
    if entries == [] then Some([])
    else
      match ParseChunks(ram, entries[..|entries| - 1])
      case None => None
      case Some(before) =>
        match ParseChunk(ram, entries[|entries| - 1])
        case None => None
        case Some(c) => Some(before + [c])
  }

  // ---- aggregation ----

  type VnodeMap = map<Vnode, ExecVnode>

  function Held(m: VnodeMap, v: Vnode): ExecVnode {
    if v in m then m[v] else NOTHING
  }

  function Aggregate(chunks: seq<Chunk>): VnodeMap {
    if chunks == [] then map[]
    else
      var m, c := Aggregate(chunks[..|chunks| - 1]), chunks[|chunks| - 1];
      m[c.vnode := Plus(Held(m, c.vnode), c.resources)]
  }

  function ExecVnodeMap(ram: HumanUnits, text: string): Option<VnodeMap> {
    match ParseChunks(ram, Split(text, '+'))
    case None => None
    case Some(chunks) => Some(Aggregate(chunks))
  }

  // ---- the program ----

  /** The inner loop of `ParseExecVnode`. */
  method ReadResources(ram: HumanUnits, resources: string) returns (vnodeResources: map<string, Int64>)
    ensures vnodeResources == Resources(ram, Split(resources, ':'))
  {
    hide ParseBytes, Cut, Split;
    vnodeResources := map[];
    var parts := Split(resources, ':');
    for k := 0 to |parts|
      invariant vnodeResources == Resources(ram, parts[..k])
    {
      assert parts[..k + 1][..k] == parts[..k];
      var (resource, value, _) := Cut(parts[k], '=');
      var parsed := ParseBytes(ram, value);
      if parsed.Some? {
        vnodeResources := vnodeResources[resource := parsed.value];
      }
    }
    assert parts[..|parts|] == parts;
  }

  method ParseExecVnode(ram: HumanUnits, text: string) returns (r: Option<VnodeMap>)
    ensures r == ExecVnodeMap(ram, text)
  {
    hide FindVnode, Resources, Cut, Unbracketed, Split, Plus, Held, ParseChunks, Aggregate;
    var execVnodes: VnodeMap := map[];
    var entries := Split(text, '+');
    NoEntries(ram, entries);
    for i := 0 to |entries|
      invariant Progress(ram, entries[..i], execVnodes)
    {
      OneMoreEntry(ram, entries, i, execVnodes);
      var (hostVnode, resources, _) := Cut(Unbracketed(entries[i]), ':');
      var vnodeMatch := FindVnode(hostVnode);
      if vnodeMatch.None? {
        ChunksFail(ram, entries, i + 1);
        return None;
      }
      var vnodeResources := ReadResources(ram, resources);
      var currentVnode := Held(execVnodes, vnodeMatch.value);
      execVnodes := execVnodes[vnodeMatch.value := Plus(currentVnode, vnodeResources)];
    }
    assert entries[..|entries|] == entries;
    r := Some(execVnodes);
  }

  /** The entries read so far all parse, and the map holds their sums. */
  ghost predicate Progress(ram: HumanUnits, entries: seq<string>, m: VnodeMap) {
    ParseChunks(ram, entries).Some? && m == Aggregate(ParseChunks(ram, entries).value)
  }

  lemma NoEntries(ram: HumanUnits, entries: seq<string>)
    ensures Progress(ram, entries[..0], map[])
  {
  }

  lemma OneMoreEntry(ram: HumanUnits, entries: seq<string>, i: nat, m: VnodeMap)
    requires i < |entries| && Progress(ram, entries[..i], m)
    ensures ParseChunk(ram, entries[i]).None? ==> ParseChunks(ram, entries[..i + 1]).None?
    ensures ParseChunk(ram, entries[i]).Some? ==>
              var c := ParseChunk(ram, entries[i]).value;
              Progress(ram, entries[..i + 1], m[c.vnode := Plus(Held(m, c.vnode), c.resources)])
  {
    hide ParseChunk, Plus, Held;
    assert entries[..i + 1][..i] == entries[..i] && entries[..i + 1][i] == entries[i];
    if ParseChunk(ram, entries[i]).Some? {
      var before, c := ParseChunks(ram, entries[..i]).value, ParseChunk(ram, entries[i]).value;
      assert (before + [c])[..|before|] == before;
    }
  }

  lemma {:induction false} ChunksFail(ram: HumanUnits, entries: seq<string>, n: nat)
    requires n <= |entries| && ParseChunks(ram, entries[..n]).None?
    ensures ParseChunks(ram, entries).None?
  {
    hide ParseChunk;
    if n == |entries| {
      assert entries[..n] == entries;
    } else {
      assert entries[..|entries| - 1][..n] == entries[..n];
      ChunksFail(ram, entries[..|entries| - 1], n);
    }
  }

  /** `Vnode`: the index of the first chunk. */
  function PrimaryVnode(text: string): string {
    match FindVnode(Split(text, '+')[0])
    case Some(v) => v.vnode
    case None => ""
  }

  // ---- what the map holds ----

  datatype Resource = Mem | Ncpus | Nfpgas | Ngpus

  function Amount(e: ExecVnode, r: Resource): Int64 {
    match r
    case Mem => e.mem
    case Ncpus => e.ncpus
    case Nfpgas => e.nfpgas
    case Ngpus => e.ngpus
  }

  function Asked(c: Chunk, r: Resource): Int64 {
    match r
    case Mem => Get(c.resources, "mem")
    case Ncpus => Get(c.resources, "ncpus")
    case Nfpgas => Get(c.resources, "nfpgas")
    case Ngpus => Get(c.resources, "ngpus")
  }

  function VnodeOf(c: Chunk): Vnode { c.vnode }

  function AskedFor(r: Resource): Chunk -> int { c => Asked(c, r) }

  /** What the chunks on one vnode ask of a resource, added up. */
  function SumOn(chunks: seq<Chunk>, v: Vnode, r: Resource): int {
    SumBy(chunks, Restrict(VnodeOf, v, AskedFor(r)))
  }

  /** The map has one entry for each vnode a chunk names, holding the sums over that vnode's chunks. */
  lemma AggregateIsSum(chunks: seq<Chunk>, v: Vnode, r: Resource)
    ensures v in Aggregate(chunks) <==> exists i :: 0 <= i < |chunks| && chunks[i].vnode == v
    ensures Amount(Held(Aggregate(chunks), v), r) == Wrap64(SumOn(chunks, v, r))
  {
    hide *;
    AggregateNames(chunks, v);
    AggregateHolds(chunks, v, r);
  }

  lemma {:induction false} AggregateNames(chunks: seq<Chunk>, v: Vnode)
    ensures v in Aggregate(chunks) <==> exists i :: 0 <= i < |chunks| && chunks[i].vnode == v
  {
    hide Plus, Held;
    if chunks == [] {
    } else {
      var init := chunks[..|chunks| - 1];
      AggregateNames(init, v);
      assert forall i :: 0 <= i < |init| ==> init[i] == chunks[i];
      if v in Aggregate(init) {
        var i :| 0 <= i < |init| && init[i].vnode == v;
        assert chunks[i].vnode == v;
      }
    }
  }

  lemma {:induction false} AggregateHolds(chunks: seq<Chunk>, v: Vnode, r: Resource)
    ensures Amount(Held(Aggregate(chunks), v), r) == Wrap64(SumOn(chunks, v, r))
  {
    hide Wrap64, Plus, Asked, SumBy;
    if chunks == [] {
      NothingHeld(v, r);
    } else {
      var init, c := chunks[..|chunks| - 1], chunks[|chunks| - 1];
      AggregateHolds(init, v, r);
      SumSnoc(chunks, Restrict(VnodeOf, v, AskedFor(r)));
      hide Amount;
      if c.vnode == v {
        PlusAmount(Held(Aggregate(init), v), c, r);
        Wrap64Add(SumOn(init, v, r), Asked(c, r));
      }
    }
  }

  lemma NothingHeld(v: Vnode, r: Resource)
    ensures Amount(Held(Aggregate([]), v), r) == 0 && SumOn([], v, r) == 0 && Wrap64(0) == 0
  {
  }

  lemma PlusAmount(e: ExecVnode, c: Chunk, r: Resource)
    ensures Amount(Plus(e, c.resources), r) == Wrap64(Amount(e, r) as int + Asked(c, r))
  {
    hide Wrap64;
  }

  lemma HeldUnordered(a: seq<Chunk>, b: seq<Chunk>, v: Vnode)
    requires multiset(a) == multiset(b)
    ensures v in Aggregate(a) <==> v in Aggregate(b)
    ensures Held(Aggregate(a), v) == Held(Aggregate(b), v)
  {
    hide Aggregate, Held, SumBy, Amount;
    NamedInBoth(a, b, v);
    forall r: Resource ensures Amount(Held(Aggregate(a), v), r) == Amount(Held(Aggregate(b), v), r) {
      AggregateIsSum(a, v, r);
      AggregateIsSum(b, v, r);
      SumUnordered(a, b, Restrict(VnodeOf, v, AskedFor(r)));
    }
    AggregateIsSum(a, v, Mem);
    AggregateIsSum(b, v, Mem);
    SameAmounts(Held(Aggregate(a), v), Held(Aggregate(b), v));
  }

  /** The order of the chunks does not matter. */
  lemma AggregateUnordered(a: seq<Chunk>, b: seq<Chunk>)
    requires multiset(a) == multiset(b)
    ensures Aggregate(a) == Aggregate(b)
  {
    hide Aggregate;
    var m, n := Aggregate(a), Aggregate(b);
    forall v ensures (v in m <==> v in n) && (v in m && v in n ==> m[v] == n[v]) {
      HeldUnordered(a, b, v);
    }
  }

  /** The chunk an entry is, where it is one. */
  function ChunkOf(ram: HumanUnits): string -> Chunk {
    (entry: string) =>
      match ParseChunk(ram, entry)
      case Some(c) => c
      case None => Chunk(Vnode("", ""), map[])
  }

  predicate AllChunks(ram: HumanUnits, entries: seq<string>) {
    forall i :: 0 <= i < |entries| ==> ParseChunk(ram, entries[i]).Some?
  }

  /** Entries parse one by one. */
  lemma {:induction false} ParseChunksEach(ram: HumanUnits, entries: seq<string>)
    ensures ParseChunks(ram, entries) == if AllChunks(ram, entries) then Some(Images(entries, ChunkOf(ram))) else None
    decreases |entries|
  {
    hide ParseChunk;
    if entries == [] {
    } else {
      var init, last := entries[..|entries| - 1], entries[|entries| - 1];
      ParseChunksEach(ram, init);
      AllChunksMore(ram, entries);
      assert Images(entries, ChunkOf(ram)) == Images(init, ChunkOf(ram)) + [ChunkOf(ram)(last)];
    }
  }

  lemma AllChunksMore(ram: HumanUnits, entries: seq<string>)
    requires entries != []
    ensures AllChunks(ram, entries)
       <==> AllChunks(ram, entries[..|entries| - 1]) && ParseChunk(ram, entries[|entries| - 1]).Some?
  {
    hide ParseChunk;
    var init := entries[..|entries| - 1];
    assert forall i :: 0 <= i < |init| ==> init[i] == entries[i];
  }

  lemma AllChunksUnordered(ram: HumanUnits, a: seq<string>, b: seq<string>)
    requires multiset(a) == multiset(b)
    ensures AllChunks(ram, a) ==> AllChunks(ram, b)
  {
    hide ParseChunk;
    forall i | 0 <= i < |b| ensures AllChunks(ram, a) ==> ParseChunk(ram, b[i]).Some? {
      var k := Elsewhere(b, a, i);
    }
  }

  /** Permuting the entries of a text, whatever they are, changes neither the map nor whether there is one. */
  lemma EntriesUnordered(ram: HumanUnits, a: string, b: string)
    requires multiset(Split(a, '+')) == multiset(Split(b, '+'))
    ensures ExecVnodeMap(ram, a) == ExecVnodeMap(ram, b)
  {
    hide Split, ParseChunks, AllChunks, Aggregate, Images, ChunkOf;
    var ea, eb := Split(a, '+'), Split(b, '+');
    ParseChunksEach(ram, ea);
    ParseChunksEach(ram, eb);
    AllChunksUnordered(ram, ea, eb);
    AllChunksUnordered(ram, eb, ea);
    ImagesUnordered(ea, eb, ChunkOf(ram));
    AggregateUnordered(Images(ea, ChunkOf(ram)), Images(eb, ChunkOf(ram)));
  }

  lemma SameAmounts(d: ExecVnode, e: ExecVnode)
    requires forall r :: Amount(d, r) == Amount(e, r)
    ensures d == e
  {
    assert Amount(d, Mem) == Amount(e, Mem) && Amount(d, Ncpus) == Amount(e, Ncpus);
    assert Amount(d, Nfpgas) == Amount(e, Nfpgas) && Amount(d, Ngpus) == Amount(e, Ngpus);
  }

  lemma NamedInBoth(a: seq<Chunk>, b: seq<Chunk>, v: Vnode)
    requires multiset(a) == multiset(b)
    ensures (exists i :: 0 <= i < |a| && a[i].vnode == v) <==> (exists i :: 0 <= i < |b| && b[i].vnode == v)
  {
    if i :| 0 <= i < |a| && a[i].vnode == v {
      var k := Elsewhere(a, b, i);
    }
    if i :| 0 <= i < |b| && b[i].vnode == v {
      var k := Elsewhere(b, a, i);
    }
  }

  // ---- totals are conserved ----

  function HeldAmount(m: VnodeMap, r: Resource): Vnode -> int { v => Amount(Held(m, v), r) }

  /** Over the map's vnodes, each listed once, what it holds is what all chunks ask, in 64-bit arithmetic. */
  lemma TotalsConserved(chunks: seq<Chunk>, vs: seq<Vnode>, r: Resource)
    requires forall i :: 0 <= i < |chunks| ==> Occurrences(vs, chunks[i].vnode) == 1
    ensures Wrap64(SumBy(vs, HeldAmount(Aggregate(chunks), r))) == Wrap64(SumBy(chunks, AskedFor(r)))
  {
    GroupsConserve(chunks, vs, VnodeOf, AskedFor(r));
    HeldIsSum(chunks, vs, r);
  }

  lemma {:induction false} HeldIsSum(chunks: seq<Chunk>, vs: seq<Vnode>, r: Resource)
    ensures Wrap64(SumBy(vs, HeldAmount(Aggregate(chunks), r)))
         == Wrap64(SumBy(vs, GroupSum(chunks, VnodeOf, AskedFor(r))))
    decreases |vs|
  {
    if vs == [] {
    } else {
      var init, v := vs[..|vs| - 1], vs[|vs| - 1];
      var held, group := HeldAmount(Aggregate(chunks), r), GroupSum(chunks, VnodeOf, AskedFor(r));
      SumSnoc(vs, held);
      SumSnoc(vs, group);
      HeldIsSum(chunks, init, r);
      AggregateIsSum(chunks, v, r);
      hide *;
      Wrap64Step(SumBy(init, held), SumBy(init, group), held(v), group(v));
    }
  }

  // ---- the primary vnode ----

  /** A character that can stand in no match. */
  predicate OutsidePattern(c: char) {
    !(c == ']' || IsDigit(c) || IsNameChar(c) || c == '[')
  }

  /** Text that begins outside the pattern, put behind a text with a match, changes nothing. */
  lemma FindVnodeInside(s: string, t: string)
    requires FindVnode(s).Some? && (t == "" || OutsidePattern(t[0]))
    ensures FindVnode(s + t) == FindVnode(s)
  {
    var i := FindVnodeLeftmost(s);
    var j := FindVnodeLeftmost(s + t);
    hide FindVnode, Matches, OutsidePattern;
    var v := FindVnode(s).value;
    MatchesAtMore(s, t, i, v);
    assert FindVnode(s + t).Some?;
    var w := FindVnode(s + t).value;
    MatchesAtLess(s, t, j, w);
    MatchHereExact(s[i..], v);
    MatchHereExact(s[i..], w);
  }

  lemma MatchesAtMore(s: string, t: string, i: int, v: Vnode)
    requires MatchesAt(s, i, v)
    ensures MatchesAt(s + t, i, v)
  {
    MatchesMore(s[i..], t, v);
    hide Matches;
    assert (s + t)[i..] == s[i..] + t;
  }

  lemma MatchesAtLess(s: string, t: string, j: int, v: Vnode)
    requires MatchesAt(s + t, j, v) && j <= |s| && (t == "" || OutsidePattern(t[0]))
    ensures MatchesAt(s, j, v)
  {
    hide Matches;
    assert (s + t)[j..] == s[j..] + t;
    MatchesLess(s[j..], t, v);
  }

  lemma MatchesMore(s: string, t: string, v: Vnode)
    requires Matches(s, v)
    ensures Matches(s + t, v)
  {
  }

  /** No match runs into text that begins with a character of no part of the pattern. */
  lemma MatchesLess(s: string, t: string, v: Vnode)
    requires Matches(s + t, v)
    requires t == "" || OutsidePattern(t[0])
    ensures Matches(s, v)
  {
    var m := v.node + "[" + v.vnode + "]";
    assert forall i :: 0 <= i < |m| ==> m[i] == ']' || IsDigit(m[i]) || IsNameChar(m[i]) || m[i] == '[';
    assert forall i :: 0 <= i < |m| ==> m[i] == (s + t)[i];
    assert t == "" || (s + t)[|s|] == t[0];
    if |m| > |s| {
      assert false;
    }
    assert m == (s + t)[..|m|] == s[..|m|];
  }

  /** Characters in front that start no match and belong to no name do not matter. */
  lemma FindVnodeAfter(c: char, s: string)
    requires !IsNameChar(c)
    ensures FindVnode([c] + s) == FindVnode(s)
  {
    assert ([c] + s)[1..] == s;
  }

  /** Whenever `ParseExecVnode` succeeds, `Vnode` is the index of the first chunk's key in its map. */
  lemma PrimaryVnodeIsKey(ram: HumanUnits, text: string)
    requires ExecVnodeMap(ram, text).Some?
    ensures var first := ParseChunk(ram, Split(text, '+')[0]);
            && first.Some? && first.value.vnode in ExecVnodeMap(ram, text).value
            && PrimaryVnode(text) == first.value.vnode.vnode
  {
    var entries := Split(text, '+');
    var chunks := ParseChunks(ram, entries).value;
    FirstChunk(ram, entries);
    PrimarySame(entries[0]);
    hide ParseChunks, FindVnode;
    AggregateIsSum(chunks, chunks[0].vnode, Mem);
  }

  lemma {:induction false} FirstChunk(ram: HumanUnits, entries: seq<string>)
    requires entries != [] && ParseChunks(ram, entries).Some?
    ensures ParseChunk(ram, entries[0]) == Some(ParseChunks(ram, entries).value[0])
  {
    hide ParseChunk;
    if |entries| > 1 {
      FirstChunk(ram, entries[..|entries| - 1]);
    } else {
      assert entries[..0] == [];
    }
  }

  /** The whole entry has the same first match as its host part, if that has one. */
  lemma PrimarySame(entry: string)
    requires FindVnode(Cut(Unbracketed(entry), ':').0).Some?
    ensures FindVnode(entry) == FindVnode(Cut(Unbracketed(entry), ':').0)
  {
    var bare := CutPrefix(entry, "(");
    var inner := Unbracketed(entry);
    var (host, rest, found) := Cut(inner, ':');
    CutParts(inner, ':');
    hide FindVnode, Cut;
    if found {
      FindVnodeInside(host, [':'] + rest);
      assert inner == host + ([':'] + rest);
    }
    if HasSuffix(bare, ")") {
      assert bare == inner + ")";
      FindVnodeInside(inner, ")");
    }
    if "(" <= entry {
      assert entry == ['('] + bare;
      FindVnodeAfter('(', bare);
    }
  }
}
