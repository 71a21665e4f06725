/** `ParseSelect` of `internal/pbsjob/pbsjob.go`: the total a select statement asks of a resource. */
module Select {
  import opened Wrappers
  import opened GoStrings
  import opened Strconv
  import opened Utils

  // ---- specification, in unbounded integers ----

  /** What the parts "key=value" of one chunk add for a resource; None where a value cannot be read. */
  function Inner(ram: HumanUnits, parts: seq<string>, resource: string, n: int): Option<int> {
    if parts == [] then Some(0)
    else
      var (key, text, found) := Cut(parts[|parts| - 1], '=');
      match Inner(ram, parts[..|parts| - 1], resource, n)
      case None => None
      case Some(t) =>
        if !found || key != resource then Some(t)
        else
          match ParseBytes(ram, text)
          case Some(x) => Some(t + x * n)
          case None => None
  }

  datatype State = State(total: int, nchunks: int)

  predicate HasCount(chunk: string) {
    Cut(chunk, ':').2 && ParseInt(Cut(chunk, ':').0).Num?
  }

  /** The count of a chunk, or the previous one when it has no valid count. */
  function CountOf(chunk: string, previous: int): int {
    if HasCount(chunk) then ParseInt(Cut(chunk, ':').0).value else previous
  }

  function SelectChunk(ram: HumanUnits, chunk: string, resource: string, s: State): Option<State> {
    var n := CountOf(chunk, s.nchunks);
    match Inner(ram, Split(Cut(chunk, ':').1, ':'), resource, n)
    case None => None
    case Some(t) => Some(State(s.total + t, n))
  }

  function SelectChunks(ram: HumanUnits, chunks: seq<string>, resource: string, s: State): Option<State> {
    if chunks == [] then Some(s)
    else
      match SelectChunks(ram, chunks[..|chunks| - 1], resource, s)
      case None => None
      case Some(s') => SelectChunk(ram, chunks[|chunks| - 1], resource, s')
  }

  function SelectTotal(ram: HumanUnits, text: string, resource: string): Option<Int64> {
    match SelectChunks(ram, Split(text, '+'), resource, State(0, 0))
    case None => None
    case Some(s) => Some(Wrap64(s.total))
  }

  // ---- the program ----

  method ParseSelect(ram: HumanUnits, text: string, resource: string) returns (r: Option<Int64>)
    ensures r == SelectTotal(ram, text, resource)
  {
    hide Cut, Inner, Split, CountOf, SelectChunk, SelectChunks;
    var total: Int64, nchunks: int := 0, 0;
    var chunks := Split(text, '+');
    assert Wrap64(0) == 0 && chunks[..0] == [];
    NoChunks(ram, resource);
    hide Wrap64;
    ghost var s := State(0, 0);
    for i := 0 to |chunks|
      invariant SelectChunks(ram, chunks[..i], resource, State(0, 0)) == Some(s)
      invariant total == Wrap64(s.total) && nchunks == s.nchunks
    {
      OneMoreChunk(ram, chunks, i, resource, s);
      var (selectNodes, selectResources, found) := Cut(chunks[i], ':');
      nchunks := NodeCount(chunks[i], nchunks);
      var fine: bool;
      fine, total := AddResources(ram, selectResources, resource, nchunks, total, s.total);
      if !fine {
        SelectFails(ram, chunks, resource, State(0, 0), i + 1);
        return None;
      }
      s := State(s.total + Inner(ram, Split(selectResources, ':'), resource, nchunks).value, nchunks);
    }
    assert chunks[..|chunks|] == chunks;
    r := Some(total);
  }

  lemma NoChunks(ram: HumanUnits, resource: string)
    ensures SelectChunks(ram, [], resource, State(0, 0)) == Some(State(0, 0))
  {
  }

  lemma OneMoreChunk(ram: HumanUnits, chunks: seq<string>, i: nat, resource: string, s: State)
    requires i < |chunks| && SelectChunks(ram, chunks[..i], resource, State(0, 0)) == Some(s)
    ensures var n := CountOf(chunks[i], s.nchunks);
            var t := Inner(ram, Split(Cut(chunks[i], ':').1, ':'), resource, n);
            SelectChunks(ram, chunks[..i + 1], resource, State(0, 0))
            == if t.None? then None else Some(State(s.total + t.value, n))
  {
    hide Cut, Inner, Split, CountOf;
    assert chunks[..i + 1][..i] == chunks[..i] && chunks[..i + 1][i] == chunks[i];
  }

  /** The count a chunk sets, if it has one. */
  method NodeCount(chunk: string, previous: int) returns (n: int)
    ensures n == CountOf(chunk, previous)
  {
    n := previous;
    var (selectNodes, _, found) := Cut(chunk, ':');
    if found {
      var nodeCount := ParseInt(selectNodes);
      if nodeCount.Num? {
        n := nodeCount.value;
      }
    }
  }

  /** The inner loop: `total` stands for the unbounded sum `sum`, wrapped. */
  method AddResources(ram: HumanUnits, resources: string, resource: string, n: int, total: Int64, ghost sum: int)
    returns (fine: bool, r: Int64)
    requires total == Wrap64(sum)
    ensures var t := Inner(ram, Split(resources, ':'), resource, n);
            fine == t.Some? && (fine ==> r == Wrap64(sum + t.value))
  {
    hide Cut, ParseBytes, Wrap64, Split, Inner;
    var parts := Split(resources, ':');
    r := total;
    ghost var added := 0;
    NoParts(ram, parts, resource, n);
    for k := 0 to |parts|
      invariant Inner(ram, parts[..k], resource, n) == Some(added)
      invariant r == Wrap64(sum + added)
    {
      OneMorePart(ram, parts, k, resource, n, added);
      var (resourceKey, resourceValue, found) := Cut(parts[k], '=');
      if found && resourceKey == resource {
        var value := ParseBytes(ram, resourceValue);
        if value.None? {
          InnerFails(ram, parts, resource, n, k + 1);
          return false, 0;
        }
        var more := value.value * n;
        WrapMore(sum, added, more);
        r := Wrap64(r + more);
        added := added + more;
      }
    }
    assert parts[..|parts|] == parts;
    fine := true;
  }

  lemma WrapMore(sum: int, added: int, more: int)
    ensures Wrap64(Wrap64(sum + added) + more) == Wrap64(sum + (added + more))
  {
    Wrap64Add(sum + added, more);
    hide Wrap64;
    assert sum + added + more == sum + (added + more);
  }

  lemma NoParts(ram: HumanUnits, parts: seq<string>, resource: string, n: int)
    ensures Inner(ram, parts[..0], resource, n) == Some(0)
  {
  }

  lemma OneMorePart(ram: HumanUnits, parts: seq<string>, k: nat, resource: string, n: int, added: int)
    requires k < |parts| && Inner(ram, parts[..k], resource, n) == Some(added)
    ensures var (key, text, found) := Cut(parts[k], '=');
            Inner(ram, parts[..k + 1], resource, n)
            == if !found || key != resource then Some(added)
               else if ParseBytes(ram, text).Some? then Some(added + ParseBytes(ram, text).value * n)
               else None
  {
    hide Cut, ParseBytes;
    assert parts[..k + 1][..k] == parts[..k] && parts[..k + 1][k] == parts[k];
  }

  lemma {:induction false} InnerFails(ram: HumanUnits, parts: seq<string>, resource: string, n: int, k: nat)
    requires k <= |parts| && Inner(ram, parts[..k], resource, n).None?
    ensures Inner(ram, parts, resource, n).None?
    decreases |parts|
  {
    hide Cut, ParseBytes;
    if k == |parts| {
      assert parts[..k] == parts;
    } else {
      assert parts[..|parts| - 1][..k] == parts[..k];
      InnerFails(ram, parts[..|parts| - 1], resource, n, k);
    }
  }

  lemma {:induction false} SelectFails(ram: HumanUnits, chunks: seq<string>, resource: string, s: State, k: nat)
    requires k <= |chunks| && SelectChunks(ram, chunks[..k], resource, s).None?
    ensures SelectChunks(ram, chunks, resource, s).None?
    decreases |chunks|
  {
    hide SelectChunk;
    if k == |chunks| {
      assert chunks[..k] == chunks;
    } else {
      assert chunks[..|chunks| - 1][..k] == chunks[..k];
      SelectFails(ram, chunks[..|chunks| - 1], resource, s, k);
    }
  }

  // ---- statements add up ----

  lemma {:induction false} SelectAppend(ram: HumanUnits, a: seq<string>, b: seq<string>, resource: string, s: State)
    ensures SelectChunks(ram, a + b, resource, s)
         == var mid := SelectChunks(ram, a, resource, s);
            if mid.None? then None else SelectChunks(ram, b, resource, mid.value)
    decreases |b|
  {
    hide SelectChunk;
    if b == [] {
      assert a + b == a;
    } else {
      assert (a + b)[..|a + b| - 1] == a + b[..|b| - 1];
      SelectAppend(ram, a, b[..|b| - 1], resource, s);
    }
  }

  /** Two states give the same sums on chunks whose first has its own count. */
  lemma {:induction false} StartsAfresh(ram: HumanUnits, chunks: seq<string>, resource: string, s: State, u: State)
    requires chunks != [] && HasCount(chunks[0])
    ensures var from, other := SelectChunks(ram, chunks, resource, s), SelectChunks(ram, chunks, resource, u);
            && from.Some? == other.Some?
            && (from.Some? ==> from.value.nchunks == other.value.nchunks
                               && from.value.total - s.total == other.value.total - u.total)
    decreases |chunks|
  {
    hide Inner, HasCount, Cut, Split;
    var init := chunks[..|chunks| - 1];
    if |chunks| > 1 {
      StartsAfresh(ram, init, resource, s, u);
    } else {
      assert init == [];
    }
  }

  // ---- exactly how statements add up ----

  function Times(n: int, x: int): int { n * x }

  lemma Distribute(n: int, a: int, b: int)
    ensures Times(n, a + b) == Times(n, a) + Times(n, b) && Times(n, b) == b * n
    ensures Times(n, 0) == 0 && Times(0, b) == 0 && Times(1, b) == b
  {
  }

  /**
   The parts of a chunk add the count times what they add once, and whether they can be read does
   not depend on it.
   */
  lemma {:induction false} InnerLinear(ram: HumanUnits, parts: seq<string>, resource: string, n: int)
    ensures var once, all := Inner(ram, parts, resource, 1), Inner(ram, parts, resource, n);
            all == if once.None? then None else Some(Times(n, once.value))
  {
    hide ParseBytes, Cut, Times;
    if parts == [] {
      Distribute(n, 0, 0);
    } else {
      var init := parts[..|parts| - 1];
      InnerLinear(ram, init, resource, n);
      var text := Cut(parts[|parts| - 1], '=').1;
      if Inner(ram, init, resource, 1).Some? && ParseBytes(ram, text).Some? {
        Distribute(n, Inner(ram, init, resource, 1).value, ParseBytes(ram, text).value);
      }
    }
  }

  function PartsOf(chunk: string): seq<string> { Split(Cut(chunk, ':').1, ':') }

  /** What a chunk adds once, where it can be read. */
  function Once(ram: HumanUnits, chunk: string, resource: string): int {
    var t := Inner(ram, PartsOf(chunk), resource, 1);
    if t.Some? then t.value else 0
  }

  /** What the chunks before the first with a count of its own add, each once. */
  function Lead(ram: HumanUnits, chunks: seq<string>, resource: string): int {
    if chunks == [] || HasCount(chunks[0]) then 0
    else Once(ram, chunks[0], resource) + Lead(ram, chunks[1..], resource)
  }

  /** The count in force behind the chunks. */
  function CountAfter(chunks: seq<string>, previous: int): int {
    if chunks == [] then previous
    else CountOf(chunks[|chunks| - 1], CountAfter(chunks[..|chunks| - 1], previous))
  }

  lemma {:induction false} CountIsAfter(ram: HumanUnits, chunks: seq<string>, resource: string, s: State)
    requires SelectChunks(ram, chunks, resource, s).Some?
    ensures SelectChunks(ram, chunks, resource, s).value.nchunks == CountAfter(chunks, s.nchunks)
  {
    hide Inner, CountOf, Split, Cut;
    if chunks == [] {
    } else {
      CountIsAfter(ram, chunks[..|chunks| - 1], resource, s);
    }
  }

  lemma UncountedStep(ram: HumanUnits, chunk: string, resource: string, s: State)
    requires !HasCount(chunk)
    ensures SelectChunk(ram, chunk, resource, s)
         == if Inner(ram, PartsOf(chunk), resource, 1).None? then None
            else Some(State(s.total + Times(s.nchunks, Once(ram, chunk, resource)), s.nchunks))
  {
    hide Inner, HasCount, Cut, Split, Times;
    InnerLinear(ram, PartsOf(chunk), resource, s.nchunks);
  }

  lemma FirstChunk(ram: HumanUnits, chunks: seq<string>, resource: string, s: State)
    requires chunks != []
    ensures SelectChunks(ram, chunks, resource, s)
         == var mid := SelectChunk(ram, chunks[0], resource, s);
            if mid.None? then None else SelectChunks(ram, chunks[1..], resource, mid.value)
  {
    hide SelectChunk;
    var first, rest := [chunks[0]], chunks[1..];
    assert chunks == first + rest && first[..0] == [];
    assert SelectChunks(ram, [], resource, s) == Some(s);
    SelectAppend(ram, first, rest, resource, s);
  }

  /** From another state the chunks add the same, and the count in force times what leads before the first count. */
  lemma {:induction false} Shifted(ram: HumanUnits, chunks: seq<string>, resource: string, s: State)
    ensures var from, zero := SelectChunks(ram, chunks, resource, s), SelectChunks(ram, chunks, resource, State(0, 0));
            && from.Some? == zero.Some?
            && (from.Some? ==>
                  from.value.total == s.total + zero.value.total + Times(s.nchunks, Lead(ram, chunks, resource)))
    decreases |chunks|
  {
    hide SelectChunk, HasCount, Once, Times;
    Distribute(s.nchunks, 0, 0);
    if chunks == [] {
    } else if HasCount(chunks[0]) {
      StartsAfresh(ram, chunks, resource, s, State(0, 0));
    } else {
      var once := Once(ram, chunks[0], resource);
      UncountedStep(ram, chunks[0], resource, s);
      UncountedStep(ram, chunks[0], resource, State(0, 0));
      Distribute(0, 0, once);
      FirstChunk(ram, chunks, resource, s);
      FirstChunk(ram, chunks, resource, State(0, 0));
      hide SelectChunks;
      var mid := State(s.total + Times(s.nchunks, once), s.nchunks);
      Shifted(ram, chunks[1..], resource, mid);
      Distribute(s.nchunks, once, Lead(ram, chunks[1..], resource));
    }
  }

  /** What the first statement's last count adds through the second's leading chunks without counts. */
  function Carry(ram: HumanUnits, a: string, b: string, resource: string): int {
    Times(CountAfter(Split(a, '+'), 0), Lead(ram, Split(b, '+'), resource))
  }

  /**
   The total of "a+b", for any two texts: it fails exactly when one of them fails alone, and
   otherwise is the sum of the two totals and the carry.
   */
  lemma SelectJoined(ram: HumanUnits, a: string, b: string, resource: string)
    ensures var ta, tb := SelectTotal(ram, a, resource), SelectTotal(ram, b, resource);
            SelectTotal(ram, a + ['+'] + b, resource)
            == if ta.None? || tb.None? then None
               else Some(Wrap64(ta.value + tb.value + Carry(ram, a, b, resource)))
  {
    SplitAppend(a, b, '+');
    var ca, cb := Split(a, '+'), Split(b, '+');
    var zero := State(0, 0);
    SelectAppend(ram, ca, cb, resource, zero);
    hide SelectChunks, Split, Wrap64, Times, Lead, CountAfter;
    var sa, sb := SelectChunks(ram, ca, resource, zero), SelectChunks(ram, cb, resource, zero);
    if sa.Some? {
      CountIsAfter(ram, ca, resource, zero);
      Shifted(ram, cb, resource, sa.value);
      if sb.Some? {
        WrapThree(sa.value.total, sb.value.total, Carry(ram, a, b, resource));
      }
    }
  }

  lemma WrapThree(a: int, b: int, c: int)
    ensures Wrap64(Wrap64(a) + Wrap64(b) + c) == Wrap64(a + b + c)
  {
    Wrap64Add(a, Wrap64(b) + c);
    Wrap64Add(b, a + c);
    hide Wrap64;
    assert Wrap64(a) + Wrap64(b) + c == Wrap64(a) as int + (Wrap64(b) + c);
  }

  /** Adding changes a 64-bit number exactly when what is added is no multiple of 2^64. */
  lemma WrapSame(x: int, y: int)
    ensures Wrap64(x + y) == Wrap64(x) <==> Wrap64(y) == 0
  {
    Wrap64Add(y, x);
    if Wrap64(x + y) == Wrap64(x) {
      WrapStays(x, Wrap64(y));
    }
  }

  lemma WrapStays(x: int, d: Int64)
    requires Wrap64(x + d) == Wrap64(x)
    ensures d == 0
  {
    var a: int := x + 0x8000_0000_0000_0000;
    var p, q := a / 0x1_0000_0000_0000_0000, (a + d) / 0x1_0000_0000_0000_0000;
    assert a == 0x1_0000_0000_0000_0000 * p + a % 0x1_0000_0000_0000_0000;
    assert a + d == 0x1_0000_0000_0000_0000 * q + (a + d) % 0x1_0000_0000_0000_0000;
    assert (a + d) % 0x1_0000_0000_0000_0000 == a % 0x1_0000_0000_0000_0000;
    assert d == 0x1_0000_0000_0000_0000 * (q - p);
  }

  /** So `ParseSelect` is additive over "+" exactly when the carry is nothing in 64 bits. */
  lemma SelectAdditiveExactly(ram: HumanUnits, a: string, b: string, resource: string)
    requires SelectTotal(ram, a, resource).Some? && SelectTotal(ram, b, resource).Some?
    ensures var sum := SelectTotal(ram, a, resource).value + SelectTotal(ram, b, resource).value;
            SelectTotal(ram, a + ['+'] + b, resource) == Some(Wrap64(sum)) <==> Wrap64(Carry(ram, a, b, resource)) == 0
  {
    SelectJoined(ram, a, b, resource);
    hide SelectTotal, Carry, Wrap64;
    WrapSame(SelectTotal(ram, a, resource).value + SelectTotal(ram, b, resource).value, Carry(ram, a, b, resource));
  }

  /** A second statement that starts with a count of its own always just adds. */
  lemma SelectAdditive(ram: HumanUnits, a: string, b: string, resource: string)
    requires HasCount(Split(b, '+')[0])
    ensures var ta, tb := SelectTotal(ram, a, resource), SelectTotal(ram, b, resource);
            SelectTotal(ram, a + ['+'] + b, resource)
            == if ta.None? || tb.None? then None else Some(Wrap64(ta.value + tb.value))
  {
    SelectJoined(ram, a, b, resource);
    hide SelectTotal, Split, HasCount, CountAfter;
    Distribute(CountAfter(Split(a, '+'), 0), 0, 0);
  }

  // ---- parts that give no value ----

  /** A part without "=" adds nothing, whatever resource is asked for, wherever it stands. */
  lemma {:induction false} WordIgnored(
    ram: HumanUnits, a: seq<string>, word: string, b: seq<string>, resource: string, n: int)
    requires '=' !in word
    ensures Inner(ram, a + [word] + b, resource, n) == Inner(ram, a + b, resource, n)
    decreases |b|
  {
    hide ParseBytes, Cut;
    if b == [] {
      CutNone(word, '=');
      assert (a + [word])[..|a|] == a && a + [] == a && a + [word] + [] == a + [word];
    } else {
      var init, last := b[..|b| - 1], b[|b| - 1];
      WordIgnored(ram, a, word, init, resource, n);
      assert (a + [word] + b)[..|a + [word] + b| - 1] == a + [word] + init;
      assert (a + b)[..|a + b| - 1] == a + init;
    }
  }

  /** No statement asks for nothing, even of the resource without a name. */
  lemma NothingSelected(ram: HumanUnits, resource: string)
    ensures SelectTotal(ram, "", resource) == Some(0)
  {
    CutNone("", ':');
    assert [""][..0] == [];
    WordIgnored(ram, [], "", [], resource, 0);
    assert [] + [""] + [] == [""];
    assert Split("", ':') == [""] && Split("", '+') == [""];
    hide Inner, Cut, Split, Wrap64;
    assert SelectChunks(ram, [""][..0], resource, State(0, 0)) == Some(State(0, 0));
    NothingAdded(ram, resource);
  }

  lemma NothingAdded(ram: HumanUnits, resource: string)
    ensures Inner(ram, [], resource, 0) == Some(0) && Wrap64(0) == 0
  {
  }
}
