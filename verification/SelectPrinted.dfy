/** Printed select statements: what `ParseSelect` totals for a resource, and what it ignores. */
module SelectPrinted {
  import opened Wrappers
  import opened GoStrings
  import opened Strconv
  import opened Utils
  import opened Seqs
  import opened Sums
  import opened Fields
  import opened Select

  /** A chunk "N:k=v:...": its count and its fields. */
  datatype Chunk = Chunk(count: Int64, fields: seq<(string, string)>)

  /** Keys and values hold no separator; any other text will do. */
  predicate WellWritten(c: Chunk) {
    forall i :: 0 <= i < |c.fields| ==>
      Avoids(c.fields[i].0, {':', '=', '+'}) && Avoids(c.fields[i].1, {':', '+'})
  }

  predicate AllWellWritten(cs: seq<Chunk>) {
    cs != [] && forall i :: 0 <= i < |cs| ==> WellWritten(cs[i])
  }

  function ChunkText(c: Chunk): string {
    Join([FormatInt(c.count)] + FieldTexts(c.fields), ':')
  }

  function ChunkTexts(cs: seq<Chunk>): (texts: seq<string>)
    ensures |texts| == |cs| && forall i :: 0 <= i < |texts| ==> texts[i] == ChunkText(cs[i])
  {
    seq(|cs|, i requires 0 <= i < |cs| => ChunkText(cs[i]))
  }

  function TextOf(cs: seq<Chunk>): string {
    Join(ChunkTexts(cs), '+')
  }

  /** Every value given for the resource is a number. */
  predicate Readable(ram: HumanUnits, fields: seq<(string, string)>, resource: string) {
    forall i :: 0 <= i < |fields| && fields[i].0 == resource ==> ParseBytes(ram, fields[i].1).Some?
  }

  predicate AllReadable(ram: HumanUnits, cs: seq<Chunk>, resource: string) {
    forall i :: 0 <= i < |cs| ==> Readable(ram, cs[i].fields, resource)
  }

  /** The values a chunk gives for a resource, added up. */
  function ValueSum(ram: HumanUnits, fields: seq<(string, string)>, resource: string): int {
    if fields == [] then 0
    else
      var (key, text) := fields[|fields| - 1];
      ValueSum(ram, fields[..|fields| - 1], resource)
      + (if key == resource && ParseBytes(ram, text).Some? then ParseBytes(ram, text).value else 0)
  }

  function AskedOf(ram: HumanUnits, resource: string): Chunk -> int {
    (c: Chunk) => Times(c.count, ValueSum(ram, c.fields, resource))
  }

  /** Over all chunks, the count times the values. */
  function Asked(ram: HumanUnits, cs: seq<Chunk>, resource: string): int {
    SumBy(cs, AskedOf(ram, resource))
  }

  // ---- one chunk ----

  lemma {:induction false} InnerOfFields(ram: HumanUnits, fields: seq<(string, string)>, resource: string, n: int)
    requires WellWritten(Chunk(0, fields))
    ensures Inner(ram, FieldTexts(fields), resource, n)
         == if Readable(ram, fields, resource) then Some(Times(n, ValueSum(ram, fields, resource))) else None
    decreases |fields|
  {
    hide ParseBytes, Cut, Times;
    if fields == [] {
      Distribute(n, 0, 0);
    } else {
      var k := |fields| - 1;
      InnerOfFields(ram, fields[..k], resource, n);
      assert FieldTexts(fields)[..k] == FieldTexts(fields[..k]);
      CutAt(fields[k].0, fields[k].1, '=');
      hide WellWritten, FieldTexts, FieldText;
      ReadableMore(ram, fields, resource);
      if ParseBytes(ram, fields[k].1).Some? {
        Distribute(n, ValueSum(ram, fields[..k], resource), ParseBytes(ram, fields[k].1).value);
      }
    }
  }

  lemma ReadableMore(ram: HumanUnits, fields: seq<(string, string)>, resource: string)
    requires fields != []
    ensures Readable(ram, fields, resource)
       <==> Readable(ram, fields[..|fields| - 1], resource)
            && (fields[|fields| - 1].0 == resource ==> ParseBytes(ram, fields[|fields| - 1].1).Some?)
  {
    hide ParseBytes;
    var init := fields[..|fields| - 1];
    if Readable(ram, fields, resource) {
      assert forall i :: 0 <= i < |init| ==> init[i] == fields[i];
    }
  }

  lemma CountIsFree(n: int, c: char)
    requires c == ':' || c == '+' || c == '='
    ensures c !in FormatInt(n)
  {
    hide FormatInt;
  }

  lemma FieldsAdd(ram: HumanUnits, fields: seq<(string, string)>, resource: string, n: int)
    requires WellWritten(Chunk(0, fields)) && fields != []
    ensures Inner(ram, Split(Join(FieldTexts(fields), ':'), ':'), resource, n)
         == if Readable(ram, fields, resource) then Some(Times(n, ValueSum(ram, fields, resource))) else None
  {
    SplitFields(fields);
    hide Split, Join, FieldTexts, Inner, ValueSum, Times, WellWritten, Readable;
    InnerOfFields(ram, fields, resource, n);
  }

  /** A chunk with fields sets its count and adds that many times its values; it fails where one cannot be read. */
  lemma CountedChunk(ram: HumanUnits, c: Chunk, resource: string, s: State)
    requires WellWritten(c) && c.fields != []
    ensures SelectChunk(ram, ChunkText(c), resource, s)
         == if Readable(ram, c.fields, resource)
            then Some(State(s.total + Times(c.count, ValueSum(ram, c.fields, resource)), c.count))
            else None
  {
    CountIsFree(c.count, ':');
    FieldsAdd(ram, c.fields, resource, c.count);
    JoinCons(FormatInt(c.count), FieldTexts(c.fields), ':');
    CutAt(FormatInt(c.count), Join(FieldTexts(c.fields), ':'), ':');
    ParseFormatInt(c.count);
    hide ParseInt, FormatInt, Inner, ValueSum, Split, Join, Times, Readable, Cut;
  }

  /** A chunk that is a bare count adds nothing, and does not even set the count. */
  lemma BareCount(ram: HumanUnits, n: Int64, resource: string, s: State)
    ensures SelectChunk(ram, ChunkText(Chunk(n, [])), resource, s) == Some(s)
  {
    CountIsFree(n, ':');
    CutNone(FormatInt(n), ':');
    assert [FormatInt(n)] + FieldTexts([]) == [FormatInt(n)];
    assert [""][..0] == [];
    assert Inner(ram, [], resource, s.nchunks) == Some(0);
  }

  /** A chunk whose count is no number keeps the count in force and adds that many times its values. */
  lemma UncountedChunk(ram: HumanUnits, noCount: string, fields: seq<(string, string)>, resource: string, s: State)
    requires WellWritten(Chunk(0, fields)) && fields != []
    requires ':' !in noCount && !ParseInt(noCount).Num?
    ensures SelectChunk(ram, Join([noCount] + FieldTexts(fields), ':'), resource, s)
         == if Readable(ram, fields, resource)
            then Some(State(s.total + Times(s.nchunks, ValueSum(ram, fields, resource)), s.nchunks))
            else None
  {
    FieldsAdd(ram, fields, resource, s.nchunks);
    JoinCons(noCount, FieldTexts(fields), ':');
    CutAt(noCount, Join(FieldTexts(fields), ':'), ':');
    hide WellWritten, FieldTexts, Join, Split, Inner, ValueSum, Times, ParseInt, Readable, Cut;
  }

  /** A chunk whose count is no number takes the count of the chunk before it. */
  lemma PreviousCountKept(
    ram: HumanUnits, c: Chunk, noCount: string, fields: seq<(string, string)>, resource: string, s: State)
    requires WellWritten(c) && WellWritten(Chunk(0, fields)) && c.fields != [] && fields != []
    requires ':' !in noCount && !ParseInt(noCount).Num?
    ensures SelectChunks(ram, [ChunkText(c), Join([noCount] + FieldTexts(fields), ':')], resource, s)
         == if Readable(ram, c.fields, resource) && Readable(ram, fields, resource)
            then Some(State(s.total + Times(c.count, ValueSum(ram, c.fields, resource))
                            + Times(c.count, ValueSum(ram, fields, resource)), c.count))
            else None
  {
    hide WellWritten, Readable, ValueSum, ChunkText, FieldTexts, Join, ParseInt, Times, SelectChunk, SelectChunks;
    var uncounted := Join([noCount] + FieldTexts(fields), ':');
    var mid := State(s.total + Times(c.count, ValueSum(ram, c.fields, resource)), c.count);
    CountedChunk(ram, c, resource, s);
    UncountedChunk(ram, noCount, fields, resource, mid);
    OneThenOther(ram, ChunkText(c), uncounted, resource, s);
  }

  lemma OneThenOther(ram: HumanUnits, a: string, b: string, resource: string, s: State)
    ensures SelectChunks(ram, [a, b], resource, s)
         == var mid := SelectChunk(ram, a, resource, s);
            if mid.None? then None else SelectChunk(ram, b, resource, mid.value)
  {
    hide SelectChunk;
    assert [a, b][..1] == [a] && [a][..0] == [];
    assert SelectChunks(ram, [], resource, s) == Some(s);
    assert SelectChunks(ram, [a], resource, s) == SelectChunk(ram, a, resource, s);
  }

  // ---- whole statements ----

  /** Parsing a printed chunk adds its count times its values. */
  lemma SelectPrintedChunk(ram: HumanUnits, c: Chunk, resource: string, s: State)
    requires WellWritten(c)
    ensures var r := SelectChunk(ram, ChunkText(c), resource, s);
            && (r.Some? <==> Readable(ram, c.fields, resource))
            && (r.Some? ==> r.value.total == s.total + Times(c.count, ValueSum(ram, c.fields, resource)))
  {
    hide SelectChunk, ChunkText, WellWritten, Times;
    if c.fields == [] {
      BareCount(ram, c.count, resource, s);
      Distribute(c.count, 0, 0);
    } else {
      CountedChunk(ram, c, resource, s);
    }
  }

  lemma {:induction false} SelectPrintedChunks(ram: HumanUnits, cs: seq<Chunk>, resource: string)
    requires forall i :: 0 <= i < |cs| ==> WellWritten(cs[i])
    ensures var r := SelectChunks(ram, ChunkTexts(cs), resource, State(0, 0));
            && (r.Some? <==> AllReadable(ram, cs, resource))
            && (r.Some? ==> r.value.total == Asked(ram, cs, resource))
    decreases |cs|
  {
    hide SelectChunk, WellWritten, ChunkText, ValueSum, Times, Readable;
    if cs == [] {
    } else {
      var n := |cs| - 1;
      SelectPrintedChunks(ram, cs[..n], resource);
      assert ChunkTexts(cs)[..n] == ChunkTexts(cs[..n]);
      AllReadableMore(ram, cs, resource);
      var before := SelectChunks(ram, ChunkTexts(cs[..n]), resource, State(0, 0));
      if before.Some? {
        SelectPrintedChunk(ram, cs[n], resource, before.value);
      }
    }
  }

  lemma AllReadableMore(ram: HumanUnits, cs: seq<Chunk>, resource: string)
    requires cs != []
    ensures AllReadable(ram, cs, resource)
       <==> AllReadable(ram, cs[..|cs| - 1], resource) && Readable(ram, cs[|cs| - 1].fields, resource)
  {
    hide Readable;
    var init := cs[..|cs| - 1];
    if AllReadable(ram, cs, resource) {
      assert forall i :: 0 <= i < |init| ==> init[i] == cs[i];
    }
  }

  /**
   The total of a printed statement is the sum over its chunks of count times values; it fails
   exactly when some value given for the resource cannot be read.
   */
  lemma PrintedTotal(ram: HumanUnits, cs: seq<Chunk>, resource: string)
    requires AllWellWritten(cs)
    ensures SelectTotal(ram, TextOf(cs), resource)
         == if AllReadable(ram, cs, resource) then Some(Wrap64(Asked(ram, cs, resource))) else None
  {
    forall part | part in ChunkTexts(cs) ensures '+' !in part {
      var i :| 0 <= i < |cs| && ChunkTexts(cs)[i] == part;
      ChunkHasNoPlus(cs[i]);
    }
    SplitJoin(ChunkTexts(cs), '+');
    hide SelectChunks, Asked, Join, Split, WellWritten, AllReadable;
    SelectPrintedChunks(ram, cs, resource);
  }

  lemma ChunkHasNoPlus(c: Chunk)
    requires WellWritten(c)
    ensures '+' !in ChunkText(c)
  {
    var parts := [FormatInt(c.count)] + FieldTexts(c.fields);
    forall i | 0 <= i < |parts| ensures Avoids(parts[i], {'+'}) {
      if i == 0 {
        CountIsFree(c.count, '+');
      } else {
        FieldAvoids(c.fields[i - 1], '+');
      }
    }
    JoinAvoids(parts, ':', {'+'});
  }

  // ---- what does not matter ----

  /** The fields about one resource, in order. */
  function About(fields: seq<(string, string)>, resource: string): seq<(string, string)> {
    if fields == [] then []
    else
      About(fields[..|fields| - 1], resource)
      + (if fields[|fields| - 1].0 == resource then [fields[|fields| - 1]] else [])
  }

  lemma {:induction false} AboutDecides(ram: HumanUnits, fields: seq<(string, string)>, resource: string)
    ensures ValueSum(ram, fields, resource) == ValueSum(ram, About(fields, resource), resource)
    ensures Readable(ram, fields, resource) <==> Readable(ram, About(fields, resource), resource)
  {
    hide ParseBytes, Readable;
    if fields == [] {
      assert About(fields, resource) == fields;
    } else {
      var init, last := fields[..|fields| - 1], fields[|fields| - 1];
      AboutDecides(ram, init, resource);
      ReadableMore(ram, fields, resource);
      if last.0 == resource {
        AboutMore(ram, About(init, resource), last, resource);
      } else {
        assert About(fields, resource) == About(init, resource);
      }
    }
  }

  lemma AboutMore(ram: HumanUnits, before: seq<(string, string)>, last: (string, string), resource: string)
    requires last.0 == resource
    ensures var value := ParseBytes(ram, last.1);
            && (Readable(ram, before + [last], resource) <==> Readable(ram, before, resource) && value.Some?)
            && ValueSum(ram, before + [last], resource)
               == ValueSum(ram, before, resource) + (if value.Some? then value.value else 0)
  {
    hide ParseBytes, Readable;
    var about := before + [last];
    assert about[..|about| - 1] == before && about[|about| - 1] == last;
    ReadableMore(ram, about, resource);
  }

  /**
   Fields about other resources can be inserted, dropped or changed, and their values need not
   be numbers: only counts and the fields about the resource decide its total.
   */
  lemma OtherResourcesIgnored(ram: HumanUnits, a: seq<Chunk>, b: seq<Chunk>, resource: string)
    requires AllWellWritten(a) && AllWellWritten(b) && |a| == |b|
    requires forall i :: 0 <= i < |a| ==>
                           a[i].count == b[i].count && About(a[i].fields, resource) == About(b[i].fields, resource)
    ensures SelectTotal(ram, TextOf(a), resource) == SelectTotal(ram, TextOf(b), resource)
  {
    PrintedTotal(ram, a, resource);
    PrintedTotal(ram, b, resource);
    hide SelectTotal, TextOf, About, ValueSum, Readable, Times, AllWellWritten;
    forall i | 0 <= i < |a|
      ensures ValueSum(ram, a[i].fields, resource) == ValueSum(ram, b[i].fields, resource)
      ensures Readable(ram, a[i].fields, resource) == Readable(ram, b[i].fields, resource)
    {
      AboutDecides(ram, a[i].fields, resource);
      AboutDecides(ram, b[i].fields, resource);
    }
    SameAsked(ram, a, b, resource);
  }

  lemma {:induction false} SameAsked(ram: HumanUnits, a: seq<Chunk>, b: seq<Chunk>, resource: string)
    requires |a| == |b|
    requires forall i :: 0 <= i < |a| ==> AskedOf(ram, resource)(a[i]) == AskedOf(ram, resource)(b[i])
    ensures Asked(ram, a, resource) == Asked(ram, b, resource)
    decreases |a|
  {
    hide ValueSum, Times;
    if a == [] {
    } else {
      SameAsked(ram, a[..|a| - 1], b[..|b| - 1], resource);
    }
  }

  lemma AskedUnordered(ram: HumanUnits, a: seq<Chunk>, b: seq<Chunk>, resource: string)
    requires multiset(a) == multiset(b)
    ensures Asked(ram, a, resource) == Asked(ram, b, resource)
  {
    SumUnordered(a, b, AskedOf(ram, resource));
  }

  /** The order of the chunks does not matter. */
  lemma ChunksUnordered(ram: HumanUnits, a: seq<Chunk>, b: seq<Chunk>, resource: string)
    requires AllWellWritten(a) && multiset(a) == multiset(b)
    ensures SelectTotal(ram, TextOf(a), resource) == SelectTotal(ram, TextOf(b), resource)
  {
    hide SelectTotal, TextOf, Asked, Readable, WellWritten;
    assert |multiset(a)| == |a| && |multiset(b)| == |b|;
    forall i | 0 <= i < |b| ensures WellWritten(b[i]) {
      var k := Elsewhere(b, a, i);
    }
    PrintedTotal(ram, a, resource);
    PrintedTotal(ram, b, resource);
    AskedUnordered(ram, a, b, resource);
    ReadableUnordered(ram, a, b, resource);
    ReadableUnordered(ram, b, a, resource);
  }

  lemma ReadableUnordered(ram: HumanUnits, a: seq<Chunk>, b: seq<Chunk>, resource: string)
    requires multiset(a) == multiset(b)
    ensures AllReadable(ram, a, resource) ==> AllReadable(ram, b, resource)
  {
    hide Readable;
    forall i | 0 <= i < |b| ensures AllReadable(ram, a, resource) ==> Readable(ram, b[i].fields, resource) {
      var k := Elsewhere(b, a, i);
    }
  }

  // ---- statements that do not just add up ----

  lemma OneChunk(ram: HumanUnits, chunk: string, resource: string)
    requires '+' !in chunk && SelectChunk(ram, chunk, resource, State(0, 0)).Some?
    ensures SelectTotal(ram, chunk, resource)
         == Some(Wrap64(SelectChunk(ram, chunk, resource, State(0, 0)).value.total))
  {
    SplitNoSep(chunk, '+');
    hide SelectChunk, Split, Wrap64;
    assert [chunk][..0] == [] && SelectChunks(ram, [], resource, State(0, 0)) == Some(State(0, 0));
  }

  lemma TwoChunks(ram: HumanUnits, a: string, b: string, resource: string)
    requires '+' !in a && '+' !in b && SelectChunks(ram, [a, b], resource, State(0, 0)).Some?
    ensures SelectTotal(ram, a + ['+'] + b, resource)
         == Some(Wrap64(SelectChunks(ram, [a, b], resource, State(0, 0)).value.total))
  {
    SplitNoSep(a, '+');
    SplitNoSep(b, '+');
    SplitAppend(a, b, '+');
    hide SelectChunks, Split, Wrap64;
    assert [a] + [b] == [a, b];
  }

  const NCPUS_ONE: seq<(string, string)> := [("ncpus", "1")]

  lemma ExampleFields(ram: HumanUnits)
    ensures WellWritten(Chunk(0, NCPUS_ONE)) && WellWritten(Chunk(2, NCPUS_ONE))
    ensures Readable(ram, NCPUS_ONE, "ncpus") && ValueSum(ram, NCPUS_ONE, "ncpus") == 1
  {
    ParseFormatInt(1);
    assert FormatInt(1) == "1" && ParseInt("1") == Num(1);
    assert ParseBytes(ram, "1") == Some(1);
    hide ParseBytes;
    assert NCPUS_ONE[..0] == [] && ValueSum(ram, [], "ncpus") == 0;
  }

  lemma ExampleTexts()
    ensures ChunkText(Chunk(2, NCPUS_ONE)) == "2:ncpus=1" && Join([""] + FieldTexts(NCPUS_ONE), ':') == ":ncpus=1"
    ensures "2:ncpus=1+:ncpus=1" == "2:ncpus=1" + ['+'] + ":ncpus=1"
    ensures '+' !in "2:ncpus=1" && '+' !in ":ncpus=1"
  {
    assert FormatInt(2) == "2";
    assert FieldText(("ncpus", "1")) == "ncpus=1";
    assert NCPUS_ONE[0] == ("ncpus", "1") && FieldTexts(NCPUS_ONE) == ["ncpus=1"];
    assert ["2"] + ["ncpus=1"] == ["2", "ncpus=1"] && ["2", "ncpus=1"][1..] == ["ncpus=1"];
    assert [""] + ["ncpus=1"] == ["", "ncpus=1"] && ["", "ncpus=1"][1..] == ["ncpus=1"];
  }

  lemma ExampleCounted(ram: HumanUnits)
    ensures SelectChunk(ram, "2:ncpus=1", "ncpus", State(0, 0)) == Some(State(2, 2))
  {
    ExampleFields(ram);
    ExampleTexts();
    hide WellWritten, Readable, ValueSum, ChunkText, SelectChunk;
    CountedChunk(ram, Chunk(2, NCPUS_ONE), "ncpus", State(0, 0));
    assert Times(2, 1) == 2;
  }

  lemma ExampleUncounted(ram: HumanUnits, s: State)
    ensures SelectChunk(ram, ":ncpus=1", "ncpus", s) == Some(State(s.total + Times(s.nchunks, 1), s.nchunks))
  {
    hide WellWritten, Readable, ValueSum, SelectChunk, FieldTexts, FieldText, Join, Times, FormatInt, ChunkText;
    ExampleFields(ram);
    ExampleTexts();
    assert !ParseInt("").Num?;
    UncountedChunk(ram, "", NCPUS_ONE, "ncpus", s);
  }

  /**
   Additivity fails: "2:ncpus=1" asks for 2 and ":ncpus=1" for nothing, but together they ask
   for 4, because the second chunk has no count of its own.
   */
  lemma AdditivityFails(ram: HumanUnits)
    ensures SelectTotal(ram, "2:ncpus=1", "ncpus") == Some(2)
    ensures SelectTotal(ram, ":ncpus=1", "ncpus") == Some(0)
    ensures SelectTotal(ram, "2:ncpus=1+:ncpus=1", "ncpus") == Some(4)
  {
    ExampleCounted(ram);
    ExampleUncounted(ram, State(0, 0));
    ExampleUncounted(ram, State(2, 2));
    assert Times(0, 1) == 0 && Times(2, 1) == 2;
    assert Wrap64(2) == 2 && Wrap64(0) == 0 && Wrap64(4) == 4;
    ExampleTexts();
    OneThenOther(ram, "2:ncpus=1", ":ncpus=1", "ncpus", State(0, 0));
    hide *;
    OneChunk(ram, "2:ncpus=1", "ncpus");
    OneChunk(ram, ":ncpus=1", "ncpus");
    TwoChunks(ram, "2:ncpus=1", ":ncpus=1", "ncpus");
  }

  // ---- chunks of four resources, spelled out ----

  /** What one chunk asks, as texts. */
  datatype Order = Order(count: Int64, ncpus: string, ngpus: string, mem: string, nfpgas: string)

  predicate WellOrdered(o: Order) {
    && Avoids(o.ncpus, {':', '+'}) && Avoids(o.ngpus, {':', '+'})
    && Avoids(o.mem, {':', '+'}) && Avoids(o.nfpgas, {':', '+'})
  }

  function OrderText(o: Order): string {
    FormatInt(o.count) + ":ncpus=" + o.ncpus + ":ngpus=" + o.ngpus + ":mem=" + o.mem + ":nfpgas=" + o.nfpgas
  }

  function OrderFields(o: Order): seq<(string, string)> {
    [("ncpus", o.ncpus), ("ngpus", o.ngpus), ("mem", o.mem), ("nfpgas", o.nfpgas)]
  }

  function OrderChunk(o: Order): Chunk { Chunk(o.count, OrderFields(o)) }

  lemma OrderIsWritten(o: Order)
    requires WellOrdered(o)
    ensures WellWritten(OrderChunk(o))
  {
    assert Avoids("ncpus", {':', '=', '+'}) && Avoids("mem", {':', '=', '+'});
    assert Avoids("ngpus", {':', '=', '+'}) && Avoids("nfpgas", {':', '=', '+'});
  }

  lemma OrderTextIs(o: Order)
    ensures ChunkText(OrderChunk(o)) == OrderText(o)
  {
    var fields, count := OrderFields(o), FormatInt(o.count);
    hide FormatInt;
    var parts := [count] + FieldTexts(fields);
    assert parts == [count, FieldText(fields[0]), FieldText(fields[1]), FieldText(fields[2]), FieldText(fields[3])];
    JoinFive(parts[0], parts[1], parts[2], parts[3], parts[4], ':');
    FieldIs("ncpus", o.ncpus, ":ncpus=");
    FieldIs("ngpus", o.ngpus, ":ngpus=");
    FieldIs("mem", o.mem, ":mem=");
    FieldIs("nfpgas", o.nfpgas, ":nfpgas=");
    hide Join, FieldText;
    FourFields(count, ":ncpus=", ":ngpus=", ":mem=", ":nfpgas=", o.ncpus, o.ngpus, o.mem, o.nfpgas);
  }

  /** The text an order gives for one of the four resources. */
  function OrderValue(o: Order, resource: string): string {
    if resource == "ncpus" then o.ncpus
    else if resource == "ngpus" then o.ngpus
    else if resource == "mem" then o.mem
    else o.nfpgas
  }

  lemma OrderSums(ram: HumanUnits, o: Order, resource: string)
    requires resource in {"ncpus", "ngpus", "mem", "nfpgas"}
    ensures var value := ParseBytes(ram, OrderValue(o, resource));
            && (Readable(ram, OrderFields(o), resource) <==> value.Some?)
            && (value.Some? ==> ValueSum(ram, OrderFields(o), resource) == value.value)
  {
    hide ParseBytes;
    var a, b, c, d := ("ncpus", o.ncpus), ("ngpus", o.ngpus), ("mem", o.mem), ("nfpgas", o.nfpgas);
    SumsMore(ram, [], a, resource);
    SumsMore(ram, [a], b, resource);
    SumsMore(ram, [a, b], c, resource);
    SumsMore(ram, [a, b, c], d, resource);
    assert ValueSum(ram, [], resource) == 0 && Readable(ram, [], resource);
    hide ValueSum, Readable;
    assert [] + [a] == [a] && [a] + [b] == [a, b] && [a, b] + [c] == [a, b, c] && [a, b, c] + [d] == OrderFields(o);
    assert "ncpus" != "mem" && "ncpus" != "ngpus" && "ncpus" != "nfpgas";
    assert "mem" != "ngpus" && "mem" != "nfpgas" && "ngpus" != "nfpgas";
  }

  lemma SumsMore(ram: HumanUnits, before: seq<(string, string)>, last: (string, string), resource: string)
    ensures var value, more := ParseBytes(ram, last.1), before + [last];
            && (Readable(ram, more, resource)
                <==> Readable(ram, before, resource) && (last.0 == resource ==> value.Some?))
            && ValueSum(ram, more, resource)
               == ValueSum(ram, before, resource) + (if last.0 == resource && value.Some? then value.value else 0)
  {
    hide ParseBytes, Readable;
    var more := before + [last];
    assert more[..|more| - 1] == before && more[|more| - 1] == last;
    ReadableMore(ram, more, resource);
  }

  /** What an order's chunk gives for a resource: the value of its text, if it has one. */
  ghost predicate Gives(ram: HumanUnits, c: Chunk, resource: string, count: int, value: Option<int>) {
    && WellWritten(c) && c.count == count
    && (Readable(ram, c.fields, resource) <==> value.Some?)
    && (value.Some? ==> ValueSum(ram, c.fields, resource) == value.value)
  }

  lemma OrderGives(ram: HumanUnits, o: Order, resource: string)
    requires WellOrdered(o) && resource in {"ncpus", "ngpus", "mem", "nfpgas"}
    ensures Gives(ram, OrderChunk(o), resource, o.count, ParseBytes(ram, OrderValue(o, resource)))
  {
    OrderIsWritten(o);
    OrderSums(ram, o, resource);
    hide WellWritten, Readable, ValueSum, ParseBytes, OrderValue, OrderFields;
  }

  lemma OneGiven(ram: HumanUnits, c: Chunk, resource: string, m: int, x: Option<int>)
    requires Gives(ram, c, resource, m, x)
    ensures SelectTotal(ram, TextOf([c]), resource) == if x.Some? then Some(Wrap64(m * x.value)) else None
  {
    hide WellWritten, Readable, ValueSum, SelectTotal, TextOf, Asked, Wrap64;
    PrintedTotal(ram, [c], resource);
    AskedOne(ram, c, resource);
    assert AllReadable(ram, [c], resource) <==> Readable(ram, [c][0].fields, resource);
  }

  lemma TwoReadable(ram: HumanUnits, c: Chunk, d: Chunk, resource: string)
    ensures AllReadable(ram, [c, d], resource)
       <==> Readable(ram, c.fields, resource) && Readable(ram, d.fields, resource)
  {
    hide Readable;
    var cs := [c, d];
    assert cs[0] == c && cs[1] == d;
  }

  lemma TwoGiven(
    ram: HumanUnits, c: Chunk, d: Chunk, resource: string, m: int, n: int, x: Option<int>, y: Option<int>)
    requires Gives(ram, c, resource, m, x) && Gives(ram, d, resource, n, y)
    ensures SelectTotal(ram, TextOf([c, d]), resource)
         == if x.Some? && y.Some? then Some(Wrap64(m * x.value + n * y.value)) else None
  {
    TwoReadable(ram, c, d, resource);
    hide WellWritten, Readable, ValueSum, SelectTotal, TextOf, Asked, Wrap64, AllReadable;
    PrintedTotal(ram, [c, d], resource);
    AskedTwo(ram, c, d, resource);
  }

  /** A statement of one order totals its count times the value, or fails where the value cannot be read. */
  lemma OneOrder(ram: HumanUnits, o: Order, resource: string)
    requires WellOrdered(o) && resource in {"ncpus", "ngpus", "mem", "nfpgas"}
    ensures var value := ParseBytes(ram, OrderValue(o, resource));
            SelectTotal(ram, OrderText(o), resource)
            == if value.Some? then Some(Wrap64(o.count * value.value)) else None
  {
    hide *;
    OrderGives(ram, o, resource);
    OneText(o);
    OneGiven(ram, OrderChunk(o), resource, o.count, ParseBytes(ram, OrderValue(o, resource)));
  }

  lemma OneText(o: Order)
    ensures TextOf([OrderChunk(o)]) == OrderText(o)
  {
    OrderTextIs(o);
    hide OrderText, OrderChunk, ChunkText, Join;
    JoinOne(OrderText(o), '+');
    assert ChunkTexts([OrderChunk(o)]) == [OrderText(o)];
  }

  lemma AskedOne(ram: HumanUnits, c: Chunk, resource: string)
    ensures Asked(ram, [c], resource) == c.count * ValueSum(ram, c.fields, resource)
  {
    hide ValueSum;
    var f := AskedOf(ram, resource);
    assert [c][..0] == [] && SumBy([], f) == 0;
    assert SumBy([c], f) == f(c);
  }

  lemma AskedTwo(ram: HumanUnits, c: Chunk, d: Chunk, resource: string)
    ensures Asked(ram, [c, d], resource)
         == c.count * ValueSum(ram, c.fields, resource) + d.count * ValueSum(ram, d.fields, resource)
  {
    AskedOne(ram, c, resource);
    hide ValueSum;
    var f := AskedOf(ram, resource);
    assert [c, d][..1] == [c];
    assert SumBy([c, d], f) == SumBy([c], f) + f(d);
  }

  lemma TwoTexts(a: Order, b: Order)
    ensures TextOf([OrderChunk(a), OrderChunk(b)]) == OrderText(a) + "+" + OrderText(b)
  {
    OrderTextIs(a);
    OrderTextIs(b);
    hide OrderText, OrderChunk, ChunkText, Join;
    JoinOne(OrderText(b), '+');
    JoinMore(OrderText(a), [OrderText(b)], '+', OrderText(b));
    assert ChunkTexts([OrderChunk(a), OrderChunk(b)]) == [OrderText(a)] + [OrderText(b)];
    assert ['+'] + OrderText(b) == "+" + OrderText(b);
    assert OrderText(a) + ("+" + OrderText(b)) == OrderText(a) + "+" + OrderText(b);
  }

  /** Two orders add up, each with its own count. */
  lemma TwoOrders(ram: HumanUnits, a: Order, b: Order, resource: string)
    requires WellOrdered(a) && WellOrdered(b) && resource in {"ncpus", "ngpus", "mem", "nfpgas"}
    ensures var x, y := ParseBytes(ram, OrderValue(a, resource)), ParseBytes(ram, OrderValue(b, resource));
            SelectTotal(ram, OrderText(a) + "+" + OrderText(b), resource)
            == if x.Some? && y.Some? then Some(Wrap64(a.count * x.value + b.count * y.value)) else None
  {
    hide *;
    OrderGives(ram, a, resource);
    OrderGives(ram, b, resource);
    TwoTexts(a, b);
    TwoGiven(ram, OrderChunk(a), OrderChunk(b), resource, a.count, b.count,
             ParseBytes(ram, OrderValue(a, resource)), ParseBytes(ram, OrderValue(b, resource)));
  }
}
