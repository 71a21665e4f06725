/** Printed `exec_vnode` texts: what `ParseExecVnode` makes of them, however they are bracketed. */
module ExecVnodesPrinted {
  import opened Wrappers
  import opened GoStrings
  import opened Strconv
  import opened Utils
  import opened ExecVnodes
  import opened Fields

  /** A chunk as PBS writes it: host[index] and its resources, with or without a bracket at either end. */
  datatype Written = Written(vnode: Vnode, fields: seq<(string, string)>, opening: bool, closing: bool)

  predicate WellWritten(w: Written) {
    && w.vnode.node != "" && (forall i :: 0 <= i < |w.vnode.node| ==> IsNameChar(w.vnode.node[i]))
    && w.vnode.vnode != "" && (forall i :: 0 <= i < |w.vnode.vnode| ==> IsDigit(w.vnode.vnode[i]))
    && forall i :: 0 <= i < |w.fields| ==>
         Avoids(w.fields[i].0, {':', '=', '+'}) && Avoids(w.fields[i].1, {':', '+', ')'})
  }

  function Host(v: Vnode): string { v.node + "[" + v.vnode + "]" }

  function Core(w: Written): string {
    Join([Host(w.vnode)] + FieldTexts(w.fields), ':')
  }

  function WrittenText(w: Written): string {
    (if w.opening then "(" else "") + Core(w) + (if w.closing then ")" else "")
  }

  function WrittenTexts(ws: seq<Written>): (texts: seq<string>)
    ensures |texts| == |ws| && forall i :: 0 <= i < |texts| ==> texts[i] == WrittenText(ws[i])
  {
    seq(|ws|, i requires 0 <= i < |ws| => WrittenText(ws[i]))
  }

  function TextOf(ws: seq<Written>): string {
    Join(WrittenTexts(ws), '+')
  }

  predicate AllWellWritten(ws: seq<Written>) {
    ws != [] && forall i :: 0 <= i < |ws| ==> WellWritten(ws[i])
  }

  /** The last readable value given for a resource, or zero. */
  function FieldValue(ram: HumanUnits, fields: seq<(string, string)>, key: string): Int64 {
    if fields == [] then 0
    else
      var (k, text) := fields[|fields| - 1];
      if k == key && ParseBytes(ram, text).Some? then ParseBytes(ram, text).value
      else FieldValue(ram, fields[..|fields| - 1], key)
  }

  function ResourceName(r: Resource): (s: string)
    ensures s != ""
  {
    match r
    case Mem => "mem"
    case Ncpus => "ncpus"
    case Nfpgas => "nfpgas"
    case Ngpus => "ngpus"
  }

  // ---- one chunk ----

  lemma HostAvoids(v: Vnode, c: char)
    requires forall i :: 0 <= i < |v.node| ==> IsNameChar(v.node[i])
    requires forall i :: 0 <= i < |v.vnode| ==> IsDigit(v.vnode[i])
    requires !IsNameChar(c) && c != '[' && c != ']'
    ensures Avoids(Host(v), {c})
  {
    assert forall d :: IsDigit(d) ==> IsNameChar(d);
  }

  /** A character no part holds and no separator is occurs nowhere in a chunk. */
  lemma CoreAvoids(w: Written, c: char)
    requires WellWritten(w) && c == '+'
    ensures Avoids(Core(w), {c})
  {
    var parts := [Host(w.vnode)] + FieldTexts(w.fields);
    forall i | 0 <= i < |parts| ensures Avoids(parts[i], {c}) {
      if i == 0 {
        HostAvoids(w.vnode, c);
      } else {
        FieldAvoids(w.fields[i - 1], c);
      }
    }
    JoinAvoids(parts, ':', {c});
  }

  lemma {:induction false} JoinEnds(parts: seq<string>, sep: char)
    requires parts != [] && parts[0] != "" && parts[|parts| - 1] != ""
    ensures var s := Join(parts, sep);
            && s != "" && s[0] == parts[0][0]
            && s[|s| - 1] == parts[|parts| - 1][|parts[|parts| - 1]| - 1]
  {
    if |parts| > 1 {
      JoinLast(parts, sep);
    }
  }

  lemma {:induction false} JoinLast(parts: seq<string>, sep: char)
    requires parts != [] && parts[|parts| - 1] != ""
    ensures var s := Join(parts, sep);
            s != "" && s[|s| - 1] == parts[|parts| - 1][|parts[|parts| - 1]| - 1]
  {
    if |parts| > 1 {
      JoinLast(parts[1..], sep);
    }
  }

  lemma LastOfText(f: (string, string))
    requires Avoids(f.1, {':', '+', ')'})
    ensures FieldText(f) != "" && FieldText(f)[|FieldText(f)| - 1] != ')'
  {
  }

  /** Brackets are taken off. */
  lemma UnbracketedCore(w: Written)
    requires WellWritten(w)
    ensures Unbracketed(WrittenText(w)) == Core(w)
  {
    var parts := [Host(w.vnode)] + FieldTexts(w.fields);
    if w.fields != [] {
      LastOfText(w.fields[|w.fields| - 1]);
    }
    JoinEnds(parts, ':');
    assert IsNameChar(w.vnode.node[0]) && Host(w.vnode)[0] == w.vnode.node[0];
    BracketsOff(w.opening, Core(w), w.closing);
  }

  lemma BracketsOff(opening: bool, core: string, closing: bool)
    requires core != "" && core[0] != '(' && core[|core| - 1] != ')'
    ensures Unbracketed((if opening then "(" else "") + core + (if closing then ")" else "")) == core
  {
    var tail := core + (if closing then ")" else "");
    var s := (if opening then "(" else "") + core + (if closing then ")" else "");
    assert s == (if opening then "(" else "") + tail;
    if opening {
      assert s[1..] == tail;
    } else {
      assert s == tail && s[0] == core[0];
    }
    assert CutPrefix(s, "(") == tail;
    assert tail[..|core|] == core;
  }

  lemma CutCore(w: Written)
    requires WellWritten(w)
    ensures Cut(Core(w), ':').0 == Host(w.vnode)
    ensures Cut(Core(w), ':').1 == Join(FieldTexts(w.fields), ':')
  {
    HostAvoids(w.vnode, ':');
    assert ':' !in Host(w.vnode);
    var parts := [Host(w.vnode)] + FieldTexts(w.fields);
    if w.fields == [] {
      CutNone(Host(w.vnode), ':');
      assert parts == [Host(w.vnode)];
    } else {
      assert parts[1..] == FieldTexts(w.fields);
      CutAt(Host(w.vnode), Join(FieldTexts(w.fields), ':'), ':');
    }
  }

  lemma {:induction false} ResourcesOfFields(ram: HumanUnits, fields: seq<(string, string)>, key: string)
    requires forall i :: 0 <= i < |fields| ==> Avoids(fields[i].0, {':', '=', '+'})
    ensures Get(Resources(ram, FieldTexts(fields)), key) == FieldValue(ram, fields, key)
    decreases |fields|
  {
    hide ParseBytes, Cut;
    if fields == [] {
    } else {
      var n := |fields| - 1;
      ResourcesOfFields(ram, fields[..n], key);
      assert FieldTexts(fields)[..n] == FieldTexts(fields[..n]);
      CutAt(fields[n].0, fields[n].1, '=');
    }
  }

  lemma BareChunk(ram: HumanUnits, w: Written)
    requires WellWritten(w)
    ensures ParseChunk(ram, WrittenText(w)) == ParseChunk(ram, Core(w)) == ParseInner(ram, Core(w))
  {
    var bare := w.(opening := false, closing := false);
    assert WrittenText(bare) == Core(bare) == Core(w);
    UnbracketedCore(w);
    UnbracketedCore(bare);
    hide ParseInner, WrittenText, Core, Unbracketed;
  }

  lemma ParseInnerCore(ram: HumanUnits, w: Written)
    requires WellWritten(w)
    ensures ParseInner(ram, Core(w))
         == Some(Chunk(w.vnode, Resources(ram, Split(Join(FieldTexts(w.fields), ':'), ':'))))
  {
    CutCore(w);
    FindHost(w);
    hide Core, FindVnode, Cut, Host, Resources, Split, Join;
  }

  /** A written chunk parses to its vnode and its values, whatever its brackets. */
  lemma ParseWritten(ram: HumanUnits, w: Written)
    requires WellWritten(w)
    ensures ParseChunk(ram, WrittenText(w)).Some?
    ensures ParseChunk(ram, WrittenText(w)).value.vnode == w.vnode
    ensures forall r :: Asked(ParseChunk(ram, WrittenText(w)).value, r) == FieldValue(ram, w.fields, ResourceName(r))
    ensures ParseChunk(ram, WrittenText(w)) == ParseChunk(ram, Core(w))
  {
    hide WellWritten, WrittenText, Core, ParseChunk, ParseInner, Resources, Split, Join, FieldValue;
    BareChunk(ram, w);
    ParseInnerCore(ram, w);
    forall r ensures Asked(ParseChunk(ram, WrittenText(w)).value, r) == FieldValue(ram, w.fields, ResourceName(r)) {
      FieldsRead(ram, w, ResourceName(r));
    }
  }

  lemma FindHost(w: Written)
    requires WellWritten(w)
    ensures FindVnode(Host(w.vnode)) == Some(w.vnode)
  {
    MatchIsFound(Host(w.vnode), w.vnode);
  }

  lemma FieldsRead(ram: HumanUnits, w: Written, key: string)
    requires WellWritten(w) && key != ""
    ensures Get(Resources(ram, Split(Join(FieldTexts(w.fields), ':'), ':')), key) == FieldValue(ram, w.fields, key)
  {
    if w.fields == [] {
      assert [""][..0] == [];
      assert Resources(ram, []) == map[];
    } else {
      SplitFields(w.fields);
      ResourcesOfFields(ram, w.fields, key);
    }
  }

  // ---- whole texts ----

  lemma {:induction false} ParseAllWritten(ram: HumanUnits, ws: seq<Written>)
    requires forall i :: 0 <= i < |ws| ==> WellWritten(ws[i])
    ensures var r := ParseChunks(ram, WrittenTexts(ws));
            && r.Some?
            && forall i :: 0 <= i < |ws| ==> Some(r.value[i]) == ParseChunk(ram, Core(ws[i]))
    decreases |ws|
  {
    hide ParseChunk, WellWritten, WrittenText, Core;
    if ws == [] {
    } else {
      var n := |ws| - 1;
      ParseAllWritten(ram, ws[..n]);
      ParseWritten(ram, ws[n]);
      assert WrittenTexts(ws)[..n] == WrittenTexts(ws[..n]);
    }
  }

  lemma SplitText(ws: seq<Written>)
    requires AllWellWritten(ws)
    ensures Split(TextOf(ws), '+') == WrittenTexts(ws)
  {
    forall part | part in WrittenTexts(ws) ensures '+' !in part {
      var i :| 0 <= i < |ws| && WrittenTexts(ws)[i] == part;
      CoreAvoids(ws[i], '+');
    }
    SplitJoin(WrittenTexts(ws), '+');
  }

  /** Only the chunks count, not the brackets: "(A+B)" and "(A)+(B)" give the same map. */
  lemma BracketsDoNotMatter(ram: HumanUnits, a: seq<Written>, b: seq<Written>)
    requires AllWellWritten(a) && AllWellWritten(b) && |a| == |b|
    requires forall i :: 0 <= i < |a| ==> a[i].vnode == b[i].vnode && a[i].fields == b[i].fields
    ensures ExecVnodeMap(ram, TextOf(a)) == ExecVnodeMap(ram, TextOf(b))
  {
    SplitText(a);
    SplitText(b);
    SameChunks(ram, a, b);
    hide ParseChunks, TextOf, WrittenTexts, Split, AllWellWritten, Aggregate;
  }

  lemma SameChunks(ram: HumanUnits, a: seq<Written>, b: seq<Written>)
    requires AllWellWritten(a) && AllWellWritten(b) && |a| == |b|
    requires forall i :: 0 <= i < |a| ==> a[i].vnode == b[i].vnode && a[i].fields == b[i].fields
    ensures ParseChunks(ram, WrittenTexts(a)) == ParseChunks(ram, WrittenTexts(b))
  {
    hide WellWritten;
    ParseAllWritten(ram, a);
    ParseAllWritten(ram, b);
    hide ParseChunks, ParseChunk, WrittenTexts, WrittenText, Join, FieldTexts;
    var ca, cb := ParseChunks(ram, WrittenTexts(a)).value, ParseChunks(ram, WrittenTexts(b)).value;
    forall i | 0 <= i < |a| ensures ca[i] == cb[i] {
      SameCore(a[i], b[i]);
    }
    assert ca == cb;
  }

  lemma SameCore(a: Written, b: Written)
    requires a.vnode == b.vnode && a.fields == b.fields
    ensures Core(a) == Core(b)
  {
    hide Join, FieldTexts;
  }

  /** What the written chunks on one vnode give for a resource, added up. */
  function WrittenSum(ram: HumanUnits, ws: seq<Written>, v: Vnode, r: Resource): int {
    if ws == [] then 0
    else
      WrittenSum(ram, ws[..|ws| - 1], v, r)
      + (if ws[|ws| - 1].vnode == v then FieldValue(ram, ws[|ws| - 1].fields, ResourceName(r)) else 0)
  }

  lemma {:induction false} WrittenSumIs(ram: HumanUnits, ws: seq<Written>, chunks: seq<Chunk>, v: Vnode, r: Resource)
    requires |chunks| == |ws| && forall i :: 0 <= i < |ws| ==>
                                               chunks[i].vnode == ws[i].vnode
                                               && Asked(chunks[i], r) == FieldValue(ram, ws[i].fields, ResourceName(r))
    ensures SumOn(chunks, v, r) == WrittenSum(ram, ws, v, r)
    decreases |ws|
  {
    hide Asked, FieldValue;
    if ws == [] {
    } else {
      WrittenSumIs(ram, ws[..|ws| - 1], chunks[..|ws| - 1], v, r);
    }
  }

  /** The chunk is what the written chunk says. */
  ghost predicate Says(ram: HumanUnits, c: Chunk, w: Written) {
    c.vnode == w.vnode && forall r :: Asked(c, r) == FieldValue(ram, w.fields, ResourceName(r))
  }

  lemma WrittenChunks(ram: HumanUnits, ws: seq<Written>) returns (chunks: seq<Chunk>)
    requires AllWellWritten(ws)
    ensures ExecVnodeMap(ram, TextOf(ws)) == Some(Aggregate(chunks)) && |chunks| == |ws|
    ensures forall i :: 0 <= i < |ws| ==> Says(ram, chunks[i], ws[i])
  {
    SplitText(ws);
    ParseAllWritten(ram, ws);
    hide ParseChunk, ParseChunks, TextOf, Split, Core, WrittenText, Asked, FieldValue, WellWritten;
    chunks := ParseChunks(ram, WrittenTexts(ws)).value;
    forall i | 0 <= i < |ws| ensures Says(ram, chunks[i], ws[i]) {
      ParseWritten(ram, ws[i]);
    }
  }

  /**
   A printed list of chunks parses; the map has exactly the vnodes written, and for each of
   them the sum of what its chunks give.
   */
  lemma PrintedAggregates(ram: HumanUnits, ws: seq<Written>, v: Vnode, r: Resource)
    requires AllWellWritten(ws)
    ensures ExecVnodeMap(ram, TextOf(ws)).Some?
    ensures var m := ExecVnodeMap(ram, TextOf(ws)).value;
            && (v in m <==> exists i :: 0 <= i < |ws| && ws[i].vnode == v)
            && Amount(Held(m, v), r) == Wrap64(WrittenSum(ram, ws, v, r))
  {
    var chunks := WrittenChunks(ram, ws);
    hide ExecVnodeMap, TextOf, WellWritten, Aggregate, Asked, FieldValue, Held, Amount, Wrap64, WrittenSum, SumOn;
    forall i | 0 <= i < |ws|
      ensures chunks[i].vnode == ws[i].vnode && Asked(chunks[i], r) == FieldValue(ram, ws[i].fields, ResourceName(r))
    {
      assert Says(ram, chunks[i], ws[i]);
    }
    WrittenSumIs(ram, ws, chunks, v, r);
    AggregateIsSum(chunks, v, r);
    assert forall i :: 0 <= i < |ws| ==> chunks[i].vnode == ws[i].vnode;
  }

  // ---- chunks of four resources, spelled out ----

  /** The characters of host names by their codes: letters, digits, underscore, dot and hyphen. */
  predicate InHostName(c: char) {
    var n := c as int;
    97 <= n <= 122 || 65 <= n <= 90 || 48 <= n <= 57 || n == 95 || n == 46 || n == 45
  }

  lemma NameChars(c: char)
    ensures IsNameChar(c) <==> InHostName(c)
  {
  }

  /** A vnode whose host is made of such characters, and whose index of digits. */
  predicate Named(v: Vnode) {
    && v.node != "" && (forall i :: 0 <= i < |v.node| ==> InHostName(v.node[i]))
    && v.vnode != "" && AllDigits(v.vnode)
  }

  /** What is asked on one vnode, as texts. */
  datatype Order = Order(vnode: Vnode, ncpus: string, mem: string, ngpus: string, nfpgas: string)

  predicate WellOrdered(o: Order) {
    && Named(o.vnode)
    && Avoids(o.ncpus, {':', '+', ')'}) && Avoids(o.mem, {':', '+', ')'})
    && Avoids(o.ngpus, {':', '+', ')'}) && Avoids(o.nfpgas, {':', '+', ')'})
  }

  function OrderText(o: Order): string {
    "(" + (o.vnode.node + "[" + o.vnode.vnode + "]" + ":ncpus=" + o.ncpus + ":mem=" + o.mem + ":ngpus=" + o.ngpus
           + ":nfpgas=" + o.nfpgas) + ")"
  }

  /** A value, or nothing where it cannot be read. */
  function Amounting(ram: HumanUnits, text: string): Int64 {
    match ParseBytes(ram, text)
    case Some(n) => n
    case None => 0
  }

  function OrderFields(o: Order): seq<(string, string)> {
    [("ncpus", o.ncpus), ("mem", o.mem), ("ngpus", o.ngpus), ("nfpgas", o.nfpgas)]
  }

  function OrderWritten(o: Order): Written {
    Written(o.vnode, OrderFields(o), true, true)
  }

  lemma OrderIsWritten(o: Order)
    requires WellOrdered(o)
    ensures WellWritten(OrderWritten(o))
  {
    var w := OrderWritten(o);
    forall i | 0 <= i < |w.vnode.node| ensures IsNameChar(w.vnode.node[i]) {
      NameChars(w.vnode.node[i]);
    }
    hide IsNameChar, InHostName;
    assert Avoids("ncpus", {':', '=', '+'}) && Avoids("mem", {':', '=', '+'});
    assert Avoids("ngpus", {':', '=', '+'}) && Avoids("nfpgas", {':', '=', '+'});
  }

  lemma OrderTextIs(o: Order)
    ensures WrittenText(OrderWritten(o)) == OrderText(o)
  {
    var fields := OrderFields(o);
    var parts := [Host(o.vnode)] + FieldTexts(fields);
    assert parts
        == [Host(o.vnode), FieldText(fields[0]), FieldText(fields[1]), FieldText(fields[2]), FieldText(fields[3])];
    JoinFive(parts[0], parts[1], parts[2], parts[3], parts[4], ':');
    FieldIs("ncpus", o.ncpus, ":ncpus=");
    FieldIs("mem", o.mem, ":mem=");
    FieldIs("ngpus", o.ngpus, ":ngpus=");
    FieldIs("nfpgas", o.nfpgas, ":nfpgas=");
    hide Join, FieldText;
    FourFields(Host(o.vnode), ":ncpus=", ":mem=", ":ngpus=", ":nfpgas=", o.ncpus, o.mem, o.ngpus, o.nfpgas);
  }

  lemma FieldValueSnoc(ram: HumanUnits, fields: seq<(string, string)>, k: string, text: string, key: string)
    ensures FieldValue(ram, fields + [(k, text)], key)
         == if k == key && ParseBytes(ram, text).Some? then ParseBytes(ram, text).value
            else FieldValue(ram, fields, key)
  {
    hide ParseBytes;
    assert (fields + [(k, text)])[..|fields|] == fields;
  }

  lemma OrderValues(ram: HumanUnits, o: Order, key: string)
    ensures FieldValue(ram, OrderFields(o), key)
         == if key == "ncpus" then Amounting(ram, o.ncpus)
            else if key == "mem" then Amounting(ram, o.mem)
            else if key == "ngpus" then Amounting(ram, o.ngpus)
            else if key == "nfpgas" then Amounting(ram, o.nfpgas)
            else 0
  {
    hide ParseBytes;
    var a, b, c, d := ("ncpus", o.ncpus), ("mem", o.mem), ("ngpus", o.ngpus), ("nfpgas", o.nfpgas);
    FieldValueSnoc(ram, [], a.0, a.1, key);
    FieldValueSnoc(ram, [a], b.0, b.1, key);
    FieldValueSnoc(ram, [a, b], c.0, c.1, key);
    FieldValueSnoc(ram, [a, b, c], d.0, d.1, key);
    assert FieldValue(ram, [], key) == 0;
    hide FieldValue;
    assert [] + [a] == [a] && [a] + [b] == [a, b] && [a, b] + [c] == [a, b, c] && [a, b, c] + [d] == OrderFields(o);
    assert "ncpus" != "mem" && "ncpus" != "ngpus" && "ncpus" != "nfpgas";
    assert "mem" != "ngpus" && "mem" != "nfpgas" && "ngpus" != "nfpgas";
  }

  /** The vnode's entry for one order. */
  function Ordered(ram: HumanUnits, o: Order): ExecVnode {
    ExecVnode(Amounting(ram, o.mem), Amounting(ram, o.ncpus), Amounting(ram, o.nfpgas), Amounting(ram, o.ngpus))
  }

  function Both(a: ExecVnode, b: ExecVnode): ExecVnode {
    ExecVnode(Wrap64(a.mem as int + b.mem), Wrap64(a.ncpus as int + b.ncpus),
              Wrap64(a.nfpgas as int + b.nfpgas), Wrap64(a.ngpus as int + b.ngpus))
  }

  lemma OrderAdds(ram: HumanUnits, o: Order, c: Chunk, before: ExecVnode)
    requires WellOrdered(o) && Says(ram, c, OrderWritten(o))
    ensures c.vnode == o.vnode && Plus(before, c.resources) == Both(before, Ordered(ram, o))
    ensures before == NOTHING ==> Plus(before, c.resources) == Ordered(ram, o)
  {
    OrderValues(ram, o, "mem");
    OrderValues(ram, o, "ncpus");
    OrderValues(ram, o, "nfpgas");
    OrderValues(ram, o, "ngpus");
    hide WellOrdered, FieldValue, Amounting, Wrap64, OrderFields;
    assert Asked(c, Mem) == FieldValue(ram, OrderFields(o), "mem");
    assert Asked(c, Ncpus) == FieldValue(ram, OrderFields(o), "ncpus");
    assert Asked(c, Nfpgas) == FieldValue(ram, OrderFields(o), "nfpgas");
    assert Asked(c, Ngpus) == FieldValue(ram, OrderFields(o), "ngpus");
  }

  /** One order gives its vnode what it asks for. */
  lemma OneOrder(ram: HumanUnits, o: Order)
    requires WellOrdered(o)
    ensures ExecVnodeMap(ram, OrderText(o)) == Some(map[o.vnode := Ordered(ram, o)])
  {
    hide ExecVnodeMap, WrittenText, WellWritten, Ordered, Plus, Aggregate, Says, OrderText;
    OrderIsWritten(o);
    OrderTextIs(o);
    var ws := [OrderWritten(o)];
    assert TextOf(ws) == OrderText(o);
    var chunks := WrittenChunks(ram, ws);
    OrderAdds(ram, o, chunks[0], NOTHING);
    AggregateOne(chunks[0]);
    assert chunks == [chunks[0]];
  }

  lemma AggregateOne(c: Chunk)
    ensures Aggregate([c]) == map[c.vnode := Plus(NOTHING, c.resources)]
  {
    hide Plus;
    assert [c][..0] == [] && Aggregate([]) == map[];
  }

  lemma AggregateTwo(a: Chunk, b: Chunk)
    ensures var first := Plus(NOTHING, a.resources);
            Aggregate([a, b])
            == if a.vnode == b.vnode then map[a.vnode := Plus(first, b.resources)]
               else map[a.vnode := first, b.vnode := Plus(NOTHING, b.resources)]
  {
    AggregateOne(a);
    hide Plus;
    assert [a, b][..1] == [a];
  }

  /** Two orders on one vnode add up; on two they stand side by side. */
  lemma TwoOrders(ram: HumanUnits, a: Order, b: Order)
    requires WellOrdered(a) && WellOrdered(b)
    ensures ExecVnodeMap(ram, OrderText(a) + "+" + OrderText(b))
         == Some(if a.vnode == b.vnode then map[a.vnode := Both(Ordered(ram, a), Ordered(ram, b))]
                 else map[a.vnode := Ordered(ram, a), b.vnode := Ordered(ram, b)])
  {
    hide ExecVnodeMap, WrittenText, WellWritten, Ordered, Plus, Aggregate, Says, OrderText, Both;
    OrderIsWritten(a);
    OrderTextIs(a);
    OrderIsWritten(b);
    OrderTextIs(b);
    var ws := [OrderWritten(a), OrderWritten(b)];
    JoinCons(OrderText(a), [OrderText(b)], '+');
    JoinOne(OrderText(b), '+');
    assert WrittenTexts(ws) == [OrderText(a)] + [OrderText(b)];
    assert TextOf(ws) == OrderText(a) + "+" + OrderText(b);
    var chunks := WrittenChunks(ram, ws);
    assert chunks == [chunks[0], chunks[1]];
    OrderAdds(ram, a, chunks[0], NOTHING);
    OrderAdds(ram, b, chunks[1], NOTHING);
    OrderAdds(ram, b, chunks[1], Ordered(ram, a));
    AggregateTwo(chunks[0], chunks[1]);
  }

  // ---- the index of the first vnode ----

  lemma {:induction false} SplitAfter(a: string, b: string, sep: char)
    requires sep !in a
    ensures Split(a + b, sep)[0] == a + Split(b, sep)[0]
  {
    if a == "" {
      assert a + b == b;
    } else {
      assert (a + b)[1..] == a[1..] + b;
      SplitAfter(a[1..], b, sep);
      assert a == [a[0]] + a[1..];
    }
  }

  lemma NamedMatches(v: Vnode, rest: string)
    requires Named(v)
    ensures MatchHere(v.node + "[" + v.vnode + "]" + rest) == Some(v)
    ensures '+' !in "(" + v.node + "[" + v.vnode + "]"
  {
    forall i | 0 <= i < |v.node| ensures IsNameChar(v.node[i]) && v.node[i] != '+' {
      NameChars(v.node[i]);
    }
    assert forall i :: 0 <= i < |v.vnode| ==> v.vnode[i] != '+';
    hide IsNameChar, MatchHere;
    MatchIsFound(v.node + "[" + v.vnode + "]" + rest, v);
  }

  /** `Vnode` is the index of the host that opens the text, whatever follows. */
  lemma PrimaryVnodeOf(v: Vnode, rest: string)
    requires Named(v)
    ensures PrimaryVnode("(" + v.node + "[" + v.vnode + "]" + rest) == v.vnode
  {
    var host, more := "(" + v.node + "[" + v.vnode + "]", Split(rest, '+')[0];
    NamedMatches(v, more);
    SplitAfter(host, rest, '+');
    hide Split, MatchHere, FindVnode, Named;
    var bare := v.node + "[" + v.vnode + "]" + more;
    assert host + more == "(" + bare;
    OpeningSkipped(bare);
  }

  lemma OpeningSkipped(s: string)
    requires MatchHere(s).Some?
    ensures FindVnode("(" + s) == MatchHere(s)
  {
    var t := "(" + s;
    assert t[1..] == s && RunLength(t, IsNameChar) == 0;
    hide RunLength, IsDigit;
  }

  /** A text whose first part has no bracket before an index has no such index. */
  lemma NoPrimaryVnode(first: string, rest: string)
    requires '+' !in first && '[' !in first
    ensures PrimaryVnode(first) == "" && PrimaryVnode(first + "+" + rest) == ""
    ensures forall ram :: ExecVnodeMap(ram, first) == None
  {
    SplitNoSep(first, '+');
    SplitAppend(first, rest, '+');
    assert first + ['+'] + rest == first + "+" + rest;
    NoBracketNoVnode(first);
    NoBracketInHost(first);
    hide Split, FindVnode, Cut, Unbracketed, Resources;
    forall ram ensures ExecVnodeMap(ram, first) == None {
      assert ParseChunk(ram, first) == None;
      assert [first][..0] == [];
    }
  }

  lemma MatchHasBracket(s: string, i: nat, v: Vnode)
    requires MatchesAt(s, i, v)
    ensures '[' in s
  {
    var m := v.node + "[" + v.vnode + "]";
    assert m[|v.node|] == '[' && s[i..][|v.node|] == m[|v.node|];
    assert s[i + |v.node|] == '[';
  }

  lemma NoBracketNoVnode(s: string)
    requires '[' !in s
    ensures FindVnode(s) == None
  {
    hide FindVnode, MatchesAt;
    var i := FindVnodeLeftmost(s);
    if FindVnode(s).Some? {
      MatchHasBracket(s, i, FindVnode(s).value);
    }
  }

  lemma NoBracketInHost(entry: string)
    requires '[' !in entry
    ensures FindVnode(Cut(Unbracketed(entry), ':').0) == None
  {
    var inner := Unbracketed(entry);
    CutParts(inner, ':');
    hide Cut, FindVnode;
    var host := Cut(inner, ':').0;
    assert '[' !in inner;
    assert host <= inner;
    assert '[' !in host;
    NoBracketNoVnode(host);
  }

  /** The text up to its first colon, brackets taken off, has no host with an index. */
  ghost predicate Hostless(entry: string) {
    exists host, resources :: HostlessBy(entry, host, resources)
  }

  ghost predicate HostlessBy(entry: string, host: string, resources: string) {
    && ':' !in host && (forall j, v :: !MatchesAt(host, j, v))
    && (BareEntry(entry) == host || BareEntry(entry) == host + ":" + resources)
  }

  /** The entry without a bracket at its front and one at its end. */
  function BareEntry(entry: string): string {
    var bare := if entry != "" && entry[0] == '(' then entry[1..] else entry;
    if bare != "" && bare[|bare| - 1] == ')' then bare[..|bare| - 1] else bare
  }

  lemma BareIsUnbracketed(entry: string)
    ensures Unbracketed(entry) == BareEntry(entry)
  {
    if entry != "" {
      assert entry[..1] == [entry[0]];
    }
    var bare := if entry != "" && entry[0] == '(' then entry[1..] else entry;
    assert CutPrefix(entry, "(") == bare;
    if bare != "" {
      assert bare[|bare| - 1..] == [bare[|bare| - 1]];
    }
  }

  lemma HostlessFails(ram: HumanUnits, entry: string)
    ensures ParseChunk(ram, entry).None? <==> Hostless(entry)
  {
    BareIsUnbracketed(entry);
    var bare := BareEntry(entry);
    CutParts(bare, ':');
    var (host, resources, found) := Cut(bare, ':');
    var i := FindVnodeLeftmost(host);
    hide FindVnode, Cut, Unbracketed, BareEntry, MatchesAt, Resources, Split;
    if ParseChunk(ram, entry).None? {
      assert host + [':'] + resources == host + ":" + resources;
      assert HostlessBy(entry, host, resources);
    }
    if h, r :| HostlessBy(entry, h, r) {
      assert h + [':'] + r == h + ":" + r;
      CutOnce(bare, h, r);
    }
  }

  lemma CutOnce(bare: string, host: string, resources: string)
    requires ':' !in host && (bare == host || bare == host + [':'] + resources)
    ensures Cut(bare, ':').0 == host
  {
    CutNone(host, ':');
    CutAt(host, resources, ':');
  }

  /** Parsing fails exactly when some entry names no host with an index before its first colon. */
  lemma FailsExactly(ram: HumanUnits, text: string)
    ensures ExecVnodeMap(ram, text).None? <==> exists entry :: entry in Split(text, '+') && Hostless(entry)
  {
    hide Hostless, Split;
    var entries := Split(text, '+');
    forall entry ensures ParseChunk(ram, entry).None? <==> Hostless(entry) {
      HostlessFails(ram, entry);
    }
    hide ParseChunk;
    NoneFails(ram, entries);
  }

  lemma {:induction false} NoneFails(ram: HumanUnits, entries: seq<string>)
    ensures ParseChunks(ram, entries).None? <==> exists entry :: entry in entries && ParseChunk(ram, entry).None?
  {
    hide ParseChunk;
    if entries == [] {
    } else {
      var init, last := entries[..|entries| - 1], entries[|entries| - 1];
      NoneFails(ram, init);
      assert entries == init + [last];
    }
  }
}
