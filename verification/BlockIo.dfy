/** The block I/O aggregation in `Stat` of `internal/cgroups/cgroups_v1.go`. */
module BlockIo {
  import opened Strconv
  import opened Seqs
  import opened Sums
  import opened Listings

  /** One line of the kernel's per-device statistics; a device number is only compared, so its width does not matter. */
  datatype Entry = Entry(major: nat, op: string, value: UInt64)

  datatype IoUsage = IoUsage(major: nat, rbytes: UInt64, rios: UInt64, wbytes: UInt64, wios: UInt64)

  type IoMap = map<nat, IoUsage>

  // ---- specification ----

  /** `ioMapGet`: the usage of a device, made when it is first asked for. */
  function Held(m: IoMap, major: nat): IoUsage {
    if major in m then m[major] else IoUsage(major, 0, 0, 0, 0)
  }

  function BytesCounted(u: IoUsage, e: Entry): IoUsage {
    if e.op == "Read" then u.(rbytes := WrapU64(u.rbytes as int + e.value))
    else if e.op == "Write" then u.(wbytes := WrapU64(u.wbytes as int + e.value))
    else u
  }

  function IosCounted(u: IoUsage, e: Entry): IoUsage {
    if e.op == "Read" then u.(rios := WrapU64(u.rios as int + e.value))
    else if e.op == "Write" then u.(wios := WrapU64(u.wios as int + e.value))
    else u
  }

  function AddBytes(m: IoMap, e: Entry): IoMap {
    m[e.major := BytesCounted(Held(m, e.major), e)]
  }

  function AddIos(m: IoMap, e: Entry): IoMap {
    m[e.major := IosCounted(Held(m, e.major), e)]
  }

  function BytesMap(bytes: seq<Entry>): IoMap {
    if bytes == [] then map[] else AddBytes(BytesMap(bytes[..|bytes| - 1]), bytes[|bytes| - 1])
  }

  function UsageMap(bytes: seq<Entry>, ios: seq<Entry>): IoMap {
    if ios == [] then BytesMap(bytes) else AddIos(UsageMap(bytes, ios[..|ios| - 1]), ios[|ios| - 1])
  }

  // ---- the program ----

  class Counters {
    const major: nat
    var rbytes: UInt64
    var rios: UInt64
    var wbytes: UInt64
    var wios: UInt64

    constructor (major: nat)
      ensures View() == IoUsage(major, 0, 0, 0, 0)
    {
      this.major := major;
      rbytes, rios, wbytes, wios := 0, 0, 0, 0;
    }

    function View(): IoUsage
      reads this
    {
      IoUsage(major, rbytes, rios, wbytes, wios)
    }

    method CountBytes(e: Entry)
      modifies this
      ensures View() == BytesCounted(old(View()), e)
    {
      if e.op == "Read" {
        rbytes := WrapU64(rbytes as int + e.value);
      } else if e.op == "Write" {
        wbytes := WrapU64(wbytes as int + e.value);
      }
    }

    method CountIos(e: Entry)
      modifies this
      ensures View() == IosCounted(old(View()), e)
    {
      if e.op == "Read" {
        rios := WrapU64(rios as int + e.value);
      } else if e.op == "Write" {
        wios := WrapU64(wios as int + e.value);
      }
    }
  }

  /** The map of counters that the two loops of `Stat` share. */
  class Aggregation {
    var ioMap: map<nat, Counters>

    ghost predicate Valid()
      reads this
    {
      forall a, b :: a in ioMap && b in ioMap && ioMap[a] == ioMap[b] ==> a == b
    }

    ghost function Contents(): IoMap
      reads this, ioMap.Values
    {
      map major | major in ioMap :: ioMap[major].View()
    }

    constructor ()
      ensures Valid() && Contents() == map[] && ioMap == map[]
    {
      ioMap := map[];
    }

    method Get(major: nat) returns (ioStat: Counters)
      requires Valid()
      modifies this`ioMap
      ensures Valid() && major in ioMap && ioMap[major] == ioStat
      ensures Contents() == old(Contents())[major := Held(old(Contents()), major)]
      ensures forall k :: k in ioMap ==> fresh(ioMap[k]) || (k in old(ioMap) && ioMap[k] == old(ioMap)[k])
    {
      if major !in ioMap {
        var fresh' := new Counters(major);
        ioMap := ioMap[major := fresh'];
      }
      ioStat := ioMap[major];
    }

    method CountBytes(e: Entry)
      requires Valid()
      modifies this`ioMap, ioMap.Values
      ensures Valid() && Contents() == AddBytes(old(Contents()), e)
      ensures forall k :: k in ioMap ==> fresh(ioMap[k]) || (k in old(ioMap) && ioMap[k] == old(ioMap)[k])
    {
      hide BytesCounted;
      var ioStat := Get(e.major);
      ghost var got := Contents();
      ioStat.CountBytes(e);
      assert Contents() == got[e.major := ioStat.View()];
    }

    method CountIos(e: Entry)
      requires Valid()
      modifies this`ioMap, ioMap.Values
      ensures Valid() && Contents() == AddIos(old(Contents()), e)
      ensures forall k :: k in ioMap ==> fresh(ioMap[k]) || (k in old(ioMap) && ioMap[k] == old(ioMap)[k])
    {
      hide IosCounted;
      var ioStat := Get(e.major);
      ghost var got := Contents();
      ioStat.CountIos(e);
      assert Contents() == got[e.major := ioStat.View()];
    }
  }

  /** The blkio part of `Stat`: two loops over the statistics, then one over the map in any order. */
  method StatBlkio(bytes: seq<Entry>, ios: seq<Entry>) returns (usage: seq<IoUsage>)
    ensures Lists(usage, UsageMap(bytes, ios))
  {
    hide AddBytes, AddIos;
    var io := new Aggregation();
    for i := 0 to |bytes|
      invariant io.Valid() && fresh(io) && forall k :: k in io.ioMap ==> fresh(io.ioMap[k])
      invariant io.Contents() == BytesMap(bytes[..i])
    {
      assert bytes[..i + 1][..i] == bytes[..i];
      io.CountBytes(bytes[i]);
    }
    assert bytes[..|bytes|] == bytes;
    for i := 0 to |ios|
      invariant io.Valid() && fresh(io) && forall k :: k in io.ioMap ==> fresh(io.ioMap[k])
      invariant io.Contents() == UsageMap(bytes, ios[..i])
    {
      assert ios[..i + 1][..i] == ios[..i];
      io.CountIos(ios[i]);
    }
    assert ios[..|ios|] == ios;
    usage := ListUsage(io);
  }

  method ListUsage(io: Aggregation) returns (usage: seq<IoUsage>)
    requires io.Valid()
    ensures Lists(usage, io.Contents())
  {
    usage := [];
    var todo := io.ioMap.Keys;
    ghost var keys: seq<nat> := [];
    while todo != {}
      invariant todo <= io.Contents().Keys
      invariant ListsBy(usage, io.Contents() - todo, keys)
      decreases todo
    {
      var major :| major in todo;
      assert io.Contents() - (todo - {major}) == (io.Contents() - todo)[major := io.Contents()[major]];
      usage := usage + [io.ioMap[major].View()];
      keys := keys + [major];
      todo := todo - {major};
    }
    assert io.Contents() - {} == io.Contents();
  }

  // ---- conservation ----

  /** The four counters. */
  datatype Counter = Rbytes | Wbytes | Rios | Wios

  function Value(u: IoUsage, c: Counter): UInt64 {
    match c
    case Rbytes => u.rbytes
    case Wbytes => u.wbytes
    case Rios => u.rios
    case Wios => u.wios
  }

  function Operation(c: Counter): string {
    if c == Rbytes || c == Rios then "Read" else "Write"
  }

  /** The input a counter counts. */
  function Source(c: Counter, bytes: seq<Entry>, ios: seq<Entry>): seq<Entry> {
    if c == Rbytes || c == Wbytes then bytes else ios
  }

  function MajorOf(e: Entry): nat { e.major }

  function Counted(c: Counter): Entry -> int {
    (e: Entry) => if e.op == Operation(c) then e.value else 0
  }

  predicate Mentions(es: seq<Entry>, major: nat) {
    exists i :: 0 <= i < |es| && es[i].major == major
  }

  lemma MentionsMore(es: seq<Entry>, major: nat)
    requires es != []
    ensures Mentions(es, major) <==> Mentions(es[..|es| - 1], major) || es[|es| - 1].major == major
  {
    var init := es[..|es| - 1];
    if Mentions(init, major) {
      var i :| 0 <= i < |init| && init[i].major == major;
      assert es[i].major == major;
    }
    if Mentions(es, major) && es[|es| - 1].major != major {
      var i :| 0 <= i < |es| && es[i].major == major;
      assert init[i].major == major;
    }
  }

  /** What one entry does to the counters of a device. */
  lemma AddBytesValue(m: IoMap, e: Entry, major: nat, c: Counter)
    ensures major in AddBytes(m, e) <==> major in m || e.major == major
    ensures Value(Held(AddBytes(m, e), major), c)
         == if c == Rbytes || c == Wbytes
            then WrapU64(Value(Held(m, major), c) + Restrict(MajorOf, major, Counted(c))(e))
            else Value(Held(m, major), c)
  {
  }

  lemma AddIosValue(m: IoMap, e: Entry, major: nat, c: Counter)
    ensures major in AddIos(m, e) <==> major in m || e.major == major
    ensures Value(Held(AddIos(m, e), major), c)
         == if c == Rios || c == Wios
            then WrapU64(Value(Held(m, major), c) + Restrict(MajorOf, major, Counted(c))(e))
            else Value(Held(m, major), c)
  {
  }

  lemma {:induction false} BytesMapSums(bytes: seq<Entry>, major: nat, c: Counter)
    ensures major in BytesMap(bytes) <==> Mentions(bytes, major)
    ensures Value(Held(BytesMap(bytes), major), c)
         == if c == Rbytes || c == Wbytes then WrapU64(SumBy(bytes, Restrict(MajorOf, major, Counted(c)))) else 0
  {
    hide AddBytes, Value, Held, SumBy, WrapU64, Counted, Restrict, Mentions;
    if bytes == [] {
      NothingCounted(major, c);
    } else {
      var init, e := bytes[..|bytes| - 1], bytes[|bytes| - 1];
      BytesMapSums(init, major, c);
      AddBytesValue(BytesMap(init), e, major, c);
      SumSnoc(bytes, Restrict(MajorOf, major, Counted(c)));
      MentionsMore(bytes, major);
      WrapU64Add(SumBy(init, Restrict(MajorOf, major, Counted(c))), Restrict(MajorOf, major, Counted(c))(e));
    }
  }

  lemma NothingCounted(major: nat, c: Counter)
    ensures Value(Held(map[], major), c) == 0 && SumBy([], Restrict(MajorOf, major, Counted(c))) == 0
    ensures WrapU64(0) == 0 && !Mentions([], major)
  {
  }

  /**
   After the two loops there is one usage for each device either input mentions, and each of
   its counters is the sum of the matching entries of its input, in 64-bit arithmetic.
   */
  lemma {:induction false} UsageSums(bytes: seq<Entry>, ios: seq<Entry>, major: nat, c: Counter)
    ensures major in UsageMap(bytes, ios) <==> Mentions(bytes, major) || Mentions(ios, major)
    ensures Value(Held(UsageMap(bytes, ios), major), c)
         == WrapU64(SumBy(Source(c, bytes, ios), Restrict(MajorOf, major, Counted(c))))
    decreases |ios|
  {
    hide AddIos, BytesMap, Value, Held, SumBy, WrapU64, Counted, Restrict, Mentions;
    if ios == [] {
      BytesMapSums(bytes, major, c);
      NothingCounted(major, c);
    } else {
      var init, e := ios[..|ios| - 1], ios[|ios| - 1];
      UsageSums(bytes, init, major, c);
      AddIosValue(UsageMap(bytes, init), e, major, c);
      SumSnoc(ios, Restrict(MajorOf, major, Counted(c)));
      MentionsMore(ios, major);
      WrapU64Add(SumBy(init, Restrict(MajorOf, major, Counted(c))), Restrict(MajorOf, major, Counted(c))(e));
    }
  }

  /** Each usage of the map stands under its own device number. */
  lemma {:induction false} UsageNamed(bytes: seq<Entry>, ios: seq<Entry>, major: nat)
    ensures Held(UsageMap(bytes, ios), major).major == major
    decreases |ios|
  {
    if ios == [] {
      BytesNamed(bytes, major);
    } else {
      UsageNamed(bytes, ios[..|ios| - 1], major);
    }
  }

  lemma {:induction false} BytesNamed(bytes: seq<Entry>, major: nat)
    ensures Held(BytesMap(bytes), major).major == major
  {
    if bytes == [] {
    } else {
      BytesNamed(bytes[..|bytes| - 1], major);
    }
  }

  lemma SameMentions(a: seq<Entry>, b: seq<Entry>, major: nat)
    requires multiset(a) == multiset(b)
    ensures Mentions(a, major) == Mentions(b, major)
  {
    if i :| 0 <= i < |a| && a[i].major == major {
      var k := Elsewhere(a, b, i);
    }
    if i :| 0 <= i < |b| && b[i].major == major {
      var k := Elsewhere(b, a, i);
    }
  }

  lemma HeldUnordered(b1: seq<Entry>, i1: seq<Entry>, b2: seq<Entry>, i2: seq<Entry>, major: nat)
    requires multiset(b1) == multiset(b2) && multiset(i1) == multiset(i2)
    ensures major in UsageMap(b1, i1) <==> major in UsageMap(b2, i2)
    ensures Held(UsageMap(b1, i1), major) == Held(UsageMap(b2, i2), major)
  {
    hide UsageMap, Held, SumBy, Mentions, Value;
    SameMentions(b1, b2, major);
    SameMentions(i1, i2, major);
    forall c: Counter
      ensures Value(Held(UsageMap(b1, i1), major), c) == Value(Held(UsageMap(b2, i2), major), c)
    {
      UsageSums(b1, i1, major, c);
      UsageSums(b2, i2, major, c);
      SumUnordered(Source(c, b1, i1), Source(c, b2, i2), Restrict(MajorOf, major, Counted(c)));
    }
    UsageSums(b1, i1, major, Rios);
    UsageSums(b2, i2, major, Rios);
    UsageNamed(b1, i1, major);
    UsageNamed(b2, i2, major);
    SameUsage(Held(UsageMap(b1, i1), major), Held(UsageMap(b2, i2), major));
  }

  lemma SameUsage(u: IoUsage, w: IoUsage)
    requires u.major == w.major && forall c :: Value(u, c) == Value(w, c)
    ensures u == w
  {
    assert Value(u, Rbytes) == Value(w, Rbytes) && Value(u, Wbytes) == Value(w, Wbytes);
    assert Value(u, Rios) == Value(w, Rios) && Value(u, Wios) == Value(w, Wios);
  }

  /** Neither the order of the inputs nor the order in which the map is visited changes the usages reported. */
  lemma UsageUnordered(
    b1: seq<Entry>, i1: seq<Entry>, b2: seq<Entry>, i2: seq<Entry>, u1: seq<IoUsage>, u2: seq<IoUsage>)
    requires multiset(b1) == multiset(b2) && multiset(i1) == multiset(i2)
    requires Lists(u1, UsageMap(b1, i1)) && Lists(u2, UsageMap(b2, i2))
    ensures multiset(u1) == multiset(u2)
  {
    hide UsageMap, Lists;
    var m, n := UsageMap(b1, i1), UsageMap(b2, i2);
    forall major ensures (major in m <==> major in n) && (major in m && major in n ==> m[major] == n[major]) {
      HeldUnordered(b1, i1, b2, i2, major);
    }
    assert m == n;
    ListingsAgree(u1, u2, m);
  }

  function HeldValue(m: IoMap, c: Counter): nat -> int { (major: nat) => Value(Held(m, major), c) }

  /**
   Over the devices, each listed once, a counter's total is the total of the matching entries, in
   64-bit arithmetic.
   */
  lemma TotalsConserved(bytes: seq<Entry>, ios: seq<Entry>, majors: seq<nat>, c: Counter)
    requires var es := Source(c, bytes, ios); forall i :: 0 <= i < |es| ==> Occurrences(majors, es[i].major) == 1
    ensures WrapU64(SumBy(majors, HeldValue(UsageMap(bytes, ios), c)))
         == WrapU64(SumBy(Source(c, bytes, ios), Counted(c)))
  {
    GroupsConserve(Source(c, bytes, ios), majors, MajorOf, Counted(c));
    HeldIsSum(bytes, ios, majors, c);
  }

  lemma {:induction false} HeldIsSum(bytes: seq<Entry>, ios: seq<Entry>, majors: seq<nat>, c: Counter)
    ensures WrapU64(SumBy(majors, HeldValue(UsageMap(bytes, ios), c)))
         == WrapU64(SumBy(majors, GroupSum(Source(c, bytes, ios), MajorOf, Counted(c))))
    decreases |majors|
  {
    if majors == [] {
    } else {
      var init, major := majors[..|majors| - 1], majors[|majors| - 1];
      var held, group := HeldValue(UsageMap(bytes, ios), c), GroupSum(Source(c, bytes, ios), MajorOf, Counted(c));
      HeldIsSum(bytes, ios, init, c);
      UsageSums(bytes, ios, major, c);
      SumSnoc(majors, held);
      SumSnoc(majors, group);
      hide *;
      WrapU64Step(SumBy(init, held), SumBy(init, group), held(major), group(major));
    }
  }

  // ---- each counter, spelled out ----

  /** The values of the entries of this device and operation, added up. */
  function OpSum(es: seq<Entry>, major: nat, op: string): nat {
    if es == [] then 0
    else
      OpSum(es[..|es| - 1], major, op)
      + (if es[|es| - 1].major == major && es[|es| - 1].op == op then es[|es| - 1].value else 0)
  }

  lemma {:induction false} OpSumIs(es: seq<Entry>, major: nat, c: Counter)
    ensures SumBy(es, Restrict(MajorOf, major, Counted(c))) == OpSum(es, major, Operation(c))
  {
    hide Operation;
    if es == [] {
    } else {
      OpSumIs(es[..|es| - 1], major, c);
      SumSnoc(es, Restrict(MajorOf, major, Counted(c)));
    }
  }

  /**
   A device's usage: bytes and operations read are the sums of its "Read" entries, those written
   of its "Write" entries, in 64 unsigned bits; entries of other operations count nothing.
   */
  lemma UsageByOperation(bytes: seq<Entry>, ios: seq<Entry>, major: nat)
    requires Mentions(bytes, major) || Mentions(ios, major)
    ensures major in UsageMap(bytes, ios)
    ensures var u := UsageMap(bytes, ios)[major];
            && u.major == major
            && u.rbytes == OpSum(bytes, major, "Read") % 0x1_0000_0000_0000_0000
            && u.wbytes == OpSum(bytes, major, "Write") % 0x1_0000_0000_0000_0000
            && u.rios == OpSum(ios, major, "Read") % 0x1_0000_0000_0000_0000
            && u.wios == OpSum(ios, major, "Write") % 0x1_0000_0000_0000_0000
  {
    UsageNamed(bytes, ios, major);
    CounterByOperation(bytes, ios, major, Rbytes);
    CounterByOperation(bytes, ios, major, Wbytes);
    CounterByOperation(bytes, ios, major, Rios);
    CounterByOperation(bytes, ios, major, Wios);
    hide UsageMap, OpSum, Mentions;
  }

  lemma CounterByOperation(bytes: seq<Entry>, ios: seq<Entry>, major: nat, c: Counter)
    ensures major in UsageMap(bytes, ios) <==> Mentions(bytes, major) || Mentions(ios, major)
    ensures Value(Held(UsageMap(bytes, ios), major), c)
         == OpSum(Source(c, bytes, ios), major, Operation(c)) % 0x1_0000_0000_0000_0000
  {
    UsageSums(bytes, ios, major, c);
    OpSumIs(Source(c, bytes, ios), major, c);
    hide UsageMap, OpSum, Mentions, Value, Held, SumBy, Source, Operation;
  }
}
