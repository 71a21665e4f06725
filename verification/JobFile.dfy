/**
 `internal/pbsjob/job_file.go`: the key table built from the job type, and the
 layout of a job file.
 */
module JobFile {
  import opened Wrappers
  import opened Reflect

  datatype JobMapKey = JobMapKey(name: string, resource: string)

  datatype JobMapValue = JobMapValue(index: seq<nat>, separator: char)

  type JobMap = map<JobMapKey, JobMapValue>

  /** `NewJobMapKey`: at most two layers of depth. */
  function NewJobMapKey(path: seq<string>): Option<JobMapKey> {
    if |path| > 2 then None
    else Some(JobMapKey(if |path| > 0 then path[0] else "", if |path| > 1 then path[1] else ""))
  }

  /** The name a field goes by: its `pbs` tag, or its Go name when the tag is absent or empty. */
  function FieldName(f: Field): string {
    if f.pbs.Some? && f.pbs.value != "" then f.pbs.value else f.name
  }

  function FieldSeparator(f: Field): char {
    if f.sep.Some? then f.sep.value else ','
  }

  // ---- specification: the leaves of a type, depth first ----

  /** A leaf of the type: the names and the indices on the way to it, its separator and kind. */
  datatype LeafField = LeafField(names: seq<string>, index: seq<nat>, separator: char, kind: Kind)

  function LeavesFrom(t: Type, i: nat, parent: seq<string>, path: seq<nat>): seq<LeafField>
    requires t.Struct? && i <= |t.fields|
    decreases t, |t.fields| - i
  {
    if i == |t.fields| then []
    else
      LeavesOfField(t, i, parent, path) + LeavesFrom(t, i + 1, parent, path)
  }

  function LeavesOfField(t: Type, i: nat, parent: seq<string>, path: seq<nat>): seq<LeafField>
    requires t.Struct? && i < |t.fields|
    decreases t, |t.fields| - i, 0
  {
    var f := t.fields[i];
    match f.typ
    case Struct(_) => LeavesFrom(f.typ, 0, parent + [FieldName(f)], path + [i])
    case Leaf(k) => [LeafField(parent + [FieldName(f)], path + [i], FieldSeparator(f), k)]
  }

  function Leaves(t: Type): seq<LeafField>
    requires t.Struct?
  {
    LeavesFrom(t, 0, [], [])
  }

  /** No leaf lies deeper than the two layers a key can name. */
  predicate Shallow(leaves: seq<LeafField>) {
    forall i :: 0 <= i < |leaves| ==> |leaves[i].names| <= 2
  }

  function KeyOf(leaf: LeafField): JobMapKey
    requires |leaf.names| <= 2
  {
    NewJobMapKey(leaf.names).value
  }

  function MapValueOf(leaf: LeafField): JobMapValue {
    JobMapValue(leaf.index, leaf.separator)
  }

  function Keys(leaves: seq<LeafField>): (keys: seq<JobMapKey>)
    requires Shallow(leaves)
    ensures |keys| == |leaves| && forall i :: 0 <= i < |keys| ==> keys[i] == KeyOf(leaves[i])
  {
    seq(|leaves|, i requires 0 <= i < |leaves| => KeyOf(leaves[i]))
  }

  /** `cache` after the leaves are stored in order; a repeated key keeps the last one. */
  function Stored(cache: JobMap, leaves: seq<LeafField>): JobMap
    requires Shallow(leaves)
  {
    if leaves == [] then cache
    else Stored(cache, leaves[..|leaves| - 1])[KeyOf(leaves[|leaves| - 1]) := MapValueOf(leaves[|leaves| - 1])]
  }

  lemma {:induction false} StoredAppend(cache: JobMap, a: seq<LeafField>, b: seq<LeafField>)
    requires Shallow(a) && Shallow(b)
    ensures Shallow(a + b) && Stored(cache, a + b) == Stored(Stored(cache, a), b)
  {
    if b == [] {
      assert a + b == a;
    } else {
      StoredAppend(cache, a, b[..|b| - 1]);
      assert (a + b)[..|a + b| - 1] == a + b[..|b| - 1];
    }
  }

  /** What the builder has stored and listed after visiting the leaves `done`. */
  ghost predicate Visited(cache0: JobMap, done: seq<LeafField>, order: seq<JobMapKey>, cache: JobMap) {
    Shallow(done) && order == Keys(done) && cache == Stored(cache0, done)
  }

  lemma KeysAppend(a: seq<LeafField>, b: seq<LeafField>)
    requires Shallow(a) && Shallow(b)
    ensures Shallow(a + b) && Keys(a + b) == Keys(a) + Keys(b)
  {
    hide KeyOf;
  }

  lemma VisitMore(
    cache0: JobMap, done: seq<LeafField>, order: seq<JobMapKey>, cache: JobMap, here: seq<LeafField>)
    requires Visited(cache0, done, order, cache) && Shallow(here)
    ensures Visited(cache0, done + here, order + Keys(here), Stored(cache, here))
  {
    hide Stored, Keys, KeyOf;
    StoredAppend(cache0, done, here);
    KeysAppend(done, here);
  }

  lemma NothingVisited(cache: JobMap)
    ensures Visited(cache, [], [], cache)
  {
  }

  lemma VisitOne(cache: JobMap, leaf: LeafField)
    requires |leaf.names| <= 2
    ensures Stored(cache, [leaf]) == cache[KeyOf(leaf) := MapValueOf(leaf)] && Keys([leaf]) == [KeyOf(leaf)]
  {
    assert [leaf][..0] == [];
  }

  /** One deep leaf makes the whole visit fail. */
  lemma DeepInside(all: seq<LeafField>, done: seq<LeafField>, here: seq<LeafField>, later: seq<LeafField>)
    requires all == done + (here + later)
    ensures (done + here) + later == all
    ensures Shallow(all) ==> Shallow(here)
  {
    if Shallow(all) {
      forall k | 0 <= k < |here| ensures |here[k].names| <= 2 {
        assert here[k] == all[|done| + k];
      }
    }
  }

  // ---- the program ----

  /** The map `cache` that `buildJobMapCache` fills while it recurs. */
  class JobMapBuilder {
    var cache: JobMap

    constructor ()
      ensures cache == map[]
    {
      cache := map[];
    }

    /** `buildJobMapCache`; `ok` is false where the program panics on a leaf that is too deep. */
    method Build(t: Type, parent: seq<string>, path: seq<nat>) returns (order: seq<JobMapKey>, ok: bool)
      requires t.Struct?
      modifies this
      ensures ok <==> Shallow(LeavesFrom(t, 0, parent, path))
      ensures ok ==> order == Keys(LeavesFrom(t, 0, parent, path))
      ensures ok ==> cache == Stored(old(cache), LeavesFrom(t, 0, parent, path))
      decreases t
    {
      hide Stored, Keys;
      NothingVisited(cache);
      order, ok := [], true;
      ghost var done: seq<LeafField> := [];
      for i := 0 to |t.fields|
        invariant Visited(old(cache), done, order, cache)
        invariant done + LeavesFrom(t, i, parent, path) == LeavesFrom(t, 0, parent, path)
      {
        var field := t.fields[i];
        ghost var here, before := LeavesOfField(t, i, parent, path), cache;
        DeepInside(LeavesFrom(t, 0, parent, path), done, here, LeavesFrom(t, i + 1, parent, path));
        if field.typ.Struct? {
          var sub, fine := Build(field.typ, parent + [FieldName(field)], path + [i]);
          if !fine {
            return [], false;
          }
          VisitMore(old(cache), done, order, before, here);
          order := order + sub;
        } else {
          ghost var leaf := here[0];
          var key := NewJobMapKey(parent + [FieldName(field)]);
          if key.None? {
            assert |here[0].names| > 2;
            return [], false;
          }
          VisitOne(cache, leaf);
          VisitMore(old(cache), done, order, before, here);
          cache := cache[key.value := JobMapValue(path + [i], FieldSeparator(field))];
          order := order + [key.value];
        }
        done := done + here;
      }
      assert done == LeavesFrom(t, 0, parent, path);
    }
  }

  /** `NewJobMapCache`: the table and its order; None where building it panics. */
  method NewJobMapCache(t: Type) returns (r: Option<(JobMap, seq<JobMapKey>)>)
    requires t.Struct?
    ensures r == JobMapCache(t)
  {
    var builder := new JobMapBuilder();
    var order, ok := builder.Build(t, [], []);
    r := if ok then Some((builder.cache, order)) else None;
  }

  function JobMapCache(t: Type): Option<(JobMap, seq<JobMapKey>)>
    requires t.Struct?
  {
    if Shallow(Leaves(t)) then Some((Stored(map[], Leaves(t)), Keys(Leaves(t)))) else None
  }

  // ---- properties of the table ----

  predicate DistinctNames(t: Type)
    decreases t
  {
    t.Struct? ==>
      && (forall i, j :: 0 <= i < j < |t.fields| ==> FieldName(t.fields[i]) != FieldName(t.fields[j]))
      && (forall i :: 0 <= i < |t.fields| ==> DistinctNames(t.fields[i].typ))
  }

  /** `a` comes before `b` depth first: they share the way down to position `d`, then `a` turns off earlier. */
  predicate Before(a: LeafField, b: LeafField, d: int) {
    && DivergeAt(a.index, b.index, d)
    && a.index[d] < b.index[d]
    && |a.names| == |a.index| && |b.names| == |b.index|
    && DivergeAt(a.names, b.names, d)
  }

  ghost predicate ComesBefore(a: LeafField, b: LeafField) {
    exists d :: Before(a, b, d)
  }

  /** Every leaf listed from field `i` on extends the given names and indices, at a field not before `i`. */
  lemma {:induction false} LeavesExtend(t: Type, i: nat, parent: seq<string>, path: seq<nat>, k: nat)
    requires t.Struct? && i <= |t.fields| && |parent| == |path|
    requires k < |LeavesFrom(t, i, parent, path)|
    ensures var e := LeavesFrom(t, i, parent, path)[k];
            && |e.names| == |e.index| > |path|
            && parent == e.names[..|path|] && path == e.index[..|path|]
            && i <= e.index[|path|] < |t.fields|
            && e.names[|path|] == FieldName(t.fields[e.index[|path|]])
            && TypeAt(t, e.index[|path|..]) == Some(Leaf(e.kind))
    decreases t, |t.fields| - i
  {
    var here := LeavesOfField(t, i, parent, path);
    if k < |here| {
      LeavesOfFieldExtend(t, i, parent, path, k);
    } else {
      LeavesExtend(t, i + 1, parent, path, k - |here|);
    }
  }

  lemma {:induction false} LeavesOfFieldExtend(t: Type, i: nat, parent: seq<string>, path: seq<nat>, k: nat)
    requires t.Struct? && i < |t.fields| && |parent| == |path|
    requires k < |LeavesOfField(t, i, parent, path)|
    ensures var e := LeavesOfField(t, i, parent, path)[k];
            && |e.names| == |e.index| > |path|
            && parent == e.names[..|path|] && path == e.index[..|path|]
            && e.index[|path|] == i
            && e.names[|path|] == FieldName(t.fields[i])
            && TypeAt(t, e.index[|path|..]) == Some(Leaf(e.kind))
    decreases t, |t.fields| - i, 0
  {
    var f := t.fields[i];
    var e := LeavesOfField(t, i, parent, path)[k];
    if f.typ.Struct? {
      LeavesExtend(f.typ, 0, parent + [FieldName(f)], path + [i], k);
      var names, index := parent + [FieldName(f)], path + [i];
      assert e.names[..|path|] == e.names[..|path| + 1][..|path|] == parent;
      assert e.index[..|path|] == e.index[..|path| + 1][..|path|] == path;
      assert e.index[|path|] == e.index[..|path| + 1][|path|];
      assert e.names[|path|] == e.names[..|path| + 1][|path|];
      assert e.index[|path|..][1..] == e.index[|path| + 1..];
    } else {
      assert e.index[|path|..] == [i] && e.index[|path|..][1..] == [];
    }
  }

  /** The order is the depth-first order, and two leaves always part by name where they part by index. */
  lemma {:induction false} LeavesOrdered(t: Type, i: nat, parent: seq<string>, path: seq<nat>, a: nat, b: nat)
    returns (d: nat)
    requires t.Struct? && i <= |t.fields| && DistinctNames(t) && |parent| == |path|
    requires a < b < |LeavesFrom(t, i, parent, path)|
    ensures Before(LeavesFrom(t, i, parent, path)[a], LeavesFrom(t, i, parent, path)[b], d)
    decreases t, |t.fields| - i
  {
    var here := LeavesOfField(t, i, parent, path);
    var f := t.fields[i];
    if b < |here| {
      if f.typ.Struct? {
        d := LeavesOrdered(f.typ, 0, parent + [FieldName(f)], path + [i], a, b);
      }
    } else if a >= |here| {
      d := LeavesOrdered(t, i + 1, parent, path, a - |here|, b - |here|);
    } else {
      LeavesOfFieldExtend(t, i, parent, path, a);
      LeavesExtend(t, i + 1, parent, path, b - |here|);
      d := |path|;
    }
  }

  /** A shallow type with distinct sibling names: what the table of `Job` is built from. */
  predicate GoodType(t: Type) {
    t.Struct? && DistinctNames(t) && Shallow(Leaves(t))
  }

  /**
   The table: it holds exactly the listed keys, no key is listed twice, keys come in
   depth-first order, each index path leads to a leaf of the type, and the paths of two
   keys part before either ends.
   */
  lemma KeyTable(t: Type)
    requires GoodType(t)
    ensures var leaves := Leaves(t);
            var cache := Stored(map[], leaves);
            && (forall key :: key in cache <==> key in Keys(leaves))
            && (forall a, b :: 0 <= a < b < |leaves| ==> KeyOf(leaves[a]) != KeyOf(leaves[b]))
            && (forall a, b :: 0 <= a < b < |leaves| ==> ComesBefore(leaves[a], leaves[b]))
            && (forall a :: 0 <= a < |leaves| ==> cache[KeyOf(leaves[a])] == MapValueOf(leaves[a]))
            && (forall a :: 0 <= a < |leaves| ==> TypeAt(t, leaves[a].index) == Some(Leaf(leaves[a].kind)))
  {
    var leaves := Leaves(t);
    forall a, b | 0 <= a < b < |leaves|
      ensures KeyOf(leaves[a]) != KeyOf(leaves[b])
      ensures ComesBefore(leaves[a], leaves[b])
    {
      var d := LeavesOrdered(t, 0, [], [], a, b);
      assert Before(leaves[a], leaves[b], d);
      KeysDiffer(leaves[a], leaves[b], d);
    }
    StoredHolds(leaves);
    forall a | 0 <= a < |leaves|
      ensures TypeAt(t, leaves[a].index) == Some(Leaf(leaves[a].kind))
    {
      LeavesExtend(t, 0, [], [], a);
      assert leaves[a].index[0..] == leaves[a].index;
    }
  }

  lemma KeysDiffer(a: LeafField, b: LeafField, d: int)
    requires Before(a, b, d) && |a.names| <= 2 && |b.names| <= 2
    ensures KeyOf(a) != KeyOf(b)
  {
    assert d == 0 || d == 1;
  }

  lemma {:induction false} StoredHolds(leaves: seq<LeafField>)
    requires Shallow(leaves)
    requires forall a, b :: 0 <= a < b < |leaves| ==> KeyOf(leaves[a]) != KeyOf(leaves[b])
    ensures forall key :: key in Stored(map[], leaves) <==> key in Keys(leaves)
    ensures forall a :: 0 <= a < |leaves| ==>
                          && KeyOf(leaves[a]) in Stored(map[], leaves)
                          && Stored(map[], leaves)[KeyOf(leaves[a])] == MapValueOf(leaves[a])
  {
    if leaves == [] {
    } else {
      var init := leaves[..|leaves| - 1];
      StoredHolds(init);
      assert Keys(leaves) == Keys(init) + [KeyOf(leaves[|leaves| - 1])];
    }
  }

  // ---- the table against the type it is built from ----

  /** The names of the fields on the way. */
  function NamesAlong(t: Type, way: seq<nat>): (names: seq<string>)
    requires TypeAt(t, way).Some?
    ensures |names| == |way|
    decreases way
  {
    if way == [] then [] else [FieldName(t.fields[way[0]])] + NamesAlong(t.fields[way[0]].typ, way[1..])
  }

  /** The separator of the field the way ends at. */
  function SeparatorAt(t: Type, way: seq<nat>): char
    requires way != [] && TypeAt(t, way).Some?
    decreases way
  {
    var f := t.fields[way[0]];
    if |way| == 1 then FieldSeparator(f) else SeparatorAt(f.typ, way[1..])
  }

  /** The leaf is listed as what lies at the end of `way` below `path`. */
  ghost predicate LiesAt(e: LeafField, t: Type, parent: seq<string>, path: seq<nat>, way: seq<nat>) {
    && way != [] && TypeAt(t, way) == Some(Leaf(e.kind))
    && e.index == path + way && e.names == parent + NamesAlong(t, way) && e.separator == SeparatorAt(t, way)
  }

  lemma LiesBelow(e: LeafField, t: Type, i: nat, parent: seq<string>, path: seq<nat>, way: seq<nat>)
    requires t.Struct? && i < |t.fields|
    requires LiesAt(e, t.fields[i].typ, parent + [FieldName(t.fields[i])], path + [i], way)
    ensures LiesAt(e, t, parent, path, [i] + way)
  {
    assert ([i] + way)[1..] == way;
    assert path + [i] + way == path + ([i] + way);
    var name, names := FieldName(t.fields[i]), NamesAlong(t.fields[i].typ, way);
    assert parent + [name] + names == parent + ([name] + names);
  }

  /** Every leaf of the type is listed. */
  lemma {:induction false} LeafListed(t: Type, i: nat, parent: seq<string>, path: seq<nat>, way: seq<nat>)
    returns (k: nat)
    requires t.Struct? && way != [] && i <= way[0] && TypeAt(t, way).Some? && TypeAt(t, way).value.Leaf?
    ensures k < |LeavesFrom(t, i, parent, path)| && LiesAt(LeavesFrom(t, i, parent, path)[k], t, parent, path, way)
    decreases t, |t.fields| - i
  {
    var here, f := LeavesOfField(t, i, parent, path), t.fields[i];
    if i < way[0] {
      k := LeafListed(t, i + 1, parent, path, way);
      k := |here| + k;
    } else if f.typ.Struct? {
      k := LeafListed(f.typ, 0, parent + [FieldName(f)], path + [i], way[1..]);
      LiesBelow(here[k], t, i, parent, path, way[1..]);
      assert way == [i] + way[1..];
    } else {
      assert way == [i] && way[1..] == [];
      k := 0;
    }
  }

  /** Whatever is listed is a leaf of the type. */
  lemma {:induction false} ListedLeaf(t: Type, i: nat, parent: seq<string>, path: seq<nat>, k: nat)
    returns (way: seq<nat>)
    requires t.Struct? && i <= |t.fields| && k < |LeavesFrom(t, i, parent, path)|
    ensures LiesAt(LeavesFrom(t, i, parent, path)[k], t, parent, path, way)
    decreases t, |t.fields| - i
  {
    var here, f := LeavesOfField(t, i, parent, path), t.fields[i];
    if k >= |here| {
      way := ListedLeaf(t, i + 1, parent, path, k - |here|);
    } else if f.typ.Struct? {
      way := ListedLeaf(f.typ, 0, parent + [FieldName(f)], path + [i], k);
      LiesBelow(here[k], t, i, parent, path, way);
      way := [i] + way;
    } else {
      way := [i];
      assert way[1..] == [];
    }
  }

  /** Each leaf of the type is in the table, under the names of the fields on the way to it. */
  lemma LeafIsKeyed(t: Type, way: seq<nat>)
    requires GoodType(t) && way != [] && TypeAt(t, way).Some? && TypeAt(t, way).value.Leaf?
    ensures var key := NewJobMapKey(NamesAlong(t, way));
            && key.Some? && key.value in Stored(map[], Leaves(t))
            && Stored(map[], Leaves(t))[key.value] == JobMapValue(way, SeparatorAt(t, way))
  {
    KeyTable(t);
    var k := LeafListed(t, 0, [], [], way);
    var leaf := Leaves(t)[k];
    assert leaf.index == way && leaf.names == NamesAlong(t, way);
    assert Stored(map[], Leaves(t))[KeyOf(leaf)] == MapValueOf(leaf);
  }

  /** Each key of the table leads to a leaf of the type, and is made of the names on the way. */
  lemma KeyIsLeaf(t: Type, key: JobMapKey)
    requires GoodType(t) && key in Stored(map[], Leaves(t))
    ensures var way := Stored(map[], Leaves(t))[key].index;
            && way != [] && TypeAt(t, way).Some? && TypeAt(t, way).value.Leaf?
            && NewJobMapKey(NamesAlong(t, way)) == Some(key)
  {
    KeyTable(t);
    var k :| 0 <= k < |Leaves(t)| && Keys(Leaves(t))[k] == key;
    var leaf := Leaves(t)[k];
    var way := ListedLeaf(t, 0, [], [], k);
    assert leaf.index == way && leaf.names == NamesAlong(t, way);
    assert Stored(map[], Leaves(t))[KeyOf(leaf)] == MapValueOf(leaf);
  }

  /** A value of the type is determined by its leaves. */
  lemma {:induction false} LeavesDetermine(t: Type, i: nat, parent: seq<string>, path: seq<nat>, m: Node, n: Node)
    requires t.Struct? && i <= |t.fields| && |parent| == |path|
    requires HasType(m, t) && HasType(n, t)
    requires forall k :: 0 <= k < |LeavesFrom(t, i, parent, path)| ==>
                           LeafAgrees(LeavesFrom(t, i, parent, path)[k], |path|, m, n)
    ensures forall j :: i <= j < |t.fields| ==> m.fields[j] == n.fields[j]
    decreases t, |t.fields| - i
  {
    if i < |t.fields| {
      var here, later := LeavesOfField(t, i, parent, path), LeavesFrom(t, i + 1, parent, path);
      var all := LeavesFrom(t, i, parent, path);
      assert all == here + later;
      forall k | 0 <= k < |later| ensures LeafAgrees(later[k], |path|, m, n) {
        assert later[k] == all[|here| + k];
      }
      LeavesDetermine(t, i + 1, parent, path, m, n);
      var f := t.fields[i];
      forall k | 0 <= k < |here|
        ensures LeafAgrees(here[k], |path| + 1, m.fields[i], n.fields[i])
      {
        assert here[k] == all[k];
        LeavesOfFieldExtend(t, i, parent, path, k);
        var rest := here[k].index[|path|..];
        assert rest[0] == i && rest[1..] == here[k].index[|path| + 1..];
      }
      if f.typ.Struct? {
        LeavesDetermine(f.typ, 0, parent + [FieldName(f)], path + [i], m.fields[i], n.fields[i]);
        assert m.fields[i].fields == n.fields[i].fields;
      } else {
        assert here[0].index[|path| + 1..] == [];
        assert LeafAgrees(here[0], |path| + 1, m.fields[i], n.fields[i]);
      }
    }
  }

  predicate LeafAgrees(leaf: LeafField, depth: nat, m: Node, n: Node) {
    depth <= |leaf.index| && FieldByIndex(m, leaf.index[depth..]) == FieldByIndex(n, leaf.index[depth..])
  }

  lemma SameLeavesSameValue(t: Type, m: Node, n: Node)
    requires t.Struct? && HasType(m, t) && HasType(n, t)
    requires forall k :: 0 <= k < |Leaves(t)| ==>
                           FieldByIndex(m, Leaves(t)[k].index) == FieldByIndex(n, Leaves(t)[k].index)
    ensures m == n
  {
    forall k | 0 <= k < |Leaves(t)| ensures LeafAgrees(Leaves(t)[k], 0, m, n) {
      assert Leaves(t)[k].index[0..] == Leaves(t)[k].index;
    }
    assert Leaves(t) == LeavesFrom(t, 0, [], []);
    LeavesDetermine(t, 0, [], [], m, n);
    assert m.fields == n.fields;
  }
}
