/**
 What the codec sees through Go reflection: types made of leaves and structs with
 field tags, values of those types, and access to a field by its index path.
 */
module Reflect {
  import opened Wrappers

  datatype Width = W8 | W16 | W32 | W64

  /** The kinds of a leaf; `SliceKind` may nest. */
  datatype Kind =
    | BoolKind
    | IntKind(width: Width)
    | UintKind(width: Width)
    | StringKind
    | SliceKind(elem: Kind)

  datatype Value =
    | BoolValue(b: bool)
    | IntValue(i: int)
    | UintValue(u: nat)
    | StringValue(s: string)
    | SliceValue(elems: seq<Value>)

  function Modulus(w: Width): (m: int)
    ensures m > 0
  {
    match w
    case W8 => 0x100
    case W16 => 0x1_0000
    case W32 => 0x1_0000_0000
    case W64 => 0x1_0000_0000_0000_0000
  }

  /** `reflect.Value.SetInt` and `SetUint` keep the low bits of the field's width. */
  function TruncateInt(w: Width, n: int): (r: int)
    ensures IntFits(w, r) && (IntFits(w, n) ==> r == n)
  {
    match w
    case W8 => (n + 0x80) % 0x100 - 0x80
    case W16 => (n + 0x8000) % 0x1_0000 - 0x8000
    case W32 => (n + 0x8000_0000) % 0x1_0000_0000 - 0x8000_0000
    case W64 => (n + 0x8000_0000_0000_0000) % 0x1_0000_0000_0000_0000 - 0x8000_0000_0000_0000
  }

  function TruncateUint(w: Width, n: nat): (r: nat)
    ensures UintFits(w, r) && (UintFits(w, n) ==> r == n)
  {
    n % Modulus(w)
  }

  predicate IntFits(w: Width, n: int) { -Modulus(w) <= 2 * n < Modulus(w) }

  predicate UintFits(w: Width, n: int) { 0 <= n < Modulus(w) }

  predicate WellTyped(k: Kind, v: Value)
    decreases v
  {
    match (k, v)
    case (BoolKind, BoolValue(_)) => true
    case (IntKind(w), IntValue(i)) => IntFits(w, i)
    case (UintKind(w), UintValue(u)) => UintFits(w, u)
    case (StringKind, StringValue(_)) => true
    case (SliceKind(e), SliceValue(vs)) => forall i :: 0 <= i < |vs| ==> WellTyped(e, vs[i])
    case _ => false
  }

  function ZeroValue(k: Kind): (v: Value)
    ensures WellTyped(k, v)
  {
    match k
    case BoolKind => BoolValue(false)
    case IntKind(_) => IntValue(0)
    case UintKind(_) => UintValue(0)
    case StringKind => StringValue("")
    case SliceKind(_) => SliceValue([])
  }

  /** A struct field: its Go name, its `pbs` and `sep` tags (an absent tag is None), its type. */
  datatype Field = Field(name: string, pbs: Option<string>, sep: Option<char>, typ: Type)

  datatype Type = Leaf(kind: Kind) | Struct(fields: seq<Field>)

  /** A value together with its type, as `reflect.Value` carries both. */
  datatype Node = LeafNode(kind: Kind, value: Value) | StructNode(fields: seq<Node>)

  predicate HasType(n: Node, t: Type)
    decreases t
  {
    match t
    case Leaf(k) => n.LeafNode? && n.kind == k && WellTyped(k, n.value)
    case Struct(fs) =>
      && n.StructNode?
      && |n.fields| == |fs|
      && forall i :: 0 <= i < |fs| ==> HasType(n.fields[i], fs[i].typ)
  }

  function Zero(t: Type): (n: Node)
    ensures HasType(n, t)
  {
    match t
    case Leaf(k) => LeafNode(k, ZeroValue(k))
    case Struct(fs) => StructNode(seq(|fs|, i requires 0 <= i < |fs| => Zero(fs[i].typ)))
  }

  // ---- access by index path (`reflect.Value.FieldByIndex`) ----

  function TypeAt(t: Type, path: seq<nat>): Option<Type>
    decreases path
  {
    if path == [] then Some(t)
    else if t.Struct? && path[0] < |t.fields| then TypeAt(t.fields[path[0]].typ, path[1..])
    else None
  }

  function FieldByIndex(n: Node, path: seq<nat>): Option<Node>
    decreases path
  {
    if path == [] then Some(n)
    else if n.StructNode? && path[0] < |n.fields| then FieldByIndex(n.fields[path[0]], path[1..])
    else None
  }

  /** Assigning the field at `path`, as `Set` on the value `FieldByIndex` returns. */
  function SetByIndex(n: Node, path: seq<nat>, m: Node): (r: Node)
    requires FieldByIndex(n, path).Some?
    ensures FieldByIndex(r, path) == Some(m)
    decreases path
  {
    if path == [] then m
    else StructNode(n.fields[path[0] := SetByIndex(n.fields[path[0]], path[1..], m)])
  }

  /** The paths part ways at some position both have. */
  ghost predicate Disjoint(p: seq<nat>, q: seq<nat>) {
    exists d :: DivergeAt(p, q, d)
  }

  predicate DivergeAt<T(==)>(p: seq<T>, q: seq<T>, d: int) {
    0 <= d < |p| && d < |q| && p[..d] == q[..d] && p[d] != q[d]
  }

  lemma {:induction false} SetKeepsOthers(n: Node, p: seq<nat>, m: Node, q: seq<nat>, d: nat)
    requires FieldByIndex(n, p).Some? && DivergeAt(p, q, d)
    ensures FieldByIndex(SetByIndex(n, p, m), q) == FieldByIndex(n, q)
    decreases d
  {
    if d > 0 {
      assert p[0] == p[..d][0] == q[..d][0] == q[0];
      assert p[1..][..d - 1] == p[..d][1..] && q[1..][..d - 1] == q[..d][1..];
      SetKeepsOthers(n.fields[p[0]], p[1..], m, q[1..], d - 1);
    }
  }

  lemma {:induction false} SetKeepsType(n: Node, t: Type, p: seq<nat>, m: Node)
    requires HasType(n, t) && FieldByIndex(n, p).Some?
    requires TypeAt(t, p).Some? && HasType(m, TypeAt(t, p).value)
    ensures HasType(SetByIndex(n, p, m), t)
    decreases p
  {
    if p == [] {
    } else {
      SetKeepsType(n.fields[p[0]], t.fields[p[0]].typ, p[1..], m);
    }
  }

  /** Writing back what is there changes nothing. */
  lemma {:induction false} SetSame(n: Node, p: seq<nat>)
    requires FieldByIndex(n, p).Some?
    ensures SetByIndex(n, p, FieldByIndex(n, p).value) == n
    decreases p
  {
    if p == [] {
    } else {
      SetSame(n.fields[p[0]], p[1..]);
    }
  }

  lemma {:induction false} TypedField(n: Node, t: Type, p: seq<nat>)
    requires HasType(n, t) && TypeAt(t, p).Some?
    ensures FieldByIndex(n, p).Some? && HasType(FieldByIndex(n, p).value, TypeAt(t, p).value)
    decreases p
  {
    if p == [] {
    } else {
      TypedField(n.fields[p[0]], t.fields[p[0]].typ, p[1..]);
    }
  }
}
