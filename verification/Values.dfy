/** When a value survives being written as text and parsed back. */
module Values {
  import opened Wrappers
  import opened GoStrings
  import opened Strconv
  import opened Reflect
  import opened Layout
  import opened Utils
  import opened Encode
  import D = Decode

  /** No list element holds the separator, and no list is the single empty text. */
  predicate Faithful(v: Value, separator: char)
    decreases v
  {
    v.SliceValue? ==>
      && (forall i :: 0 <= i < |v.elems| ==>
            Faithful(v.elems[i], separator) && separator !in Text(v.elems[i], separator))
      && !(|v.elems| == 1 && Text(v.elems[0], separator) == "")
  }

  /** What the format carries: a faithful value whose text has no outer NUL. */
  predicate Carried(v: Value, separator: char) {
    Faithful(v, separator) && IsTrimmed(Text(v, separator), {NUL})
  }

  lemma {:induction false} ParseText(ram: HumanUnits, k: Kind, v: Value, separator: char)
    requires WellTyped(k, v) && Faithful(v, separator)
    ensures D.ParseValue(ram, k, Text(v, separator), separator) == Some(v)
    decreases v, 1
  {
    match v
    case BoolValue(b) => ParseFormatBool(b);
    case IntValue(i) => ParseFormatInt(i);
    case UintValue(u) => ParseFormatUint(u);
    case StringValue(s) =>
    case SliceValue(vs) =>
      ParseTexts(ram, k.elem, vs, separator);
      if vs != [] {
        var texts := Texts(vs, separator);
        forall part | part in texts ensures separator !in part {
          var i :| 0 <= i < |texts| && texts[i] == part;
          assert texts[i] == Text(vs[i], separator);
        }
        SplitJoin(texts, separator);
        if |texts| > 1 {
          assert Join(texts, separator) != "";
        }
      }
  }

  lemma {:induction false} ParseTexts(ram: HumanUnits, e: Kind, vs: seq<Value>, separator: char)
    requires forall i :: 0 <= i < |vs| ==> WellTyped(e, vs[i]) && Faithful(vs[i], separator)
    ensures D.ParseValues(ram, e, Texts(vs, separator), separator) == Some(vs)
    decreases vs, 0
  {
    hide Text, Faithful, WellTyped, D.ParseValue, D.ParseValues;
    if vs == [] {
      NoTexts(ram, e, separator);
    } else {
      var n := |vs| - 1;
      ParseTexts(ram, e, vs[..n], separator);
      ParseText(ram, e, vs[n], separator);
      OneMoreText(ram, e, vs, separator);
    }
  }

  lemma NoTexts(ram: HumanUnits, e: Kind, separator: char)
    ensures D.ParseValues(ram, e, Texts([], separator), separator) == Some([])
  {
  }

  lemma OneMoreText(ram: HumanUnits, e: Kind, vs: seq<Value>, separator: char)
    requires vs != []
    requires D.ParseValues(ram, e, Texts(vs[..|vs| - 1], separator), separator) == Some(vs[..|vs| - 1])
    requires D.ParseValue(ram, e, Text(vs[|vs| - 1], separator), separator) == Some(vs[|vs| - 1])
    ensures D.ParseValues(ram, e, Texts(vs, separator), separator) == Some(vs)
  {
    hide Text, Texts, WellTyped, D.ParseValue;
    var n, texts := |vs| - 1, Texts(vs, separator);
    assert texts[..n] == Texts(vs[..n], separator);
    assert vs == vs[..n] + [vs[n]];
  }

  /** A scalar, or a list of strings: the kinds of every field of `Job`. */
  predicate Simple(k: Kind) { k.SliceKind? ==> k.elem == StringKind }

  function Strings(texts: seq<string>): (vs: seq<Value>)
    ensures |vs| == |texts| && forall i :: 0 <= i < |vs| ==> vs[i] == StringValue(texts[i])
  {
    seq(|texts|, i requires 0 <= i < |texts| => StringValue(texts[i]))
  }

  lemma {:induction false} ParseStrings(ram: HumanUnits, texts: seq<string>, separator: char)
    ensures D.ParseValues(ram, StringKind, texts, separator) == Some(Strings(texts))
  {
    if texts == [] {
    } else {
      var init := texts[..|texts| - 1];
      ParseStrings(ram, init, separator);
      assert Strings(texts) == Strings(init) + [StringValue(texts[|texts| - 1])];
    }
  }

  function ListParts(text: string, separator: char): seq<string> {
    if text == "" then [] else Split(text, separator)
  }

  lemma ParsedList(ram: HumanUnits, text: string, separator: char)
    ensures D.ParseValue(ram, SliceKind(StringKind), text, separator)
         == Some(SliceValue(Strings(ListParts(text, separator))))
  {
    hide Split;
    ParseStrings(ram, ListParts(text, separator), separator);
  }

  lemma StringTexts(texts: seq<string>, separator: char)
    ensures Texts(Strings(texts), separator) == texts
  {
  }

  lemma ListPartsJoin(text: string, separator: char)
    ensures Join(ListParts(text, separator), separator) == text
  {
    JoinSplit(text, separator);
    hide Split;
  }

  /** Encoding the parse of a list's text gives the same text back, whatever the text. */
  lemma ListTextStable(ram: HumanUnits, text: string, separator: char)
    ensures D.ParseValue(ram, SliceKind(StringKind), text, separator).Some?
    ensures Text(D.ParseValue(ram, SliceKind(StringKind), text, separator).value, separator) == text
  {
    hide D.ParseValue, ListParts, Join;
    ParsedList(ram, text, separator);
    StringTexts(ListParts(text, separator), separator);
    ListPartsJoin(text, separator);
  }

  /** A parsed list is faithful, whatever the text. */
  lemma ParsedListFaithful(ram: HumanUnits, text: string, separator: char)
    ensures D.ParseValue(ram, SliceKind(StringKind), text, separator).Some?
    ensures Faithful(D.ParseValue(ram, SliceKind(StringKind), text, separator).value, separator)
  {
    ParsedList(ram, text, separator);
    SplitPartsHaveNoSep(text, separator);
    ListPartsJoin(text, separator);
    hide D.ParseValue, Split;
    var parts := ListParts(text, separator);
    forall i | 0 <= i < |parts|
      ensures Faithful(StringValue(parts[i]), separator) && separator !in Text(StringValue(parts[i]), separator)
    {
      assert parts[i] in parts;
    }
    if |parts| == 1 {
      assert parts[0] == text;
    }
  }

  lemma ScalarTrimmed(v: Value, separator: char)
    requires v.BoolValue? || v.IntValue? || v.UintValue?
    ensures Carried(v, separator)
  {
  }

  /** Every text the encoder writes for a simple value parses, trimmed as the decoder trims it. */
  lemma SimpleParses(ram: HumanUnits, k: Kind, v: Value, separator: char)
    requires Simple(k) && WellTyped(k, v)
    ensures D.ParseValue(ram, k, D.TrimNul(Text(v, separator)), separator).Some?
  {
    match v
    case SliceValue(_) => ListTextStable(ram, D.TrimNul(Text(v, separator)), separator);
    case StringValue(_) =>
    case _ =>
      ScalarTrimmed(v, separator);
      ParseText(ram, k, v, separator);
  }

  /** What any successful parse of trimmed text yields is carried by the format. */
  lemma ParsedIsCarried(ram: HumanUnits, k: Kind, text: string, separator: char)
    requires Simple(k) && IsTrimmed(text, {NUL}) && D.ParseValue(ram, k, text, separator).Some?
    ensures Carried(D.ParseValue(ram, k, text, separator).value, separator)
  {
    var v := D.ParseValue(ram, k, text, separator).value;
    match k
    case SliceKind(_) =>
      ListTextStable(ram, text, separator);
      ParsedListFaithful(ram, text, separator);
    case StringKind =>
    case _ => ScalarTrimmed(v, separator);
  }

  /** The format gives a value back exactly when it carries it. */
  lemma CarriedExactly(ram: HumanUnits, k: Kind, v: Value, separator: char)
    requires Simple(k) && WellTyped(k, v)
    ensures D.ParseValue(ram, k, D.TrimNul(Text(v, separator)), separator) == Some(v) <==> Carried(v, separator)
  {
    var text := Text(v, separator);
    var trimmed := D.TrimNul(text);
    if Carried(v, separator) {
      ParseText(ram, k, v, separator);
    } else if v.SliceValue? && D.ParseValue(ram, k, trimmed, separator) == Some(v) {
      ListTextStable(ram, trimmed, separator);
      ParsedListFaithful(ram, trimmed, separator);
      assert false;
    } else if !v.SliceValue? && !v.StringValue? {
      ScalarTrimmed(v, separator);
      assert false;
    }
  }
}
