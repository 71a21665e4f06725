/** How long the texts of a job are: what is decoded from a file of moderate size can be encoded again. */
module Sizes {
  import opened Wrappers
  import opened GoStrings
  import opened Strconv
  import opened Reflect
  import opened JobFile
  import opened Layout
  import opened Utils
  import opened Decode
  import opened Values
  import opened Codec
  import opened RoundTrip
  import E = Encode

  // ---- numbers are short ----

  function Pow10(k: nat): (p: nat)
    ensures p > 0
  {
    if k == 0 then 1 else 10 * Pow10(k - 1)
  }

  lemma {:induction false} DigitsBound(n: nat, k: nat)
    requires k > 0 && n < Pow10(k)
    ensures |FormatUint(n)| <= k
  {
    if n < 10 {
    } else {
      assert k > 1 && n / 10 < Pow10(k - 1);
      DigitsBound(n / 10, k - 1);
    }
  }

  lemma LargePowers()
    ensures Pow10(19) == 10_000_000_000_000_000_000 && Pow10(20) == 100_000_000_000_000_000_000
  {
    assert Pow10(5) == 100_000;
    assert Pow10(10) == 10_000_000_000;
    assert Pow10(15) == 1_000_000_000_000_000;
  }

  /** A scalar of at most 64 bits that is no string prints in twenty characters. */
  lemma ScalarIsShort(k: Kind, v: Value, separator: char)
    requires WellTyped(k, v) && !v.StringValue? && !v.SliceValue?
    ensures |E.Text(v, separator)| <= 20
  {
    LargePowers();
    match v
    case BoolValue(_) =>
    case IntValue(i) => DigitsBound(if i < 0 then -i else i, 19);
    case UintValue(u) => DigitsBound(u, 20);
  }

  // ---- decoded texts are no longer than the file ----

  predicate SmallLeaf(t: Type, job: Node, i: nat, bound: int)
    requires GoodType(t) && HasType(job, t) && i < |Leaves(t)|
  {
    |E.Text(LeafValue(t, job, i), Leaves(t)[i].separator)| <= bound
  }

  /** No field's text is longer than `bound`. */
  predicate SmallTexts(t: Type, job: Node, bound: int)
    requires GoodType(t) && HasType(job, t)
  {
    forall i :: 0 <= i < |Leaves(t)| ==> SmallLeaf(t, job, i, bound)
  }

  /** What a text parses to prints in no more characters, or in twenty. */
  lemma ParsedIsSmall(ram: HumanUnits, k: Kind, text: string, separator: char, bound: int)
    requires Simple(k) && ParseValue(ram, k, text, separator).Some? && |text| <= bound && 20 <= bound
    ensures |E.Text(ParseValue(ram, k, text, separator).value, separator)| <= bound
  {
    var v := ParseValue(ram, k, text, separator).value;
    match k
    case SliceKind(_) => ListTextStable(ram, text, separator);
    case StringKind =>
    case _ => ScalarIsShort(k, v, separator);
  }

  /** The text of the leaf's value is no longer than `bound`. */
  function SmallTest(t: Type, bound: int): LeafTest
    requires GoodType(t)
  {
    var leaves := Leaves(t);
    (i: nat, v: Value) => i < |leaves| ==> |E.Text(v, leaves[i].separator)| <= bound
  }

  lemma SmallIsTest(t: Type, job: Node, bound: int)
    requires GoodType(t) && HasType(job, t)
    ensures SmallTexts(t, job, bound) <==> Passes(t, job, SmallTest(t, bound))
  {
    hide Leaves, DistinctNames, E.Text, LeafValue, HasType;
    if SmallTexts(t, job, bound) {
      forall i | 0 <= i < |Leaves(t)| ensures SmallTest(t, bound)(i, LeafValue(t, job, i)) {
        assert SmallLeaf(t, job, i, bound);
      }
    }
    if Passes(t, job, SmallTest(t, bound)) {
      forall i | 0 <= i < |Leaves(t)| ensures SmallLeaf(t, job, i, bound) {
        assert SmallTest(t, bound)(i, LeafValue(t, job, i));
      }
    }
  }

  lemma ParsedPassSmall(t: Type, ram: HumanUnits, bound: int)
    requires GoodType(t) && SimpleType(t) && 20 <= bound
    ensures ParsedPass(t, ram, SmallTest(t, bound), bound)
  {
    hide Leaves, DistinctNames, E.Text, ParseValue;
    forall i, text | 0 <= i < |Leaves(t)| && IsTrimmed(text, {NUL}) && |text| <= bound
      ensures ParsedPassesAt(t, ram, SmallTest(t, bound), i, text)
    {
      if ParseValue(ram, Leaves(t)[i].kind, text, Leaves(t)[i].separator).Some? {
        ParsedIsSmall(ram, Leaves(t)[i].kind, text, Leaves(t)[i].separator, bound);
      }
    }
  }

  lemma ZeroIsSmall(t: Type, bound: int)
    requires GoodType(t) && 20 <= bound
    ensures SmallTexts(t, Zero(t), bound)
  {
    hide Leaves, DistinctNames;
    KeyTable(t);
    forall i | 0 <= i < |Leaves(t)| ensures SmallLeaf(t, Zero(t), i, bound) {
      ZeroAt(t, Leaves(t)[i].index, Leaves(t)[i].kind);
      ZeroText(Leaves(t)[i].kind, Leaves(t)[i].separator);
    }
  }

  lemma ZeroText(k: Kind, separator: char)
    ensures |E.Text(ZeroValue(k), separator)| <= 20
  {
  }

  /** Texts comfortably below 2 GiB fit the file. */
  lemma SmallFits(t: Type, job: Node, bound: int)
    requires GoodType(t) && ShortNames(t) && HasType(job, t) && SmallTexts(t, job, bound) && bound <= 0x7FFF_F000
    ensures FitsFile(t, job)
  {
    hide Leaves, E.Text, JobAttrs, DistinctNames, E.FitsRecord;
    forall i | 0 <= i < |Leaves(t)| ensures E.FitsRecord(JobAttrs(t, job)[i]) {
      JobAttrAt(t, job, i);
      assert SmallLeaf(t, job, i, bound);
      ShortFits(JobAttrs(t, job)[i]);
    }
  }

  lemma ShortFits(a: Attr)
    requires |a.name| <= 20 && |a.resource| <= 20 && |a.value| <= 0x7FFF_F000
    ensures E.FitsRecord(a)
  {
  }

  /** Decode, encode, decode equals decode, for every file comfortably below 2 GiB decoded into an empty job. */
  lemma DecodeSmallIsNormal(t: Type, strict: bool, ram: HumanUnits, data: string, job0: Node)
    requires GoodType(t) && CleanNames(t) && SimpleType(t) && ShortNames(t) && HasType(job0, t)
    requires |data| <= 0x7FFF_F000
    ensures var job := DecodeFile(JobConfig(t, strict, ram), Zero(t), data).1;
            FitsFile(t, job) && DecodeFile(JobConfig(t, strict, ram), job0, Marshalled(t, job)) == (Accepted(""), job)
  {
    hide DecodeLoop, GoodType, CleanNames, SimpleType, ShortNames, SmallTexts, FitsFile, JobConfig, Marshalled, Zero;
    hide Passes, ParsedPass, SmallTest;
    var c, bound := JobConfig(t, strict, ram), 0x7FFF_F000;
    ZeroIsSmall(t, bound);
    SmallIsTest(t, Zero(t), bound);
    SmallIsTest(t, DecodeFile(c, Zero(t), data).1, bound);
    ParsedPassSmall(t, ram, bound);
    if |data| >= START_POS - HEADER_SIZE {
      DecodeLoopKeeps(
        t, strict, ram, Zero(t), NO_ATTR, data[START_POS - HEADER_SIZE..], SmallTest(t, bound), bound);
    }
    SmallFits(t, DecodeFile(c, Zero(t), data).1, bound);
    DecodeIsNormal(t, strict, ram, Zero(t), data, job0);
  }

  // ---- one field given a value ----

  /** The job with leaf `k` set to a value. */
  function WithLeaf(t: Type, job: Node, k: nat, v: Value): (r: Node)
    requires GoodType(t) && HasType(job, t) && k < |Leaves(t)| && WellTyped(Leaves(t)[k].kind, v)
    ensures HasType(r, t) && FieldByIndex(r, Leaves(t)[k].index) == Some(LeafNode(Leaves(t)[k].kind, v))
  {
    KeyTable(t);
    TypedField(job, t, Leaves(t)[k].index);
    SetKeepsType(job, t, Leaves(t)[k].index, LeafNode(Leaves(t)[k].kind, v));
    SetByIndex(job, Leaves(t)[k].index, LeafNode(Leaves(t)[k].kind, v))
  }

  lemma WithLeafOthers(t: Type, job: Node, k: nat, v: Value, i: nat)
    requires GoodType(t) && HasType(job, t) && k < |Leaves(t)| && WellTyped(Leaves(t)[k].kind, v)
    requires i < |Leaves(t)| && i != k
    ensures FieldByIndex(WithLeaf(t, job, k, v), Leaves(t)[i].index) == FieldByIndex(job, Leaves(t)[i].index)
  {
    hide Leaves, DistinctNames;
    var leaf := Leaves(t)[k];
    KeyTable(t);
    TypedField(job, t, leaf.index);
    LeavesApart(t, k, i);
    var d :| DivergeAt(leaf.index, Leaves(t)[i].index, d);
    SetKeepsOthers(job, leaf.index, LeafNode(leaf.kind, v), Leaves(t)[i].index, d);
  }

  lemma WithLeafValues(t: Type, job: Node, k: nat, v: Value, i: nat)
    requires GoodType(t) && HasType(job, t) && k < |Leaves(t)| && WellTyped(Leaves(t)[k].kind, v) && i < |Leaves(t)|
    ensures LeafValue(t, WithLeaf(t, job, k, v), i) == if i == k then v else LeafValue(t, job, i)
  {
    hide Leaves, DistinctNames, WithLeaf, LeafValue, FieldByIndex, HasType, WellTyped;
    var after, leaf := WithLeaf(t, job, k, v), Leaves(t)[i];
    if i != k {
      WithLeafOthers(t, job, k, v, i);
    }
    LeafIs(t, after, i, if i == k then v else LeafValue(t, job, i));
  }

  lemma LeafIs(t: Type, job: Node, i: nat, v: Value)
    requires GoodType(t) && HasType(job, t) && i < |Leaves(t)|
    requires FieldByIndex(job, Leaves(t)[i].index) == Some(LeafNode(Leaves(t)[i].kind, v))
    ensures LeafValue(t, job, i) == v
  {
    hide Leaves, DistinctNames, FieldByIndex, HasType;
  }

  /** A value the format carries keeps a job in the domain; any other takes it out. */
  lemma WithLeafDomain(t: Type, job: Node, k: nat, v: Value)
    requires GoodType(t) && HasType(job, t) && k < |Leaves(t)| && WellTyped(Leaves(t)[k].kind, v)
    requires InDomain(t, job)
    ensures InDomain(t, WithLeaf(t, job, k, v)) <==> Carried(v, Leaves(t)[k].separator)
  {
    hide Leaves, DistinctNames, Carried, WithLeaf;
    var after := WithLeaf(t, job, k, v);
    forall i | 0 <= i < |Leaves(t)|
      ensures CarriedLeaf(t, after, i) <==> i != k || Carried(v, Leaves(t)[k].separator)
    {
      WithLeafValues(t, job, k, v, i);
      assert CarriedLeaf(t, job, i);
    }
    assert CarriedLeaf(t, after, k) <==> Carried(v, Leaves(t)[k].separator);
    hide CarriedLeaf;
    if Carried(v, Leaves(t)[k].separator) {
      assert InDomain(t, after);
    }
  }

  lemma WithLeafSmall(t: Type, job: Node, k: nat, v: Value, bound: int)
    requires GoodType(t) && HasType(job, t) && k < |Leaves(t)| && WellTyped(Leaves(t)[k].kind, v)
    requires SmallTexts(t, job, bound) && |E.Text(v, Leaves(t)[k].separator)| <= bound
    ensures SmallTexts(t, WithLeaf(t, job, k, v), bound)
  {
    hide Leaves, DistinctNames, WithLeaf, E.Text;
    forall i | 0 <= i < |Leaves(t)| ensures SmallLeaf(t, WithLeaf(t, job, k, v), i, bound) {
      WithLeafValues(t, job, k, v, i);
      assert SmallLeaf(t, job, i, bound);
    }
  }
}
