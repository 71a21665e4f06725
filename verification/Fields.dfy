/** Printed fields "key=value", as chunks of `exec_vnode` and `schedselect` hold them. */
module Fields {
  import opened GoStrings

  /** No character of the text is one of these. */
  predicate Avoids(s: string, chars: set<char>) {
    forall i :: 0 <= i < |s| ==> s[i] !in chars
  }

  function FieldText(f: (string, string)): string { f.0 + ['='] + f.1 }

  function FieldTexts(fields: seq<(string, string)>): (texts: seq<string>)
    ensures |texts| == |fields| && forall i :: 0 <= i < |texts| ==> texts[i] == FieldText(fields[i])
  {
    seq(|fields|, i requires 0 <= i < |fields| => FieldText(fields[i]))
  }

  lemma FieldAvoids(f: (string, string), c: char)
    requires c != '=' && Avoids(f.0, {c}) && Avoids(f.1, {c})
    ensures Avoids(FieldText(f), {c})
  {
  }

  lemma {:induction false} JoinAvoids(parts: seq<string>, sep: char, chars: set<char>)
    requires sep !in chars && forall i :: 0 <= i < |parts| ==> Avoids(parts[i], chars)
    ensures Avoids(Join(parts, sep), chars)
  {
    if |parts| > 1 {
      JoinAvoids(parts[1..], sep, chars);
    }
  }

  lemma SplitFields(fields: seq<(string, string)>)
    requires fields != []
    requires forall i :: 0 <= i < |fields| ==> Avoids(fields[i].0, {':'}) && Avoids(fields[i].1, {':'})
    ensures Split(Join(FieldTexts(fields), ':'), ':') == FieldTexts(fields)
  {
    forall part | part in FieldTexts(fields) ensures ':' !in part {
      var i :| 0 <= i < |fields| && FieldTexts(fields)[i] == part;
      FieldAvoids(fields[i], ':');
    }
    SplitJoin(FieldTexts(fields), ':');
  }

  // ---- four fields behind a head ----

  lemma JoinOne(e: string, sep: char)
    ensures Join([e], sep) == e
  {
  }

  lemma JoinMore(a: string, parts: seq<string>, sep: char, joined: string)
    requires parts != [] && Join(parts, sep) == joined
    ensures Join([a] + parts, sep) == a + ([sep] + joined)
  {
    hide Join;
    JoinCons(a, parts, sep);
  }

  lemma JoinFive(a: string, b: string, c: string, d: string, e: string, sep: char)
    ensures Join([a, b, c, d, e], sep) == a + ([sep] + b) + ([sep] + c) + ([sep] + d) + ([sep] + e)
  {
    hide Join;
    JoinOne(e, sep);
    JoinMore(d, [e], sep, e);
    JoinMore(c, [d] + [e], sep, d + ([sep] + e));
    JoinMore(b, [c] + ([d] + [e]), sep, c + ([sep] + (d + ([sep] + e))));
    JoinMore(a, [b] + ([c] + ([d] + [e])), sep, b + ([sep] + (c + ([sep] + (d + ([sep] + e))))));
    assert [a] + ([b] + ([c] + ([d] + [e]))) == [a, b, c, d, e];
    FlatFive(a, [sep], b, c, d, e);
  }

  lemma FlatFive(a: string, s: string, b: string, c: string, d: string, e: string)
    ensures a + (s + (b + (s + (c + (s + (d + (s + e))))))) == a + (s + b) + (s + c) + (s + d) + (s + e)
  {
    assert s + (d + (s + e)) == (s + d) + (s + e);
    assert s + (c + ((s + d) + (s + e))) == (s + c) + (s + d) + (s + e);
    assert s + (b + ((s + c) + (s + d) + (s + e))) == (s + b) + (s + c) + (s + d) + (s + e);
  }

  /** The separator and a field, with its key spelled out. */
  lemma FieldIs(key: string, value: string, spelled: string)
    requires spelled == ":" + key + "="
    ensures [':'] + FieldText((key, value)) == spelled + value
  {
  }

  lemma FourFields(h: string, a: string, b: string, c: string, d: string, w: string, x: string, y: string, z: string)
    ensures h + (a + w) + (b + x) + (c + y) + (d + z) == h + a + w + b + x + c + y + d + z
  {
    assert h + (a + w) == h + a + w;
    assert (h + a + w) + (b + x) == h + a + w + b + x;
    assert (h + a + w + b + x) + (c + y) == h + a + w + b + x + c + y;
  }
}
