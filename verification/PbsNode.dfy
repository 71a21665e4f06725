/** The node states of `internal/pbsnode/pbsnode.go`: the bit field of a state list, and availability. */
module PbsNode {
  import opened Wrappers
  import opened GoStrings
  import opened Strconv

  // ---- the tables of the program ----

  /** The `states` map of `NodeState`. */
  const VALUES: map<string, nat> := map[
    "free" := 1,
    "busy" := 2,
    "job-busy" := 4,
    "job-exclusive" := 8,
    "resv-exclusive" := 16,
    "offline" := 32,
    "maintenance" := 64,
    "down" := 128,
    "provisioning" := 256,
    "stale" := 512,
    "state-unknown" := 1024,
    "unresolvable" := 2048,
    "wait-provisioning" := 4096,
    "sleep" := 8192,
    "powered-off" := 16384,
    "powering-down" := 32768,
    "powering-on" := 65536
  ]

  /** `validStates` of `NodeStates`. */
  const VALID_STATES: seq<string> := [
    "busy", "down", "free", "job-busy", "job-exclusive", "maintenance", "offline", "powered-off", "powering-down",
    "powering-on", "provisioning", "resv-exclusive", "sleep", "stale", "state-unknown", "unresolvable",
    "wait-provisioning"
  ]

  /** `availableStates` and `unavailableStates` of `IsAvailable`. */
  const AVAILABLE_STATES: seq<string> := ["busy", "free", "job-busy", "job-exclusive", "resv-exclusive"]

  const UNAVAILABLE_STATES: seq<string> := [
    "down", "maintenance", "offline", "provisioning", "stale", "state-unknown", "unresolvable", "wait-provisioning"
  ]

  /** The number a state adds: zero for unknown names. */
  function StateValue(s: string): nat {
    if s in VALUES then VALUES[s] else 0
  }

  function Total(states: seq<string>): nat {
    if states == [] then 0 else Total(states[..|states| - 1]) + StateValue(states[|states| - 1])
  }

  // ---- the program ----

  method NodeState(state: string) returns (total: Int64)
    ensures total == Wrap64(Total(Split(state, ',')))
  {
    hide StateValue, Split;
    total := 0;
    var states := Split(state, ',');
    for i := 0 to |states|
      invariant total == Wrap64(Total(states[..i]))
    {
      assert states[..i + 1][..i] == states[..i];
      Wrap64Add(Total(states[..i]), StateValue(states[i]));
      total := Wrap64(total + StateValue(states[i]));
    }
    assert states[..|states|] == states;
  }

  /** The lower-cased states, or None when one is unknown; `lower` stands for `strings.ToLower`. */
  function LowerStates(lower: string -> string, states: seq<string>): (r: Option<seq<string>>)
    ensures r.Some? ==> |r.value| == |states| && forall i :: 0 <= i < |states| ==> r.value[i] == lower(states[i])
  {
    if forall i :: 0 <= i < |states| ==> lower(states[i]) in VALID_STATES
    then Some(seq(|states|, i requires 0 <= i < |states| => lower(states[i])))
    else None
  }

  /** `NodeStates` rewrites the split list in place. */
  method NodeStates(lower: string -> string, state: string) returns (r: Option<seq<string>>)
    ensures r == LowerStates(lower, Split(state, ','))
  {
    hide Split, VALID_STATES;
    var split := Split(state, ',');
    var nodeState := new string[|split|](i requires 0 <= i < |split| => split[i]);
    for i := 0 to nodeState.Length
      invariant forall k :: 0 <= k < i ==> nodeState[k] == lower(split[k]) && lower(split[k]) in VALID_STATES
      invariant forall k :: i <= k < nodeState.Length ==> nodeState[k] == split[k]
    {
      var lState := lower(nodeState[i]);
      if lState in VALID_STATES {
        nodeState[i] := lState;
      } else {
        return None;
      }
    }
    assert nodeState[..] == LowerStates(lower, split).value;
    r := Some(nodeState[..]);
  }

  predicate AnyIn(states: seq<string>, names: seq<string>) {
    exists i :: 0 <= i < |states| && states[i] in names
  }

  function Available(lower: string -> string, state: string): Option<bool> {
    match LowerStates(lower, Split(state, ','))
    case None => None
    case Some(states) => Some(AnyIn(states, AVAILABLE_STATES) && !AnyIn(states, UNAVAILABLE_STATES))
  }

  method IsAvailable(lower: string -> string, state: string) returns (r: Option<bool>)
    ensures r == Available(lower, state)
  {
    var nodeStates := NodeStates(lower, state);
    if nodeStates.None? {
      return None;
    }
    r := Some(AnyIn(nodeStates.value, AVAILABLE_STATES) && !AnyIn(nodeStates.value, UNAVAILABLE_STATES));
  }

  // ---- bits ----

  predicate Bit(n: nat, k: nat) {
    if k == 0 then n % 2 == 1 else Bit(n / 2, k - 1)
  }

  /** The number whose bits these are, the first the lowest. */
  function Mask(bits: seq<bool>): nat {
    if bits == [] then 0 else (if bits[0] then 1 else 0) + 2 * Mask(bits[1..])
  }

  lemma {:induction false} MaskBit(bits: seq<bool>, k: nat)
    requires k < |bits|
    ensures Bit(Mask(bits), k) == bits[k]
  {
    if k > 0 {
      MaskBit(bits[1..], k - 1);
    }
  }

  lemma {:induction false} MaskSet(bits: seq<bool>, k: nat)
    requires k < |bits| && !bits[k]
    ensures Mask(bits[k := true]) == Mask(bits) + Pow2(k)
  {
    if k == 0 {
      assert bits[0 := true][1..] == bits[1..];
    } else {
      assert bits[k := true][1..] == bits[1..][k - 1 := true];
      MaskSet(bits[1..], k - 1);
    }
  }

  lemma {:induction false} MaskBound(bits: seq<bool>)
    ensures Mask(bits) < Pow2(|bits|)
  {
    if bits == [] {
    } else {
      MaskBound(bits[1..]);
    }
  }

  lemma {:induction false} MaskNone(n: nat)
    ensures Mask(seq(n, _ => false)) == 0
  {
    if n > 0 {
      assert seq(n, _ => false)[1..] == seq(n - 1, _ => false);
      MaskNone(n - 1);
    }
  }

  // ---- the tables agree ----

  /** The states in the order of their bits. */
  const STATES: seq<string> := [
    "free", "busy", "job-busy", "job-exclusive", "resv-exclusive",
    "offline", "maintenance", "down", "provisioning", "stale", "state-unknown", "unresolvable", "wait-provisioning",
    "sleep", "powered-off", "powering-down", "powering-on"
  ]

  function Pow2(k: nat): (p: nat)
    ensures p > 0
  {
    if k == 0 then 1 else 2 * Pow2(k - 1)
  }

  lemma {:induction false} Pow2Grows(j: nat, k: nat)
    requires j < k
    ensures Pow2(j) < Pow2(k)
  {
    if j + 1 < k {
      Pow2Grows(j, k - 1);
    }
  }

  /** State `k` of the order has the value of bit `k`. */
  predicate HasBit(k: nat) {
    k < |STATES| && STATES[k] in VALUES && VALUES[STATES[k]] == Pow2(k)
  }

  lemma LowBits()
    ensures HasBit(0) && HasBit(1) && HasBit(2) && HasBit(3) && HasBit(4)
  {
  }

  lemma MiddleBits()
    ensures HasBit(5) && HasBit(6) && HasBit(7) && HasBit(8)
  {
  }

  lemma HighBits()
    ensures HasBit(9) && HasBit(10) && HasBit(11) && HasBit(12)
  {
  }

  lemma HighestBits()
    ensures HasBit(13) && HasBit(14) && HasBit(15) && HasBit(16)
  {
  }

  /** The map gives each of the 17 states a bit of its own. */
  lemma AllBits()
    ensures |STATES| == 17 && forall k :: 0 <= k < 17 ==> HasBit(k)
  {
    hide HasBit;
    LowBits();
    MiddleBits();
    HighBits();
    HighestBits();
  }

  /**
   The four tables speak of the same states: the map and the valid states of all seventeen
   bits, the available ones of bits 0 to 4, the unavailable ones of bits 5 to 12.
   */
  lemma TablesAgree(s: string)
    ensures s in VALUES <==> s in STATES
    ensures s in VALID_STATES <==> s in STATES
    ensures s in AVAILABLE_STATES <==> s in STATES[..5]
    ensures s in UNAVAILABLE_STATES <==> s in STATES[5..13]
  {
    var low, high := STATES[..5], STATES[5..13];
    assert low == ["free", "busy", "job-busy", "job-exclusive", "resv-exclusive"];
    assert high == ["offline", "maintenance", "down", "provisioning", "stale", "state-unknown", "unresolvable",
                    "wait-provisioning"];
  }

  function Position(names: seq<string>, s: string): (r: Option<nat>)
    ensures r.Some? ==> r.value < |names| && names[r.value] == s
    ensures r.None? ==> s !in names
  {
    if names == [] then None
    else if names[|names| - 1] == s then Some(|names| - 1)
    else Position(names[..|names| - 1], s)
  }

  /** The bit of a state, if it is known. */
  function StateBit(s: string): (r: Option<nat>)
    ensures r.Some? ==> r.value < |STATES| && STATES[r.value] == s
    ensures r.None? ==> s !in STATES
  {
    Position(STATES, s)
  }

  /** A state adds its bit. */
  lemma ValueIsBit(s: string)
    ensures StateValue(s) == if StateBit(s).Some? then Pow2(StateBit(s).value) else 0
  {
    TablesAgree(s);
    AllBits();
    hide Position, Pow2;
    if StateBit(s).Some? {
      assert HasBit(StateBit(s).value);
    }
  }

  lemma BitOfState(k: nat)
    requires k < |STATES|
    ensures StateBit(STATES[k]) == Some(k)
  {
    AllBits();
    hide Position, Pow2;
    assert STATES[k] in STATES;
    var j := StateBit(STATES[k]).value;
    assert HasBit(j) && HasBit(k);
    if j < k {
      Pow2Grows(j, k);
    } else if k < j {
      Pow2Grows(k, j);
    }
  }

  // ---- the bit field of a list ----

  /** Which states the list names. */
  function Named(states: seq<string>): (bits: seq<bool>)
    ensures |bits| == |STATES| && forall k :: 0 <= k < |bits| ==> bits[k] == (STATES[k] in states)
  {
    seq(|STATES|, k requires 0 <= k < |STATES| => STATES[k] in states)
  }

  /** No known state is named twice. */
  predicate NoneRepeated(states: seq<string>) {
    forall i, j :: 0 <= i < j < |states| && states[i] == states[j] ==> StateBit(states[i]).None?
  }

  lemma NamedMore(states: seq<string>, s: string)
    ensures Named(states + [s]) == if s in STATES then Named(states)[StateBit(s).value := true] else Named(states)
  {
    var more := Named(states + [s]);
    if s in STATES {
      var k := StateBit(s).value;
      forall i | 0 <= i < |STATES| ensures more[i] == Named(states)[k := true][i] {
        if i != k {
          BitOfState(i);
          assert STATES[i] != s;
        }
      }
    } else {
      forall i | 0 <= i < |STATES| ensures more[i] == Named(states)[i] {
        assert STATES[i] in STATES;
      }
    }
  }

  /** The total is never less than the mask of the states named, and equal exactly when none repeats. */
  lemma {:induction false} TotalIsMask(states: seq<string>)
    ensures Total(states) >= Mask(Named(states))
    ensures Total(states) == Mask(Named(states)) <==> NoneRepeated(states)
  {
    hide StateBit, StateValue, Mask, Named, Pow2;
    if states == [] {
      assert Named([]) == seq(|STATES|, _ => false);
      MaskNone(|STATES|);
    } else {
      var n := |states| - 1;
      var init, s := states[..n], states[n];
      TotalIsMask(init);
      assert states == init + [s];
      NamedMore(init, s);
      RepeatedMore(init, s);
      ValueIsBit(s);
      if s in STATES && s !in init {
        MaskSet(Named(init), StateBit(s).value);
      } else if s in STATES {
        assert Named(init)[StateBit(s).value := true] == Named(init);
      }
    }
  }

  lemma RepeatedMore(states: seq<string>, s: string)
    ensures NoneRepeated(states + [s]) <==> NoneRepeated(states) && (s in STATES ==> s !in states)
  {
    hide StateBit;
    var more := states + [s];
    if NoneRepeated(more) {
      forall i, j | 0 <= i < j < |states| && states[i] == states[j] ensures StateBit(states[i]).None? {
        assert more[i] == more[j];
      }
      if i :| 0 <= i < |states| && states[i] == s {
        assert more[i] == more[|states|];
      }
    }
  }

  /**
   `NodeState` as a bit field: each state's bit tells whether the list names it and no other
   bit is set, for any order and with unknown names allowed, exactly when no known name repeats.
   */
  lemma NodeStateBits(state: string)
    ensures var states := Split(state, ',');
            && (Total(states) == Mask(Named(states)) <==> NoneRepeated(states))
            && (NoneRepeated(states) ==> Wrap64(Total(states)) == Total(states))
            && (NoneRepeated(states) ==>
                  forall k :: 0 <= k < |STATES| ==> Bit(Total(states), k) == (STATES[k] in states))
  {
    var states := Split(state, ',');
    TotalIsMask(states);
    MaskBound(Named(states));
    assert Pow2(10) == 1024 && Pow2(17) == 131072;
    forall k | 0 <= k < |STATES| ensures Bit(Mask(Named(states)), k) == (STATES[k] in states) {
      MaskBit(Named(states), k);
    }
  }

  lemma FreeTwice()
    ensures Split("free,free", ',') == ["free", "free"]
  {
    SplitNoSep("free", ',');
    SplitAppend("free", "free", ',');
    hide Split;
    assert "free" + [','] + "free" == "free,free";
    assert ["free"] + ["free"] == ["free", "free"];
  }

  lemma TotalOfTwo(s: string)
    ensures Total([s, s]) == 2 * StateValue(s)
  {
    hide StateValue;
    assert [s, s][..1] == [s] && [s][..0] == [];
    assert Total([]) == 0;
    assert Total([s]) == StateValue(s);
  }

  /** A repeated name breaks the bit field: "free,free" adds up to the bit of "busy". */
  lemma RepetitionMisleads()
    ensures Total(Split("free,free", ',')) == 2 && Bit(2, 1)
    ensures STATES[1] == "busy" && "busy" !in Split("free,free", ',')
  {
    FreeTwice();
    TotalOfTwo("free");
    hide Split, Total;
    LowBits();
    assert STATES[0] == "free" && STATES[1] == "busy";
    assert Pow2(0) == 1 && Pow2(1) == 2;
    assert "busy" != "free" && "busy" !in ["free", "free"];
  }

  /**
   On lists of known lower-case names in which none repeats, a node is available exactly when
   one of the five lowest bits is set and none of the eight above them.
   */
  lemma AvailableByBits(lower: string -> string, state: string)
    requires var states := Split(state, ',');
             && NoneRepeated(states)
             && forall i :: 0 <= i < |states| ==> states[i] in VALID_STATES && lower(states[i]) == states[i]
    ensures var n := Total(Split(state, ','));
            Available(lower, state)
            == Some(AnyBit(n, 0, 5) && !AnyBit(n, 5, 13))
  {
    var states := Split(state, ',');
    var n := Total(states);
    NodeStateBits(state);
    hide Total, Bit, AnyBit, Split, NoneRepeated, AnyIn;
    assert LowerStates(lower, states).value == states;
    AnyByBits(states, n, 0, 5);
    AnyByBits(states, n, 5, 13);
    assert STATES[0..5] == STATES[..5];
    AnyInSame(states, AVAILABLE_STATES, STATES[..5]);
    AnyInSame(states, UNAVAILABLE_STATES, STATES[5..13]);
  }

  lemma AnyInSame(states: seq<string>, a: seq<string>, b: seq<string>)
    requires (a == AVAILABLE_STATES && b == STATES[..5]) || (a == UNAVAILABLE_STATES && b == STATES[5..13])
    ensures AnyIn(states, a) == AnyIn(states, b)
  {
    forall s ensures s in a <==> s in b {
      TablesAgree(s);
    }
    SameNames(states, a, b);
  }

  lemma SameNames(states: seq<string>, a: seq<string>, b: seq<string>)
    requires forall s :: s in a <==> s in b
    ensures AnyIn(states, a) == AnyIn(states, b)
  {
  }

  /** A bit between two positions is set. */
  predicate AnyBit(n: nat, lo: nat, hi: nat) {
    exists k :: lo <= k < hi && Bit(n, k)
  }

  lemma AnyByBits(states: seq<string>, n: nat, lo: nat, hi: nat)
    requires lo <= hi <= |STATES| && forall k :: 0 <= k < |STATES| ==> Bit(n, k) == (STATES[k] in states)
    ensures AnyIn(states, STATES[lo..hi]) <==> AnyBit(n, lo, hi)
  {
    hide Bit;
    if AnyIn(states, STATES[lo..hi]) {
      var i :| 0 <= i < |states| && states[i] in STATES[lo..hi];
      var k :| 0 <= k < hi - lo && STATES[lo..hi][k] == states[i];
      assert STATES[lo + k] in states && Bit(n, lo + k);
      assert AnyBit(n, lo, hi);
    }
    if AnyBit(n, lo, hi) {
      var k :| lo <= k < hi && Bit(n, k);
      assert STATES[k] in states;
      var i :| 0 <= i < |states| && states[i] == STATES[k];
      assert STATES[lo..hi][k - lo] == states[i] && states[i] in STATES[lo..hi];
      assert AnyIn(states, STATES[lo..hi]);
    }
  }

  // ---- names and numbers ----

  lemma LowNumbers()
    ensures StateValue("free") == 1 && StateValue("busy") == 2 && StateValue("job-busy") == 4
    ensures StateValue("job-exclusive") == 8 && StateValue("resv-exclusive") == 16 && StateValue("offline") == 32
    ensures StateValue("maintenance") == 64 && StateValue("down") == 128 && StateValue("") == 0
  {
  }

  lemma MiddleNumbers()
    ensures StateValue("provisioning") == 256 && StateValue("stale") == 512
    ensures StateValue("state-unknown") == 1024 && StateValue("unresolvable") == 2048
  {
  }

  lemma HighNumbers()
    ensures StateValue("wait-provisioning") == 4096 && StateValue("sleep") == 8192
    ensures StateValue("powered-off") == 16384 && StateValue("powering-down") == 32768
    ensures StateValue("powering-on") == 65536
  {
  }

  /** What each name adds. */
  lemma StateNumbers()
    ensures StateValue("free") == 1 && StateValue("busy") == 2 && StateValue("job-busy") == 4
    ensures StateValue("job-exclusive") == 8 && StateValue("resv-exclusive") == 16 && StateValue("offline") == 32
    ensures StateValue("maintenance") == 64 && StateValue("down") == 128 && StateValue("provisioning") == 256
    ensures StateValue("stale") == 512 && StateValue("state-unknown") == 1024 && StateValue("unresolvable") == 2048
    ensures StateValue("wait-provisioning") == 4096 && StateValue("sleep") == 8192
    ensures StateValue("powered-off") == 16384 && StateValue("powering-down") == 32768
    ensures StateValue("powering-on") == 65536 && StateValue("") == 0
  {
    hide StateValue;
    LowNumbers();
    MiddleNumbers();
    HighNumbers();
  }

  lemma TotalOfOne(a: string)
    ensures Total([a]) == StateValue(a)
  {
    hide StateValue;
    assert [a][..0] == [] && Total([]) == 0;
  }

  lemma TotalOfThree(a: string, b: string, c: string)
    ensures Total([a, b, c]) == StateValue(a) + StateValue(b) + StateValue(c)
  {
    TotalOfOne(a);
    hide StateValue;
    assert [a, b, c][..2] == [a, b] && [a, b][..1] == [a];
    assert Total([a, b]) == Total([a]) + StateValue(b);
  }

  lemma SplitNames(a: string, b: string, c: string)
    requires ',' !in a && ',' !in b && ',' !in c
    ensures Split(a, ',') == [a] && Split(a + "," + b, ',') == [a, b] && Split(a + "," + b + "," + c, ',') == [a, b, c]
  {
    SplitNoSep(a, ',');
    SplitNoSep(b, ',');
    SplitNoSep(c, ',');
    SplitAppend(a, b, ',');
    SplitAppend(a + "," + b, c, ',');
    assert a + [','] + b == a + "," + b && (a + "," + b) + [','] + c == a + "," + b + "," + c;
    hide Split;
    assert [a] + [b] == [a, b] && [a, b] + [c] == [a, b, c];
  }

  /** No state is 0, "free" is 1, and "free,down,offline" is 161. */
  lemma NodeStateNumbers()
    ensures Total(Split("", ',')) == 0 && Total(Split("free", ',')) == 1
    ensures Total(Split("free,down,offline", ',')) == 161
  {
    assert "free" + "," + "down" + "," + "offline" == "free,down,offline";
    hide *;
    StateNumbers();
    SplitNames("free", "down", "offline");
    SplitNames("", "", "");
    TotalOfOne("free");
    TotalOfOne("");
    TotalOfThree("free", "down", "offline");
  }

  lemma NamesOfLists(name: string)
    ensures name in AVAILABLE_STATES
       <==> name in {"free", "busy", "job-busy", "job-exclusive", "resv-exclusive"}
    ensures name in UNAVAILABLE_STATES
       <==> name in {"offline", "maintenance", "down", "provisioning", "stale", "state-unknown", "unresolvable",
                     "wait-provisioning"}
    ensures name in VALID_STATES
       <==> || name in AVAILABLE_STATES || name in UNAVAILABLE_STATES
            || name in {"sleep", "powered-off", "powering-down", "powering-on"}
  {
  }

  lemma AvailableOne(lower: string -> string, text: string, name: string)
    requires Split(text, ',') == [name]
    ensures var n := lower(name);
            Available(lower, text)
            == if n in VALID_STATES then Some(n in AVAILABLE_STATES && n !in UNAVAILABLE_STATES) else None
  {
    hide Split, VALID_STATES, AVAILABLE_STATES, UNAVAILABLE_STATES;
    var n := lower(name);
    if n in VALID_STATES {
      assert LowerStates(lower, [name]).value == [n];
      assert AnyIn([n], AVAILABLE_STATES) <==> [n][0] in AVAILABLE_STATES;
      assert AnyIn([n], UNAVAILABLE_STATES) <==> [n][0] in UNAVAILABLE_STATES;
    } else {
      assert lower([name][0]) !in VALID_STATES;
    }
  }

  lemma AnyOfTwo(a: string, b: string, names: seq<string>)
    ensures AnyIn([a, b], names) <==> a in names || b in names
  {
    assert [a, b][0] == a && [a, b][1] == b;
  }

  lemma AvailableTwo(lower: string -> string, text: string, a: string, b: string)
    requires Split(text, ',') == [a, b]
    ensures var x, y := lower(a), lower(b);
            Available(lower, text)
            == if x in VALID_STATES && y in VALID_STATES
               then Some((x in AVAILABLE_STATES || y in AVAILABLE_STATES)
                         && !(x in UNAVAILABLE_STATES || y in UNAVAILABLE_STATES))
               else None
  {
    hide Split, VALID_STATES, AVAILABLE_STATES, UNAVAILABLE_STATES;
    var x, y := lower(a), lower(b);
    AnyOfTwo(x, y, AVAILABLE_STATES);
    AnyOfTwo(x, y, UNAVAILABLE_STATES);
    if x in VALID_STATES && y in VALID_STATES {
      assert LowerStates(lower, [a, b]).value == [x, y];
    } else {
      assert lower([a, b][0]) !in VALID_STATES || lower([a, b][1]) !in VALID_STATES;
    }
  }

  /**
   Which single states make a node available, and which of them take a free node out of use;
   a node that is in no known state is neither.
   */
  lemma AvailabilityOf(lower: string -> string, name: string)
    requires ',' !in name && lower("free") == "free"
    ensures Available(lower, name)
         == if lower(name) in {"free", "busy", "job-busy", "job-exclusive", "resv-exclusive"} then Some(true)
            else if lower(name) in {"offline", "maintenance", "down", "provisioning", "stale", "state-unknown",
                                    "unresolvable", "wait-provisioning", "sleep", "powered-off", "powering-down",
                                    "powering-on"} then Some(false)
            else None
    ensures Available(lower, "free," + name)
         == if lower(name) in {"free", "busy", "job-busy", "job-exclusive", "resv-exclusive", "sleep", "powered-off",
                               "powering-down", "powering-on"} then Some(true)
            else if lower(name) in {"offline", "maintenance", "down", "provisioning", "stale", "state-unknown",
                                    "unresolvable", "wait-provisioning"} then Some(false)
            else None
  {
    NamesOfLists(lower(name));
    NamesOfLists("free");
    hide *;
    SplitNames("free", name, "");
    SplitNames(name, "", "");
    assert "free" + "," + name == "free," + name;
    AvailableOne(lower, name, name);
    AvailableTwo(lower, "free," + name, "free", name);
  }
}
