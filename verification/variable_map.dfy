/**
 The first step of generation: folding the entry list into a JavaScript `Map`
 from variable name to that entry's non-empty variants. A `Map` remembers the
 order in which its keys were first inserted, and `set` on a key it already
 holds replaces the value in place; the association list below behaves the
 same way.
 */
module VariableMap {
  import opened Store

  datatype Binding = Binding(key: string, value: seq<string>)

  /** The bindings of a `Map<string, string[]>`, in key insertion order. */
  type VarMap = seq<Binding>

  /** `promptTexts.filter((text) => text)`: a string is falsy only when it is
      empty, so exactly the empty variants are dropped, whitespace-only ones
      included among the kept. */
  function FilterTexts(texts: seq<string>): (r: seq<string>)
    ensures forall x :: x in r ==> x != ""
    ensures forall x :: x != "" ==> multiset(r)[x] == multiset(texts)[x]
  {
    if |texts| == 0 then []
    else
      assert texts == [texts[0]] + texts[1..];
      (if texts[0] == "" then [] else [texts[0]]) + FilterTexts(texts[1..])
  }

  /** Filtering works piece by piece, so the kept variants stay in the order
      they had. */
  lemma {:induction false} FilterTextsAppend(a: seq<string>, b: seq<string>)
    ensures FilterTexts(a + b) == FilterTexts(a) + FilterTexts(b)
  {
    if |a| > 0 {
      var head := if a[0] == "" then [] else [a[0]];
      assert (a + b)[0] == a[0] && (a + b)[1..] == a[1..] + b;
      assert FilterTexts(a + b) == head + FilterTexts(a[1..] + b);
      assert FilterTexts(a) == head + FilterTexts(a[1..]);
      FilterTextsAppend(a[1..], b);
    } else {
      assert a + b == b;
    }
  }

  /** Filtering a single variant keeps it exactly when it is not empty. */
  lemma FilterTextsSingle(x: string)
    ensures FilterTexts([x]) == if x == "" then [] else [x]
  {
    assert [x][1..] == [];
  }

  predicate HasKey(m: VarMap, key: string) {
    exists i :: 0 <= i < |m| && m[i].key == key
  }

  /** A `Map` holds each key once. */
  predicate DistinctKeys(m: VarMap) {
    forall a, b :: 0 <= a < b < |m| ==> m[a].key != m[b].key
  }

  /** `map.set(key, value)`: replaces the value of a key already present,
      keeping its position, or appends a new binding at the end. */
  function MapSet(m: VarMap, key: string, value: seq<string>): (r: VarMap)
    requires DistinctKeys(m)
    ensures DistinctKeys(r)
    ensures |r| == if HasKey(m, key) then |m| else |m| + 1
    ensures forall i :: 0 <= i < |m| ==> r[i].key == m[i].key
    ensures forall i :: 0 <= i < |m| && m[i].key != key ==> r[i] == m[i]
    ensures forall i :: 0 <= i < |r| && r[i].key == key ==> r[i].value == value
    ensures !HasKey(m, key) ==> r[|m|] == Binding(key, value)
  {
    if |m| == 0 then [Binding(key, value)]
    else if m[0].key == key then [Binding(key, value)] + m[1..]
    else
      assert HasKey(m, key) <==> HasKey(m[1..], key) by {
        if HasKey(m, key) {
          var i :| 0 <= i < |m| && m[i].key == key;
          assert m[1..][i - 1].key == key;
        }
      }
      [m[0]] + MapSet(m[1..], key, value)
  }

  /** `map.get(key)`: the value bound to `key`, if any. */
  function Get(m: VarMap, key: string): (r: Option<seq<string>>)
    ensures r.None? <==> !HasKey(m, key)
    ensures forall i :: 0 <= i < |m| && m[i].key == key && DistinctKeys(m) ==> r == Some(m[i].value)
  {
    if |m| == 0 then None
    else if m[0].key == key then Some(m[0].value)
    else
      assert HasKey(m, key) <==> HasKey(m[1..], key) by {
        if HasKey(m, key) {
          var i :| 0 <= i < |m| && m[i].key == key;
          assert m[1..][i - 1].key == key;
        }
      }
      Get(m[1..], key)
  }

  /** The folding `reduce` over the entries, one `set` per entry, in order. */
  function BuildVariableMap(entries: seq<Entry>): (r: VarMap)
    ensures DistinctKeys(r)
  {
    if |entries| == 0 then []
    else
      var last := entries[|entries| - 1];
      MapSet(BuildVariableMap(entries[..|entries| - 1]), last.variableName, FilterTexts(last.promptTexts))
  }

  /** The value lists in key order: the factors of the product. */
  function Factors(m: VarMap): (r: seq<seq<string>>)
    ensures |r| == |m| && forall i :: 0 <= i < |m| ==> r[i] == m[i].value
  {
    seq(|m|, i requires 0 <= i < |m| => m[i].value)
  }

  predicate HasName(entries: seq<Entry>, name: string) {
    exists j :: 0 <= j < |entries| && entries[j].variableName == name
  }

  /** No variable name occurs twice. */
  predicate DistinctNames(entries: seq<Entry>) {
    forall a, b :: 0 <= a < b < |entries| ==> entries[a].variableName != entries[b].variableName
  }

  /** The index of the first entry named `name`. */
  function FirstOccurrence(entries: seq<Entry>, name: string): (r: nat)
    requires HasName(entries, name)
    ensures r < |entries| && entries[r].variableName == name
    ensures forall j :: 0 <= j < r ==> entries[j].variableName != name
  {
    if entries[0].variableName == name then 0
    else
      assert HasName(entries[1..], name) by {
        var j :| 0 <= j < |entries| && entries[j].variableName == name;
        assert entries[1..][j - 1].variableName == name;
      }
      1 + FirstOccurrence(entries[1..], name)
  }

  /** The index of the last entry named `name`. */
  function LastOccurrence(entries: seq<Entry>, name: string): (r: nat)
    requires HasName(entries, name)
    ensures r < |entries| && entries[r].variableName == name
    ensures forall j :: r < j < |entries| ==> entries[j].variableName != name
  {
    if entries[|entries| - 1].variableName == name then |entries| - 1
    else
      assert HasName(entries[..|entries| - 1], name) by {
        var j :| 0 <= j < |entries| && entries[j].variableName == name;
        assert entries[..|entries| - 1][j].variableName == name;
      }
      LastOccurrence(entries[..|entries| - 1], name)
  }

  /** What the fold produces: each name once; the names in the order of
      their first occurrence; each bound to the filtered variants of its last
      occurrence, since a later `set` overwrites an earlier one. */
  ghost predicate DescribesEntries(m: VarMap, entries: seq<Entry>) {
    && DistinctKeys(m)
    && (forall name :: HasKey(m, name) <==> HasName(entries, name))
    && (forall i :: 0 <= i < |m| ==> HasName(entries, m[i].key))
    && (forall a, b :: 0 <= a < b < |m| ==>
          FirstOccurrence(entries, m[a].key) < FirstOccurrence(entries, m[b].key))
    && (forall i :: 0 <= i < |m| ==>
          m[i].value == FilterTexts(entries[LastOccurrence(entries, m[i].key)].promptTexts))
  }

  /** Names of a list grown by one entry. */
  lemma SnocNames(init: seq<Entry>, last: Entry, name: string)
    ensures HasName(init + [last], name) <==> HasName(init, name) || name == last.variableName
  {
    var entries := init + [last];
    if HasName(entries, name) && name != last.variableName {
      var j :| 0 <= j < |entries| && entries[j].variableName == name;
      assert init[j].variableName == name;
    }
    if HasName(init, name) {
      var j :| 0 <= j < |init| && init[j].variableName == name;
      assert entries[j].variableName == name;
    }
    assert entries[|init|] == last;
  }

  /** A first occurrence stays first when an entry is added at the end. */
  lemma SnocFirst(init: seq<Entry>, last: Entry, name: string)
    requires HasName(init, name)
    ensures HasName(init + [last], name)
    ensures FirstOccurrence(init + [last], name) == FirstOccurrence(init, name)
  {
    SnocNames(init, last, name);
    var f := FirstOccurrence(init, name);
    assert (init + [last])[f].variableName == name;
  }

  /** A name the added entry does not carry keeps its last occurrence. */
  lemma SnocLastOther(init: seq<Entry>, last: Entry, name: string)
    requires HasName(init, name) && name != last.variableName
    ensures HasName(init + [last], name)
    ensures LastOccurrence(init + [last], name) == LastOccurrence(init, name)
  {
    SnocNames(init, last, name);
    var l := LastOccurrence(init, name);
    assert (init + [last])[l].variableName == name;
  }

  /** The added entry is the last occurrence of its own name, and the first
      one when the name is new. */
  lemma SnocOwn(init: seq<Entry>, last: Entry)
    ensures HasName(init + [last], last.variableName)
    ensures LastOccurrence(init + [last], last.variableName) == |init|
    ensures !HasName(init, last.variableName) ==>
      FirstOccurrence(init + [last], last.variableName) == |init|
  {
    SnocNames(init, last, last.variableName);
    assert (init + [last])[|init|] == last;
  }

  /** One `set` per entry: the map for a list grown by one entry. */
  lemma BuildSnoc(init: seq<Entry>, last: Entry)
    ensures BuildVariableMap(init + [last])
         == MapSet(BuildVariableMap(init), last.variableName, FilterTexts(last.promptTexts))
  {
    assert (init + [last])[..|init|] == init;
  }

  /** The keys of the grown map are the names of the grown list. */
  lemma StepKeys(m: VarMap, init: seq<Entry>, last: Entry, value: seq<string>)
    requires DistinctKeys(m)
    requires forall name :: HasKey(m, name) <==> HasName(init, name)
    ensures forall name :: HasKey(MapSet(m, last.variableName, value), name) <==> HasName(init + [last], name)
  {
    var r := MapSet(m, last.variableName, value);
    forall name
      ensures HasKey(r, name) <==> HasName(init + [last], name)
    {
      SnocNames(init, last, name);
      if HasKey(r, name) {
        var i :| 0 <= i < |r| && r[i].key == name;
        if i < |m| {
          assert HasKey(m, name);
        }
      }
      if HasName(init, name) {
        assert HasKey(m, name);
        var i :| 0 <= i < |m| && m[i].key == name;
        assert r[i].key == name;
      }
      if name == last.variableName && !HasKey(m, name) {
        assert r[|m|].key == name;
      }
    }
  }

  /** The keys of the grown map keep first-occurrence order. */
  lemma StepOrder(m: VarMap, init: seq<Entry>, last: Entry, value: seq<string>)
    requires DistinctKeys(m)
    requires forall name :: HasKey(m, name) <==> HasName(init, name)
    requires forall i :: 0 <= i < |m| ==> HasName(init, m[i].key)
    requires forall a, b :: 0 <= a < b < |m| ==>
      FirstOccurrence(init, m[a].key) < FirstOccurrence(init, m[b].key)
    ensures var r := MapSet(m, last.variableName, value);
      && (forall i :: 0 <= i < |r| ==> HasName(init + [last], r[i].key))
      && (forall a, b :: 0 <= a < b < |r| ==>
            FirstOccurrence(init + [last], r[a].key) < FirstOccurrence(init + [last], r[b].key))
  {
    var entries := init + [last];
    var r := MapSet(m, last.variableName, value);
    SnocOwn(init, last);
    forall i | 0 <= i < |m|
      ensures HasName(entries, r[i].key)
      ensures FirstOccurrence(entries, r[i].key) == FirstOccurrence(init, m[i].key)
    {
      SnocFirst(init, last, m[i].key);
    }
    forall a, b | 0 <= a < b < |r|
      ensures FirstOccurrence(entries, r[a].key) < FirstOccurrence(entries, r[b].key)
    {
      if b == |m| {
        assert !HasKey(m, last.variableName);
        assert FirstOccurrence(entries, r[b].key) == |init|;
        assert FirstOccurrence(init, m[a].key) < |init|;
      }
    }
  }

  /** Each key of the grown map is bound to its last occurrence's variants. */
  lemma StepValues(m: VarMap, init: seq<Entry>, last: Entry)
    requires DistinctKeys(m)
    requires forall i :: 0 <= i < |m| ==>
      HasName(init, m[i].key) && m[i].value == FilterTexts(init[LastOccurrence(init, m[i].key)].promptTexts)
    ensures var r := MapSet(m, last.variableName, FilterTexts(last.promptTexts));
      forall i :: 0 <= i < |r| ==>
        HasName(init + [last], r[i].key) &&
        r[i].value == FilterTexts((init + [last])[LastOccurrence(init + [last], r[i].key)].promptTexts)
  {
    var entries := init + [last];
    var r := MapSet(m, last.variableName, FilterTexts(last.promptTexts));
    SnocOwn(init, last);
    assert entries[|init|] == last;
    forall i | 0 <= i < |r|
      ensures HasName(entries, r[i].key)
      ensures r[i].value == FilterTexts(entries[LastOccurrence(entries, r[i].key)].promptTexts)
    {
      if r[i].key != last.variableName {
        var l := LastOccurrence(init, m[i].key);
        SnocLastOther(init, last, m[i].key);
        assert entries[l] == init[l];
      }
    }
  }

  /** One `set` keeps the description true of the grown list. */
  lemma Step(m: VarMap, entries: seq<Entry>)
    requires |entries| > 0 && DescribesEntries(m, entries[..|entries| - 1])
    ensures var last := entries[|entries| - 1];
      DescribesEntries(MapSet(m, last.variableName, FilterTexts(last.promptTexts)), entries)
  {
    var init := entries[..|entries| - 1];
    var last := entries[|entries| - 1];
    var value := FilterTexts(last.promptTexts);
    assert entries == init + [last];
    StepKeys(m, init, last, value);
    StepOrder(m, init, last, value);
    StepValues(m, init, last);
  }

  /** The fold yields exactly the `Map` described above. */
  lemma {:induction false} BuildVariableMapSpec(entries: seq<Entry>)
    ensures DescribesEntries(BuildVariableMap(entries), entries)
  {
    if |entries| > 0 {
      BuildVariableMapSpec(entries[..|entries| - 1]);
      Step(BuildVariableMap(entries[..|entries| - 1]), entries);
    }
  }

  /** A new name is appended with its filtered variants. */
  lemma DistinctStep(m: VarMap, entries: seq<Entry>)
    requires DistinctNames(entries) && DistinctKeys(m) && |m| + 1 == |entries|
    requires forall i :: 0 <= i < |m| ==>
      m[i] == Binding(entries[i].variableName, FilterTexts(entries[i].promptTexts))
    ensures var last := entries[|entries| - 1];
      var r := MapSet(m, last.variableName, FilterTexts(last.promptTexts));
      && |r| == |entries|
      && forall i :: 0 <= i < |entries| ==>
           r[i] == Binding(entries[i].variableName, FilterTexts(entries[i].promptTexts))
  {
    var last := entries[|entries| - 1];
    var r := MapSet(m, last.variableName, FilterTexts(last.promptTexts));
    assert !HasKey(m, last.variableName);
    forall i | 0 <= i < |entries|
      ensures r[i] == Binding(entries[i].variableName, FilterTexts(entries[i].promptTexts))
    {
      if i < |m| {
        assert r[i] == m[i];
      }
    }
  }

  /** Dropping the last entry keeps names distinct. */
  lemma DistinctNamesInit(entries: seq<Entry>)
    requires |entries| > 0 && DistinctNames(entries)
    ensures DistinctNames(entries[..|entries| - 1])
  {
    var init := entries[..|entries| - 1];
    assert forall i :: 0 <= i < |init| ==> init[i] == entries[i];
  }

  /** When no two entries share a name, the `Map` is just the entries with
      their variants filtered, in order. */
  lemma {:induction false} BuildVariableMapDistinct(entries: seq<Entry>)
    requires DistinctNames(entries)
    ensures |BuildVariableMap(entries)| == |entries|
    ensures forall i :: 0 <= i < |entries| ==>
      BuildVariableMap(entries)[i] == Binding(entries[i].variableName, FilterTexts(entries[i].promptTexts))
  {
    if |entries| > 0 {
      var init := entries[..|entries| - 1];
      DistinctNamesInit(entries);
      BuildVariableMapDistinct(init);
      assert forall i :: 0 <= i < |init| ==> init[i] == entries[i];
      DistinctStep(BuildVariableMap(init), entries);
    }
  }

  /** A name given twice: the key stays where the name first appeared, with
      the variants of its last entry, the empty one dropped. */
  lemma DuplicateNameExample()
    ensures BuildVariableMap([Entry("1", "a", ["p"]), Entry("2", "b", ["q"]), Entry("3", "a", ["r", ""])])
         == [Binding("a", ["r"]), Binding("b", ["q"])]
  {
    var e1 := Entry("1", "a", ["p"]);
    var e2 := Entry("2", "b", ["q"]);
    var e3 := Entry("3", "a", ["r", ""]);
    assert [e1, e2, e3][..2] == [e1, e2] && [e1, e2][..1] == [e1] && [e1][..0] == [];
    FilterTextsSingle("p");
    FilterTextsSingle("q");
    FilterTextsAppend(["r"], [""]);
    FilterTextsSingle("r");
    FilterTextsSingle("");
    assert ["r", ""] == ["r"] + [""];
    assert FilterTexts(["r", ""]) == ["r"];
    assert BuildVariableMap([e1]) == [Binding("a", ["p"])];
    assert BuildVariableMap([e1, e2]) == [Binding("a", ["p"]), Binding("b", ["q"])];
  }
}
