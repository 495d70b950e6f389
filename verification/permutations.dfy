/**
 `createPermutations`: the entries are folded into a `Map` (see VariableMap),
 then `generatePermutations` walks the keys in order, the first key outermost,
 appending each variant and ", " to an accumulator, and finalises every
 complete accumulator with `trim().slice(0, -1)`.
 */
module Permutations {
  import opened Text
  import opened Store
  import opened VariableMap
  import opened Cartesian

  /** `generatePermutations(index, currentPermutation)`: the base case pushes
      the finalised accumulator; otherwise the variants of key `index`, looked
      up with `variableMap.get`, are tried in order. */
  function GeneratePermutations(vm: VarMap, index: nat, current: string): seq<string>
    requires index <= |vm|
    decreases |vm| - index, 1, 0
  {
    if index == |vm| then [Finalise(current)]
    else
      match Get(vm, vm[index].key)
      case None => []
      case Some(promptTexts) => ForEachText(vm, index, promptTexts, 0, current)
  }

  /** The `for` loop over `promptTexts` from position `i` on: one recursive
      call per variant, its results in variant order. */
  function ForEachText(vm: VarMap, index: nat, promptTexts: seq<string>, i: nat, current: string): seq<string>
    requires index < |vm| && i <= |promptTexts|
    decreases |vm| - index, 0, |promptTexts| - i
  {
    if i == |promptTexts| then []
    else
      GeneratePermutations(vm, index + 1, current + promptTexts[i] + Separator)
        + ForEachText(vm, index, promptTexts, i + 1, current)
  }

  /** `f` applied to every element, in order. */
  function MapSeq<A, B>(f: A -> B, s: seq<A>): (r: seq<B>)
    ensures |r| == |s|
    ensures forall k :: 0 <= k < |s| ==> r[k] == f(s[k])
  {
    if |s| == 0 then [] else [f(s[0])] + MapSeq(f, s[1..])
  }

  /** Mapping works block by block. */
  lemma MapSeqAppend<A, B>(f: A -> B, a: seq<A>, b: seq<A>)
    ensures MapSeq(f, a + b) == MapSeq(f, a) + MapSeq(f, b)
  {
    var l := MapSeq(f, a + b);
    var r := MapSeq(f, a) + MapSeq(f, b);
    forall k | 0 <= k < |l|
      ensures l[k] == r[k]
    {
      if k < |a| {
        assert (a + b)[k] == a[k];
      } else {
        assert (a + b)[k] == b[k - |a|];
      }
    }
  }

  /** The accumulator each choice leads to, starting from `current`. */
  function Accumulators(current: string, choices: seq<seq<string>>): (r: seq<string>)
    ensures |r| == |choices|
    ensures forall k :: 0 <= k < |choices| ==> r[k] == current + Terminated(choices[k])
  {
    seq(|choices|, k requires 0 <= k < |choices| => current + Terminated(choices[k]))
  }

  /** Choosing `t` first is the same as starting from an accumulator that
      already holds `t` and the separator. */
  lemma AccumulatorsPrepend(current: string, t: string, tails: seq<seq<string>>)
    ensures Accumulators(current, PrependAll(t, tails)) == Accumulators(current + t + Separator, tails)
  {
    forall k | 0 <= k < |tails|
      ensures current + Terminated([t] + tails[k]) == (current + t + Separator) + Terminated(tails[k])
    {
      TerminatedCons(t, tails[k]);
      ConcatAssoc(current, t + Separator, Terminated(tails[k]));
      ConcatAssoc(current, t, Separator);
    }
  }

  /** The generator from key `index` on yields, in order, the finalised
      accumulator of every choice over the remaining factors. */
  lemma {:induction false} GenerateIsFormattedProduct(vm: VarMap, index: nat, current: string)
    requires DistinctKeys(vm) && index <= |vm|
    ensures GeneratePermutations(vm, index, current)
         == MapSeq(Finalise, Accumulators(current, Product(Factors(vm)[index..])))
    decreases |vm| - index, 1, 0
  {
    var f := Factors(vm)[index..];
    if index == |vm| {
      assert f == [];
      assert Accumulators(current, [[]]) == [current] by {
        assert Terminated([]) == "" && current + "" == current;
      }
    } else {
      assert Get(vm, vm[index].key) == Some(vm[index].value);
      ForEachIsFormatted(vm, index, vm[index].value, 0, current);
      assert f[0] == vm[index].value && f[1..] == Factors(vm)[index + 1..];
      assert vm[index].value[0..] == vm[index].value;
    }
  }

  /** Accumulating works block by block. */
  lemma AccumulatorsAppend(current: string, a: seq<seq<string>>, b: seq<seq<string>>)
    ensures Accumulators(current, a + b) == Accumulators(current, a) + Accumulators(current, b)
  {
  }

  /** The product from variant `i` on is variant `i`'s block followed by the
      rest. */
  lemma ProductEachFrom(texts: seq<string>, i: nat, tails: seq<seq<string>>)
    requires i < |texts|
    ensures ProductEach(texts[i..], tails) == PrependAll(texts[i], tails) + ProductEach(texts[i + 1..], tails)
  {
    assert texts[i..][0] == texts[i] && texts[i..][1..] == texts[i + 1..];
  }

  /** One turn of the loop: the recursive call for variant `i`, then the
      remaining turns. */
  lemma ForEachTextStep(vm: VarMap, index: nat, texts: seq<string>, i: nat, current: string)
    requires index < |vm| && i < |texts|
    ensures ForEachText(vm, index, texts, i, current)
         == GeneratePermutations(vm, index + 1, current + texts[i] + Separator)
          + ForEachText(vm, index, texts, i + 1, current)
  {
  }

  /** The loop from variant `i` on yields the choices that start with one of
      the variants from `i` on, in that order. */
  lemma {:induction false} ForEachIsFormatted(vm: VarMap, index: nat, texts: seq<string>, i: nat, current: string)
    requires DistinctKeys(vm) && index < |vm| && i <= |texts|
    ensures ForEachText(vm, index, texts, i, current)
         == MapSeq(Finalise, Accumulators(current, ProductEach(texts[i..], Product(Factors(vm)[index + 1..]))))
    decreases |vm| - index, 0, |texts| - i
  {
    if i < |texts| {
      var tails := Product(Factors(vm)[index + 1..]);
      var front := PrependAll(texts[i], tails);
      var back := ProductEach(texts[i + 1..], tails);
      var a := Accumulators(current, front);
      var b := Accumulators(current, back);
      ForEachTextStep(vm, index, texts, i, current);
      GenerateIsFormattedProduct(vm, index + 1, current + texts[i] + Separator);
      AccumulatorsPrepend(current, texts[i], tails);
      ForEachIsFormatted(vm, index, texts, i + 1, current);
      ProductEachFrom(texts, i, tails);
      AccumulatorsAppend(current, front, back);
      MapSeqAppend(Finalise, a, b);
    } else {
      assert texts[i..] == [];
    }
  }

  /** `createPermutations`: one string per choice of one kept variant per
      distinct name, first name outermost; each string is the chosen values
      joined by ", " with leading whitespace trimmed. */
  function CreatePermutations(entries: seq<Entry>): (r: seq<string>)
    ensures var choices := Product(Factors(BuildVariableMap(entries)));
      && |r| == |choices|
      && forall k :: 0 <= k < |r| ==> r[k] == TrimStart(Join(choices[k]))
  {
    var vm := BuildVariableMap(entries);
    var r := GeneratePermutations(vm, 0, "");
    GenerateIsFormattedProduct(vm, 0, "");
    assert Factors(vm)[0..] == Factors(vm);
    forall k | 0 <= k < |r|
      ensures r[k] == TrimStart(Join(Product(Factors(vm))[k]))
    {
      var c := Product(Factors(vm))[k];
      FinaliseTerminated(c);
      assert "" + Terminated(c) == Terminated(c);
    }
    r
  }

  /** With no two entries sharing a name, the count is the product of every
      entry's kept-variant count. */
  lemma CreatePermutationsCountDistinct(entries: seq<Entry>)
    requires DistinctNames(entries)
    ensures |CreatePermutations(entries)|
         == LengthProduct(seq(|entries|, i requires 0 <= i < |entries| => FilterTexts(entries[i].promptTexts)))
  {
    BuildVariableMapDistinct(entries);
    var vm := BuildVariableMap(entries);
    assert Factors(vm) == seq(|entries|, i requires 0 <= i < |entries| => FilterTexts(entries[i].promptTexts));
  }

  /** No entries: the recursion stops at once and pushes the finalised empty
      accumulator, which is the empty string. */
  lemma CreatePermutationsEmptyStore()
    ensures CreatePermutations([]) == [""]
  {
    assert Product(Factors(BuildVariableMap([]))) == [[]];
    assert Join([]) == "";
  }

  /** No strings come out exactly when some name's kept variants are none. */
  lemma CreatePermutationsNoneIff(entries: seq<Entry>)
    ensures CreatePermutations(entries) == [] <==> HasEmptyFactor(Factors(BuildVariableMap(entries)))
  {
    LengthProductZero(Factors(BuildVariableMap(entries)));
  }

  /** A string comes out exactly when it is the trimmed join of some choice
      of one kept variant per distinct name. */
  lemma CreatePermutationsMembership(entries: seq<Entry>, s: string)
    ensures s in CreatePermutations(entries) <==>
      exists c :: IsChoice(c, Factors(BuildVariableMap(entries))) && s == TrimStart(Join(c))
  {
    var f := Factors(BuildVariableMap(entries));
    var r := CreatePermutations(entries);
    var p := Product(f);
    if s in r {
      var k :| 0 <= k < |r| && r[k] == s;
      ProductMembership(f, p[k]);
    }
    if exists c :: IsChoice(c, f) && s == TrimStart(Join(c)) {
      var c :| IsChoice(c, f) && s == TrimStart(Join(c));
      ProductMembership(f, c);
      var k :| 0 <= k < |p| && p[k] == c;
      assert r[k] == TrimStart(Join(p[k]));
      assert s in r;
    }
  }

  /** Odometer order: the string at index `i * n + j`, where `n` counts the
      choices over the later names, takes the first name's `i`-th kept variant
      followed by the `j`-th choice over the later names. */
  lemma CreatePermutationsOdometer(entries: seq<Entry>, i: nat, j: nat)
    requires var f := Factors(BuildVariableMap(entries));
      |f| > 0 && i < |f[0]| && j < LengthProduct(f[1..])
    ensures var f := Factors(BuildVariableMap(entries));
      var k := i * LengthProduct(f[1..]) + j;
      k < |CreatePermutations(entries)| &&
      CreatePermutations(entries)[k] == TrimStart(Join([f[0][i]] + Product(f[1..])[j]))
  {
    var f := Factors(BuildVariableMap(entries));
    var r := CreatePermutations(entries);
    ProductOdometer(f, i, j);
    var k := i * LengthProduct(f[1..]) + j;
    assert r[k] == TrimStart(Join(Product(f)[k]));
  }

  /** When no kept variant of the first name begins with whitespace, every
      string is exactly the chosen values joined by ", ". */
  lemma CreatePermutationsPlainJoin(entries: seq<Entry>)
    requires var f := Factors(BuildVariableMap(entries));
      |f| == 0 || forall x :: x in f[0] ==> StartsClean(x)
    ensures var choices := Product(Factors(BuildVariableMap(entries)));
      forall k :: 0 <= k < |choices| ==> CreatePermutations(entries)[k] == Join(choices[k])
  {
    var f := Factors(BuildVariableMap(entries));
    var choices := Product(f);
    forall k | 0 <= k < |choices|
      ensures CreatePermutations(entries)[k] == Join(choices[k])
    {
      ProductMembership(f, choices[k]);
      FinaliseIsJoin(choices[k]);
      FinaliseTerminated(choices[k]);
    }
  }

  /** A fresh entry from "Add Prompt" has only an empty variant, and as the
      last entry with the empty name it decides that name's factor: until it
      is filled in, nothing is generated. */
  lemma AddPromptThenCreateIsEmpty(entries: seq<Entry>, freshId: Id)
    ensures CreatePermutations(AddPrompt(entries, freshId)) == []
  {
    var grown := AddPrompt(entries, freshId);
    var vm := BuildVariableMap(grown);
    BuildVariableMapSpec(grown);
    assert grown[|entries|] == NewEntry(freshId);
    assert HasName(grown, "");
    assert HasKey(vm, "");
    var i :| 0 <= i < |vm| && vm[i].key == "";
    assert LastOccurrence(grown, "") == |entries|;
    FilterTextsSingle("");
    assert |Factors(vm)[i]| == 0;
    CreatePermutationsNoneIff(grown);
  }

  /** Two variables of two variants each. */
  const ExampleEntries: seq<Entry> :=
    [Entry("1", "subject", ["a", "b"]), Entry("2", "setting", ["x", "y"])]

  /** The example's `Map`: both names, variants unchanged. */
  lemma ExampleFactors()
    ensures Factors(BuildVariableMap(ExampleEntries)) == [["a", "b"], ["x", "y"]]
  {
    BuildVariableMapDistinct(ExampleEntries);
    assert FilterTexts(["a", "b"]) == ["a", "b"];
    assert FilterTexts(["x", "y"]) == ["x", "y"];
  }

  /** Choices over the single factor `[x, y]`. */
  lemma ExampleTailChoices()
    ensures Product([["x", "y"]]) == [["x"], ["y"]]
  {
    var tail: seq<seq<string>> := [["x", "y"]];
    assert tail[1..] == [];
    ProductOdometer(tail, 0, 0);
    ProductOdometer(tail, 1, 0);
    var p := Product(tail);
    assert |p| == 2 && p[0] == ["x"] && p[1] == ["y"];
  }

  /** The example's choices, in odometer order. */
  lemma ExampleChoices()
    ensures Product([["a", "b"], ["x", "y"]]) == [["a", "x"], ["a", "y"], ["b", "x"], ["b", "y"]]
  {
    var f: seq<seq<string>> := [["a", "b"], ["x", "y"]];
    assert f[1..] == [["x", "y"]];
    ExampleTailChoices();
    var p := Product(f);
    ProductOdometer(f, 0, 0);
    ProductOdometer(f, 0, 1);
    ProductOdometer(f, 1, 0);
    ProductOdometer(f, 1, 1);
    assert |p| == 4;
    assert p[0] == ["a", "x"] && p[1] == ["a", "y"] && p[2] == ["b", "x"] && p[3] == ["b", "y"];
  }

  /** The output is pinned down by the choices: one trimmed join each. */
  lemma CreatePermutationsFromChoices(entries: seq<Entry>, choices: seq<seq<string>>, strings: seq<string>)
    requires Product(Factors(BuildVariableMap(entries))) == choices
    requires |strings| == |choices|
    requires forall k :: 0 <= k < |choices| ==> strings[k] == TrimStart(Join(choices[k]))
    ensures CreatePermutations(entries) == strings
  {
  }

  /** The worked example: `[a, b]` by `[x, y]` gives the four strings in
      odometer order. */
  lemma CreatePermutationsExample()
    ensures CreatePermutations(ExampleEntries) == ["a, x", "a, y", "b, x", "b, y"]
  {
    ExampleFactors();
    ExampleChoices();
    JoinPair("a", "x");
    JoinPair("a", "y");
    JoinPair("b", "x");
    JoinPair("b", "y");
    CreatePermutationsFromChoices(ExampleEntries,
      [["a", "x"], ["a", "y"], ["b", "x"], ["b", "y"]], ["a, x", "a, y", "b, x", "b, y"]);
  }

  /** Two values, the first a single non-whitespace character, joined. */
  lemma JoinPair(a: string, b: string)
    requires |a| == 1 && !IsJsWhitespace(a[0])
    ensures TrimStart(Join([a, b])) == a + ", " + b
  {
    assert [a, b][1..] == [b];
  }
}
