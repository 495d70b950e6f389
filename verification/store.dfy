/**
 The ordered list of prompt entries the user edits, and the edits the
 application applies to it. Every edit returns a new list; the old one is left
 as it was. Identifiers are opaque strings, and a fresh one is passed in where
 the application would draw a random UUID.
 */
module Store {

  type Id = string

  /** One variable: its identifier, its name and its text variants. */
  datatype Entry = Entry(id: Id, variableName: string, promptTexts: seq<string>)

  datatype Option<T> = None | Some(value: T)

  /** A successful lookup: the entry and where it sits. */
  datatype Found = Found(item: Entry, index: nat)

  /** No identifier occurs twice. */
  predicate UniqueIds(entries: seq<Entry>) {
    forall a, b :: 0 <= a < b < |entries| ==> entries[a].id != entries[b].id
  }

  /** `id` belongs to no entry. */
  predicate IsFresh(entries: seq<Entry>, id: Id) {
    forall k :: 0 <= k < |entries| ==> entries[k].id != id
  }

  /** `findIndex` on the identifier: the first entry carrying `id`. */
  function FindIndex(entries: seq<Entry>, id: Id): (r: Option<nat>)
    ensures r.None? <==> IsFresh(entries, id)
    ensures r.Some? ==> r.value < |entries| && entries[r.value].id == id
    ensures r.Some? ==> forall k :: 0 <= k < r.value ==> entries[k].id != id
  {
    if |entries| == 0 then None
    else if entries[0].id == id then Some(0)
    else match FindIndex(entries[1..], id)
      case None => None
      case Some(k) => Some(k + 1)
  }

  /** `findItem`: the first entry carrying `id` and its index, or nothing. */
  function FindItem(entries: seq<Entry>, id: Id): (r: Option<Found>)
    ensures r.None? <==> IsFresh(entries, id)
    ensures r.Some? ==> r.value.index < |entries| && r.value.item == entries[r.value.index]
    ensures r.Some? ==> r.value.item.id == id
    ensures r.Some? ==> forall k :: 0 <= k < r.value.index ==> entries[k].id != id
  {
    match FindIndex(entries, id)
    case None => None
    case Some(k) => Some(Found(entries[k], k))
  }

  /** With unique identifiers, the entry found for the identifier at index
      `k` is the one at index `k`. */
  lemma FindItemUnique(entries: seq<Entry>, k: nat)
    requires UniqueIds(entries) && k < |entries|
    ensures FindItem(entries, entries[k].id) == Some(Found(entries[k], k))
  {
  }

  /** The entry "Add Prompt" creates. */
  function NewEntry(freshId: Id): Entry {
    Entry(freshId, "", [""])
  }

  /** `addPrompt`: appends one new entry with an empty name and one empty
      variant. */
  function AddPrompt(entries: seq<Entry>, freshId: Id): (r: seq<Entry>)
    ensures |r| == |entries| + 1 && r[..|entries|] == entries
    ensures r[|entries|] == Entry(freshId, "", [""])
  {
    entries + [NewEntry(freshId)]
  }

  /** Adding an entry under a fresh identifier keeps identifiers unique, and
      the new entry is then found by its identifier at the end. */
  lemma AddPromptKeepsIdsUnique(entries: seq<Entry>, freshId: Id)
    requires UniqueIds(entries) && IsFresh(entries, freshId)
    ensures UniqueIds(AddPrompt(entries, freshId))
    ensures FindItem(AddPrompt(entries, freshId), freshId)
         == Some(Found(NewEntry(freshId), |entries|))
  {
  }

  /** `addPromptText`: appends one empty variant to the entry carrying `id`;
      an unknown identifier changes nothing. */
  function AddPromptText(entries: seq<Entry>, id: Id): (r: seq<Entry>)
    ensures |r| == |entries|
    ensures IsFresh(entries, id) ==> r == entries
    ensures FindItem(entries, id).Some? ==>
      var k := FindItem(entries, id).value.index;
      && r[k].id == entries[k].id
      && r[k].variableName == entries[k].variableName
      && r[k].promptTexts == entries[k].promptTexts + [""]
      && forall m :: 0 <= m < |r| && m != k ==> r[m] == entries[m]
  {
    match FindItem(entries, id)
    case None => entries
    case Some(found) =>
      var e := entries[found.index];
      entries[found.index := e.(promptTexts := e.promptTexts + [""])]
  }

  /** `splice(index, 1)` for an index inside the list. */
  function RemoveAt<T>(s: seq<T>, index: nat): (r: seq<T>)
    requires index < |s|
    ensures |r| == |s| - 1
    ensures forall k :: 0 <= k < index ==> r[k] == s[k]
    ensures forall k :: index <= k < |r| ==> r[k] == s[k + 1]
  {
    s[..index] + s[index + 1..]
  }

  /** `splice(index, 0, x)` for an index at most the length. */
  function InsertAt<T>(s: seq<T>, index: nat, x: T): (r: seq<T>)
    requires index <= |s|
    ensures |r| == |s| + 1 && r[index] == x
    ensures forall k :: 0 <= k < index ==> r[k] == s[k]
    ensures forall k :: index < k < |r| ==> r[k] == s[k - 1]
  {
    s[..index] + [x] + s[index..]
  }

  /** Taking out an element adds up, as a multiset, to the list without it. */
  lemma RemoveAtMultiset<T>(s: seq<T>, index: nat)
    requires index < |s|
    ensures multiset(RemoveAt(s, index)) + multiset{s[index]} == multiset(s)
  {
    assert s == s[..index] + [s[index]] + s[index + 1..];
  }

  /** Putting in an element adds it to the multiset. */
  lemma InsertAtMultiset<T>(s: seq<T>, index: nat, x: T)
    requires index <= |s|
    ensures multiset(InsertAt(s, index, x)) == multiset(s) + multiset{x}
  {
    assert s == s[..index] + s[index..];
  }

  /** Taking out what was just put in gives back the list. */
  lemma RemoveInserted<T>(s: seq<T>, index: nat, x: T)
    requires index <= |s|
    ensures RemoveAt(InsertAt(s, index, x), index) == s
  {
  }

  /** Where `splice` inserts when given a start at or beyond the end of the
      shortened list: the end. */
  function Clamp(atIndex: nat, length: nat): (r: nat)
    ensures r <= length
    ensures atIndex <= length ==> r == atIndex
  {
    if atIndex <= length then atIndex else length
  }

  /** `moveItem`: takes the entry carrying `id` out of the list and puts it
      back at `atIndex` of the shortened list; an unknown identifier changes
      nothing. */
  function MoveItem(entries: seq<Entry>, id: Id, atIndex: nat): (r: seq<Entry>)
    ensures IsFresh(entries, id) ==> r == entries
    ensures |r| == |entries|
    ensures multiset(r) == multiset(entries)
    ensures FindItem(entries, id).Some? ==>
      var k := FindItem(entries, id).value.index;
      var target := Clamp(atIndex, |entries| - 1);
      && r[target] == entries[k]
      && RemoveAt(r, target) == RemoveAt(entries, k)
  {
    match FindItem(entries, id)
    case None => entries
    case Some(found) =>
      var rest := RemoveAt(entries, found.index);
      var target := Clamp(atIndex, |rest|);
      RemoveAtMultiset(entries, found.index);
      InsertAtMultiset(rest, target, found.item);
      RemoveInserted(rest, target, found.item);
      var r := InsertAt(rest, target, found.item);
      r
  }

  /** Putting an element back where it was taken out gives back the list. */
  lemma InsertRemoved<T>(s: seq<T>, index: nat)
    requires index < |s|
    ensures InsertAt(RemoveAt(s, index), index, s[index]) == s
  {
    var r := InsertAt(RemoveAt(s, index), index, s[index]);
    forall k | 0 <= k < |s|
      ensures r[k] == s[k]
    {
    }
  }

  /** Moving an entry to the index it already has changes nothing. */
  lemma MoveToOwnIndex(entries: seq<Entry>, k: nat)
    requires UniqueIds(entries) && k < |entries|
    ensures MoveItem(entries, entries[k].id, k) == entries
  {
    FindItemUnique(entries, k);
    InsertRemoved(entries, k);
  }

  /** Moving the entry `findItem` finds to the index it reports changes
      nothing, whether or not identifiers are unique. */
  lemma MoveFoundToOwnIndex(entries: seq<Entry>, id: Id)
    requires FindItem(entries, id).Some?
    ensures MoveItem(entries, id, FindItem(entries, id).value.index) == entries
  {
    InsertRemoved(entries, FindItem(entries, id).value.index);
  }

  /** Taking out the entry at `k` keeps identifiers unique and leaves its
      identifier unused. */
  lemma RemoveAtKeepsIdsUnique(entries: seq<Entry>, k: nat)
    requires UniqueIds(entries) && k < |entries|
    ensures UniqueIds(RemoveAt(entries, k))
    ensures IsFresh(RemoveAt(entries, k), entries[k].id)
  {
    var rest := RemoveAt(entries, k);
    forall a, b | 0 <= a < b < |rest|
      ensures rest[a].id != rest[b].id
    {
      var a' := if a < k then a else a + 1;
      var b' := if b < k then b else b + 1;
      assert rest[a] == entries[a'] && rest[b] == entries[b'];
    }
    forall m | 0 <= m < |rest|
      ensures rest[m].id != entries[k].id
    {
      var m' := if m < k then m else m + 1;
      assert rest[m] == entries[m'];
    }
  }

  /** Putting an entry with an unused identifier anywhere keeps identifiers
      unique, and it is then found where it was put. */
  lemma InsertAtKeepsIdsUnique(entries: seq<Entry>, t: nat, x: Entry)
    requires UniqueIds(entries) && IsFresh(entries, x.id) && t <= |entries|
    ensures UniqueIds(InsertAt(entries, t, x))
    ensures FindItem(InsertAt(entries, t, x), x.id) == Some(Found(x, t))
  {
    var r := InsertAt(entries, t, x);
    forall a, b | 0 <= a < b < |r|
      ensures r[a].id != r[b].id
    {
      if a != t && b != t {
        var a' := if a < t then a else a - 1;
        var b' := if b < t then b else b - 1;
        assert r[a] == entries[a'] && r[b] == entries[b'];
      } else if a == t {
        assert r[b] == entries[b - 1];
      } else {
        assert r[a] == entries[a];
      }
    }
    FindItemUnique(r, t);
  }

  /** Moving keeps identifiers unique, and the moved entry is then found at
      its target index. */
  lemma MoveItemKeepsIdsUnique(entries: seq<Entry>, k: nat, atIndex: nat)
    requires UniqueIds(entries) && k < |entries|
    ensures UniqueIds(MoveItem(entries, entries[k].id, atIndex))
    ensures var target := Clamp(atIndex, |entries| - 1);
      FindItem(MoveItem(entries, entries[k].id, atIndex), entries[k].id)
        == Some(Found(entries[k], target))
  {
    FindItemUnique(entries, k);
    var rest := RemoveAt(entries, k);
    var target := Clamp(atIndex, |rest|);
    RemoveAtKeepsIdsUnique(entries, k);
    InsertAtKeepsIdsUnique(rest, target, entries[k]);
    assert MoveItem(entries, entries[k].id, atIndex) == InsertAt(rest, target, entries[k]);
  }

  /** The `setVariableName` handler of the entry at `index`: renames it. */
  function SetVariableName(entries: seq<Entry>, index: nat, value: string): (r: seq<Entry>)
    requires index < |entries|
    ensures |r| == |entries|
    ensures r[index].variableName == value
    ensures r[index].id == entries[index].id
    ensures r[index].promptTexts == entries[index].promptTexts
    ensures forall m :: 0 <= m < |r| && m != index ==> r[m] == entries[m]
  {
    entries[index := entries[index].(variableName := value)]
  }

  /** The `setPromptText` handler of the entry at `index`: replaces its
      variant `i`. */
  function SetPromptText(entries: seq<Entry>, index: nat, i: nat, value: string): (r: seq<Entry>)
    requires index < |entries| && i < |entries[index].promptTexts|
    ensures |r| == |entries|
    ensures r[index].id == entries[index].id
    ensures r[index].variableName == entries[index].variableName
    ensures |r[index].promptTexts| == |entries[index].promptTexts|
    ensures r[index].promptTexts[i] == value
    ensures forall j :: 0 <= j < |r[index].promptTexts| && j != i ==>
      r[index].promptTexts[j] == entries[index].promptTexts[j]
    ensures forall m :: 0 <= m < |r| && m != index ==> r[m] == entries[m]
  {
    var e := entries[index];
    entries[index := e.(promptTexts := e.promptTexts[i := value])]
  }

  /** The `handleDelete` handler of the entry at `index`: keeps every entry
      whose position differs from `index`. */
  function HandleDelete(entries: seq<Entry>, index: nat): (r: seq<Entry>)
    ensures index >= |entries| ==> r == entries
    ensures index < |entries| ==> |r| == |entries| - 1
    ensures forall k :: 0 <= k < index && k < |r| ==> r[k] == entries[k]
    ensures forall k :: index <= k < |r| ==> r[k] == entries[k + 1]
  {
    if index < |entries| then RemoveAt(entries, index) else entries
  }

  /** Deleting an entry keeps identifiers unique, and its identifier is then
      found nowhere. */
  lemma HandleDeleteForgetsId(entries: seq<Entry>, index: nat)
    requires UniqueIds(entries) && index < |entries|
    ensures UniqueIds(HandleDelete(entries, index))
    ensures IsFresh(HandleDelete(entries, index), entries[index].id)
    ensures multiset(HandleDelete(entries, index)) + multiset{entries[index]} == multiset(entries)
  {
    var r := HandleDelete(entries, index);
    assert entries == entries[..index] + [entries[index]] + entries[index + 1..];
    assert r == entries[..index] + entries[index + 1..];
  }

  /** The `deletePromptText` handler of the entry at `index`: `splice(i, 1)`
      on its variants, which removes variant `i` and does nothing when `i` is
      past the end. */
  function DeletePromptText(entries: seq<Entry>, index: nat, i: nat): (r: seq<Entry>)
    requires index < |entries|
    ensures |r| == |entries|
    ensures r[index].id == entries[index].id
    ensures r[index].variableName == entries[index].variableName
    ensures i >= |entries[index].promptTexts| ==> r == entries
    ensures i < |entries[index].promptTexts| ==>
      r[index].promptTexts == RemoveAt(entries[index].promptTexts, i)
    ensures forall m :: 0 <= m < |r| && m != index ==> r[m] == entries[m]
  {
    var e := entries[index];
    if i < |e.promptTexts| then
      entries[index := e.(promptTexts := e.promptTexts[..i] + e.promptTexts[i + 1..])]
    else
      entries
  }

  /** Deleting the entry "Add Prompt" just appended gives back the list. */
  lemma DeleteAddedPrompt(entries: seq<Entry>, freshId: Id)
    ensures HandleDelete(AddPrompt(entries, freshId), |entries|) == entries
  {
    assert AddPrompt(entries, freshId)[..|entries|] == entries;
  }

  /** Deleting the variant `addPromptText` just appended gives back the list. */
  lemma DeleteAddedPromptText(entries: seq<Entry>, k: nat)
    requires UniqueIds(entries) && k < |entries|
    ensures DeletePromptText(AddPromptText(entries, entries[k].id), k, |entries[k].promptTexts|) == entries
  {
    FindItemUnique(entries, k);
    var r := AddPromptText(entries, entries[k].id);
    var texts := entries[k].promptTexts;
    assert RemoveAt(texts + [""], |texts|) == texts;
    assert DeletePromptText(r, k, |texts|)[k] == entries[k];
  }

  /** Renaming back to the old name undoes a rename. */
  lemma SetVariableNameUndo(entries: seq<Entry>, index: nat, value: string)
    requires index < |entries|
    ensures SetVariableName(SetVariableName(entries, index, value), index, entries[index].variableName) == entries
  {
    var r := SetVariableName(SetVariableName(entries, index, value), index, entries[index].variableName);
    assert r[index] == entries[index];
  }

  /** Writing back the old variant undoes an edit of a variant. */
  lemma SetPromptTextUndo(entries: seq<Entry>, index: nat, i: nat, value: string)
    requires index < |entries| && i < |entries[index].promptTexts|
    ensures var edited := SetPromptText(entries, index, i, value);
      i < |edited[index].promptTexts| &&
      SetPromptText(edited, index, i, entries[index].promptTexts[i]) == entries
  {
    var r := SetPromptText(SetPromptText(entries, index, i, value), index, i, entries[index].promptTexts[i]);
    assert r[index].promptTexts == entries[index].promptTexts;
    assert r[index] == entries[index];
  }

  /** Editing a name or a variant leaves every identifier where it was, so
      every lookup by identifier finds the same position. */
  lemma EditsKeepLookups(entries: seq<Entry>, index: nat, i: nat, value: string, id: Id)
    requires index < |entries| && i < |entries[index].promptTexts|
    ensures var renamed := SetVariableName(entries, index, value);
      FindIndex(renamed, id) == FindIndex(entries, id)
    ensures var edited := SetPromptText(entries, index, i, value);
      FindIndex(edited, id) == FindIndex(entries, id)
  {
    SameIdsSameIndex(entries, SetVariableName(entries, index, value), id);
    SameIdsSameIndex(entries, SetPromptText(entries, index, i, value), id);
  }

  /** Lookup depends only on the identifiers, position by position. */
  lemma {:induction false} SameIdsSameIndex(a: seq<Entry>, b: seq<Entry>, id: Id)
    requires |a| == |b| && forall k :: 0 <= k < |a| ==> a[k].id == b[k].id
    ensures FindIndex(a, id) == FindIndex(b, id)
  {
    if |a| > 0 && a[0].id != id {
      SameIdsSameIndex(a[1..], b[1..], id);
    }
  }
}
