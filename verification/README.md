# prompt-builder core, modelled in Dafny

prompt-builder is a single-page app for composing image-generation prompts.
The user keeps an ordered list of **entries**. Each entry has an identifier,
a variable name and a list of text **variants**. "Create Permutations" produces
one prompt string per combination of variants, one variant per variable.
"Shuffle Permutations" reorders those strings at random. The entry list is
edited through a few small operations: add an entry, add a variant, move an
entry, rename it, edit a variant, delete an entry, delete a variant.

This project models that logic from `src/App.tsx`, as pure functions over
immutable sequences:

- `Text` models JavaScript's `trim` and `slice(0, -1)`, and the two ways of
  laying out values with the `", "` separator.
- `Store` models the entry list and every edit on it. Fresh identifiers are
  parameters; the app draws them from `uuidv4`.
- `VariableMap` models the `reduce` that folds the entries into a JavaScript
  `Map`. The `Map` keeps its keys in insertion order, and `set` on an existing
  key replaces the value in place.
- `Cartesian` is an independent definition of the cartesian product. The
  generator is proved against it.
- `Permutations` models `createPermutations` and its inner recursive
  `generatePermutations`, written as the code is written: recursion over the
  keys and a loop over the variants.
- `Shuffle` models `shufflePermutations`, a Fisher–Yates loop. The random
  draws are an input sequence.

Some behaviour follows the code even where one might expect otherwise:

- `filter((text) => text)` drops only the empty string. Whitespace-only
  variants are kept.
- Entries that share a name give one factor. It sits where the name first
  appears and uses the variants of the last entry with that name.
- An empty entry list yields one empty string, not an empty list, because the
  recursion reaches its base case at once.
- `trim` also strips leading whitespace from the first chosen value. A
  generated string is therefore the values joined by `", "` with leading
  whitespace removed.
- Deleting an entry or a variant works by position.

## Model

| member | source | states |
|---|---|---|
| Text.TrimStartSpec | src/App.tsx:71 | The leading half of `trim` returns a suffix of its input. That suffix is empty or starts with a non-whitespace character, and everything removed is whitespace. |
| Text.TrimEndSpec | src/App.tsx:71 | The trailing half of `trim` returns a prefix of its input. That prefix is empty or ends with a non-whitespace character, and everything removed is whitespace. |
| Text.TerminatedIsJoinThenSeparator | src/App.tsx:81 | For a non-empty list of values, appending `value + ", "` for each value gives the values joined by `", "`, followed by one more `", "`. |
| Text.FinaliseTerminated | src/App.tsx:70-81 | `Text.Finalise` (`Trim` then `DropLast`), which models `trim().slice(0, -1)`, applied to the accumulated string gives the values joined by `", "` with leading whitespace removed. This includes the empty list, which gives `""`. |
| Text.FinaliseIsJoinIff | src/App.tsx:71 | The finalised string equals the plain join if and only if the join does not begin with whitespace. |
| Text.FinaliseIsJoin | src/App.tsx:71 | When the first value does not begin with whitespace, the finalised string is exactly the values joined by `", "`. |
| Store.FindIndex | src/App.tsx:116-119 | `findIndex` finds nothing exactly when no entry carries the identifier. Otherwise it gives the first position that carries it. |
| Store.FindItem | src/App.tsx:115-124 | `findItem` returns null exactly for an unknown identifier. Otherwise it returns the first entry carrying the identifier, together with that entry's index. |
| Store.FindItemUnique | src/App.tsx:115-124 | With unique identifiers, looking up the identifier of the entry at `k` returns that entry and `k`. |
| Store.AddPrompt | src/App.tsx:90-97 | `addPrompt` leaves every existing entry in place and appends exactly one entry: the fresh identifier, an empty name and one empty variant. |
| Store.AddPromptKeepsIdsUnique | src/App.tsx:90-97 | Under a fresh identifier, identifiers stay unique and the new entry is found by its identifier. |
| Store.DeleteAddedPrompt | src/App.tsx:90-97 | Deleting the entry just added gives back the original list. |
| Store.AddPromptText | src/App.tsx:99-113 | An unknown identifier changes nothing. Otherwise the found entry gets one `""` appended to its variants, and nothing else changes. |
| Store.DeleteAddedPromptText | src/App.tsx:99-113 | Deleting the variant `addPromptText` just appended gives back the original list. |
| Store.MoveItem | src/App.tsx:126-139 | An unknown identifier changes nothing. Otherwise the length and the multiset of entries are kept, and the moved entry lands at `atIndex` (clamped to the end of the shortened list). The other entries keep their relative order: removing the target position gives the original list without the moved entry. |
| Store.MoveToOwnIndex | src/App.tsx:126-139 | With unique identifiers, moving the entry at `k` to index `k` changes nothing. |
| Store.MoveFoundToOwnIndex | src/App.tsx:126-139 | For any identifier that `findItem` finds, moving its entry to the index `findItem` reports changes nothing; identifiers need not be unique. |
| Store.MoveItemKeepsIdsUnique | src/App.tsx:126-139 | Moving keeps identifiers unique, and the moved entry is then found at its target index. |
| Store.SetVariableName | src/App.tsx:164-168 | The handler renames the entry at `index`. Its identifier and variants are kept, and every other entry is unchanged. |
| Store.SetVariableNameUndo | src/App.tsx:164-168 | Renaming back to the old name restores the list. |
| Store.SetPromptText | src/App.tsx:169-173 | The handler replaces variant `i` of the entry at `index`. Every other variant and every other entry are unchanged. |
| Store.SetPromptTextUndo | src/App.tsx:169-173 | Writing back the old variant restores the list. |
| Store.EditsKeepLookups | src/App.tsx:164-173 | Renaming an entry or editing a variant leaves every lookup by identifier at the same position. |
| Store.HandleDelete | src/App.tsx:174-178 | Filtering out position `index` removes that one entry and keeps the rest in order. An index past the end changes nothing. |
| Store.HandleDeleteForgetsId | src/App.tsx:174-178 | Deleting keeps identifiers unique and the deleted identifier is then unused. The multiset of entries loses exactly the deleted entry. |
| Store.DeletePromptText | src/App.tsx:179-183 | `splice(i, 1)` removes variant `i` of the entry at `index`, or does nothing when `i` is past the end. Every other entry is unchanged. |
| VariableMap.FilterTexts | src/App.tsx:60 | No empty string is kept, and every non-empty string is kept as often as it occurs. |
| VariableMap.FilterTextsAppend | src/App.tsx:60 | Filtering works piece by piece, so kept variants keep their relative order. |
| VariableMap.MapSet | src/App.tsx:58-61 | `Map.set` keeps keys distinct. It replaces the value of an existing key in place and appends a new key at the end; other bindings are unchanged. |
| VariableMap.Get | src/App.tsx:76 | `Map.get` gives nothing exactly for a missing key. Otherwise it gives the value bound to that key. |
| VariableMap.BuildVariableMap | src/App.tsx:57-62 | The folded `Map` has distinct keys. |
| VariableMap.BuildVariableMapSpec | src/App.tsx:57-63 | The keys of the folded `Map` are exactly the entry names, in order of first occurrence. Each key is bound to the filtered variants of the last entry with that name. |
| VariableMap.BuildVariableMapDistinct | src/App.tsx:57-62 | When names are distinct, the `Map` is the entries in order, each with its variants filtered. |
| VariableMap.DuplicateNameExample | src/App.tsx:57-62 | Concrete case: a name given twice keeps its first position and takes the last entry's non-empty variants. |
| Cartesian.ProductMembership | src/App.tsx:66-84 | A sequence is in the product exactly when it picks one element of each factor, in factor order. |
| Cartesian.ProductOdometer | src/App.tsx:78-83 | The first factor varies slowest. Index `i * n + j` holds the first factor's `i`-th element followed by the `j`-th choice over the remaining factors. |
| Cartesian.LengthProductZero | src/App.tsx:78-83 | The product is empty exactly when some factor is empty. |
| Permutations.GenerateIsFormattedProduct | src/App.tsx:66-84 | From key `index` on, `GeneratePermutations` (the recursion, with `ForEachText` as its `for` loop) yields, in order, the finalised accumulator of every choice over the remaining factors. |
| Permutations.ForEachIsFormatted | src/App.tsx:78-83 | `ForEachText`, the loop from variant `i` on, yields the blocks of the choices that start with variants `i`, `i + 1`, … in that order. |
| Permutations.CreatePermutations | src/App.tsx:56-88 | There is one string per choice over the `Map`'s factors, in product order. String `k` is choice `k` joined by `", "` with leading whitespace trimmed. |
| Permutations.CreatePermutationsCountDistinct | src/App.tsx:56-88 | With distinct names, the count is the product over all entries of each entry's count of non-empty variants. |
| Permutations.CreatePermutationsEmptyStore | src/App.tsx:70-86 | An empty entry list yields exactly `[""]`. |
| Permutations.CreatePermutationsNoneIff | src/App.tsx:78-83 | No string is produced exactly when some `Map` factor is empty, that is, when the last entry with some name has no non-empty variant. |
| Permutations.CreatePermutationsMembership | src/App.tsx:56-88 | A string is produced exactly when it is the trimmed join of some choice of one non-empty variant per name. |
| Permutations.CreatePermutationsOdometer | src/App.tsx:66-84 | String `i * n + j` combines the first name's `i`-th variant with the `j`-th choice over the later names. |
| Permutations.CreatePermutationsPlainJoin | src/App.tsx:70-81 | When no variant of the first name begins with whitespace, each string is exactly the chosen values joined by `", "`. |
| Permutations.AddPromptThenCreateIsEmpty | src/App.tsx:90-97 | Right after "Add Prompt", generation yields nothing. The new entry's only variant is empty, and as the last entry named `""` it decides that name's factor. |
| Permutations.CreatePermutationsExample | src/App.tsx:66-84 | `[a, b]` by `[x, y]` gives `"a, x"`, `"a, y"`, `"b, x"`, `"b, y"`, in that order. |
| Shuffle.SwapMultiset | src/App.tsx:49-52 | The destructuring swap keeps the multiset. |
| Shuffle.ShufflePermutations | src/App.tsx:45-55 | The loop, which `ShuffleDown` restates as a recursive function of the draws, returns a copy with the same length and the same multiset as the input. Inputs of length 0 or 1 come back unchanged. The result is what the draws determine. |
| Shuffle.EveryOrderingReachable | src/App.tsx:47-53 | From any position down, some valid draws turn the sequence into any rearrangement that agrees above that position. |
| Shuffle.ShuffleCanProduceAnyOrdering | src/App.tsx:45-55 | Every reordering of the strings is produced by some valid sequence of draws. |

## Left out

- Rendering and layout (`src/App.tsx` from line 141), `src/components/PromptPartial.tsx` and `src/components/DragContainer.tsx`. They only display entries and forward user events to the handlers modelled here.
- `src/hooks/useLocalStorage.ts` and the clipboard hook: browser storage, JSON parsing and clipboard I/O.
- `uuidv4` and `Math.random` are not modelled. Fresh identifiers and shuffle draws are parameters, and each draw is constrained to `[0, i]` as `Math.floor(Math.random() * (i + 1))` guarantees.
- Shuffle.ShufflePermutations: states which outcomes are possible (every ordering) but not that they are equally likely, because probabilities are outside the model.
- React state updates are not modelled. Every operation returns the new list, and the input sequence is left unchanged because values are immutable.
- The inline handlers copy the list shallowly and then mutate the inner entry. That aliasing is modelled as a value update of that one entry.
- Store.MoveItem: `atIndex` is a natural number. `splice` with a negative start counts from the end, and that case is not modelled. A start past the end of the shortened list is clamped, as `splice` does.
- Store.HandleDelete: `index` is a natural number, so a negative `index` cannot be expressed. The source's `filter((_, i) => i !== index)` would treat it as a no-op.
- Store.DeletePromptText: `i` is a natural number. A negative `splice` start, which the source counts from the end, is not modelled.
- Store.SetVariableName and Store.SetPromptText: an `index` outside the list makes the handler throw, because `newPrompts[index]` is `undefined`, so an existing entry is required. For Store.SetPromptText, an `i` at or past the end would extend the variant array, and a negative `i` would add a property. Neither case is modelled; the user interface passes only existing positions.
- `variableMap.get(variableNames[index])` with the non-null assertion is modelled as a lookup of the `index`-th key. The keys are proved distinct, so the lookup always succeeds.
- CSV import and export are not part of this model. No source for them exists in `src/`.
- Strings are sequences of code points, while JavaScript strings are UTF-16 code units. Every character `trim` removes lies in the Basic Multilingual Plane, and the character `slice(0, -1)` drops is a comma, so the outputs agree.
