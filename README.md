# php-repos/datatype in Dafny

This project models the core of the PHP library php-repos/datatype and proves properties of the model.

The core has three layers:

- **The PHP ordered array and the `Arr` helpers over it.**
  - `Php.PhpArray<V>` is a sequence of `Entry(key, value)` with distinct keys.
  - A key is `IntKey(int)` or `StrKey(string)`.
  - The module defines PHP's array primitives on top of it:
    - assignment to a key overwrites in place, or appends a new key;
    - `$a[] = v` appends at the largest integer key plus one, or 0;
    - `unset`, `array_filter`, `array_merge`, `array_slice`, `array_values`.
  - `Php.Value` holds the PHP values the containers store, with PHP truthiness: null, false, 0, "", "0" and [] are falsy.
  - The helpers of `Source/Arr.php` are in module `Arr`:
    - the early-exit searches (`all`, `any`, `has`, `first`, `first_key`, `last`, `last_key`), `forget` and `take_first` are methods with loops;
    - each of those methods is proved against a specification function (`FirstMatch`, `LastMatch`, `Select`);
    - the others are functions.
- **Three stateful containers, each a class with its PHP array as a field.**
  - `Collections.Collection` wraps a PHP array of values.
  - `Maps.Map` is a list of `{key, value}` records, looked up linearly.
  - `Sets.Set` is a list of values without duplicates.
  - Map and Set compare with the overridable `are_equal`. It is modelled as a parameter `eq`, assumed to be an equivalence relation.
  - Construction, `put` and `add` append an item only when no equal one is present. Module `Equality` proves this once, for both containers: its `AddAll` and `AddEach` implement that rule.
- **String helpers and the mutable `Text`.**
  - `Source/Str.php` is modelled in module `Str`, on strings as sequences of characters.
  - Case mapping is ASCII, as `strtolower` and `ucfirst` do it.
  - `Texts.Text` is a class whose methods rewrite its string and return the object itself.

Where the docblocks or the tests and the code disagree, the model follows the code:
- `Set::map` does not re-check uniqueness: `Sets.MapMayDuplicate` shows that it can produce duplicates.
- Collection's `every`, `skip` and `take` call `every`, `skip` and `take` functions that `Source/Arr.php` does not define. They are modelled by what their names and callers promise:
  - every is `all`;
  - skip is `array_slice`;
  - take is `take_first`.

Five class members state what the code evidently intends instead of what it does: `Maps.Map.Map`, `Maps.Map.constructor`, `Sets.Set.OffsetSet`, `Texts.Text.constructor` and `Texts.Text.Append`. For each, a member beside it models the code as written and a lemma shows the input on which the two differ (see "## Findings"); "## Left out" names what the source does there.

## Model

| member | source | states |
|---|---|---|
| Php.Assign | Source/Collection.php:162-167 | Assigning an existing key replaces its value in place; a new key is appended at the end. |
| Php.AssignSemantics | Source/Collection.php:162-167 | After `$a[k] = v`, k maps to v; every other key keeps its presence and value; the key order is unchanged or gains k at the end. |
| Php.NextIndex | Source/Collection.php:157-160 | The append index is larger than every integer key. |
| Php.Push | Source/Collection.php:157-160 | `$a[] = v` appends v under a key not yet present. |
| Php.Unset | Source/Set.php:304-307 | After unset(k), k is absent; every other key keeps its presence; the entry at k's position is removed. |
| Php.Select | Source/Arr.php:324-329 | array_filter keeps exactly the entries passing the callback, under their own keys. |
| Php.SelectKeepsOrder | Source/Arr.php:324-329 | array_filter keeps the relative order of the entries. |
| Php.SelectKeepsAll | Source/Arr.php:324-329 | array_filter keeps the whole array exactly when every entry passes. |
| Php.MergeIntoList | Source/Arr.php:457-465 | Merging a list into a list appends its values, renumbered. |
| Php.ArrayMergeLists | Source/Arr.php:457-465 | array_merge of lists is the list of all their values, in order. |
| Php.MergeIntoStrings | Source/Arr.php:457-465 | Merging string-keyed entries with fresh keys appends them unchanged. |
| Php.ArrayMergeDisjointStrings | Source/Arr.php:457-465 | array_merge of string-keyed arrays with distinct keys is their concatenation. |
| Php.MergeIntoStringKey | Source/Arr.php:457-465 | A string key is present after the merge iff it was in either array; the later array's value wins. |
| Php.MergeIntoKeepsPositions | Source/Arr.php:457-465 | The keys already present keep their positions: they remain a prefix of the merged keys. |
| Php.FirstStrKey | Source/Set.php:235 | The first string key's position: every key before it is an integer. |
| Php.UnpackOrder | Source/Set.php:235 | Unpacking an array into a call succeeds exactly when its integer keys all come before its string keys. |
| Php.SliceOfList | Source/Collection.php:174-180 | array_slice of a list is the list of the sliced values, renumbered from 0. |
| Php.SliceOfStrings | Source/Collection.php:174-180 | array_slice keeps string keys as they are. |
| Php.ValuesOfList | Source/Collection.php:187-190 | array_values of a list gives back the values it was made from. |
| Arr.All | Source/Arr.php:114-133 | With a condition: true iff every (value, key) passes. Without one: true iff every value is truthy, so an empty array gives true. |
| Arr.Any | Source/Arr.php:147-166 | With a condition: true iff some (value, key) passes. Without one: true iff the array is non-empty. |
| Arr.Has | Source/Arr.php:307-310 | True iff some entry passes the condition. |
| Arr.Contains | Source/Arr.php:212-215 | True iff some value equals the given value under the comparison. |
| Arr.FirstMatch | Source/Arr.php:229-271 | The index of the earliest entry passing the condition, with no passing entry before it; None when no entry passes. |
| Arr.LastMatch | Source/Arr.php:366-408 | The index of the latest entry passing the condition, with no passing entry after it; None when no entry passes. |
| Arr.FirstMatchAppend | Source/Arr.php:229-271 | An entry added at the end changes the first match only when nothing matched before. |
| Arr.FirstMatchAgree | Source/Arr.php:229-271 | Arrays whose entries pass and fail at the same positions have the same first match. |
| Arr.FirstKey | Source/Arr.php:229-242 | Without a condition: the first key, or null when empty. With one: the key of the first match, or null. |
| Arr.First | Source/Arr.php:256-271 | Without a condition: the first value, or null when empty. With one: the value of the first match, or null. |
| Arr.LastKey | Source/Arr.php:366-380 | Without a condition: the last key, or null when empty. With one: the key of the last match, or null. |
| Arr.Last | Source/Arr.php:394-408 | Without a condition: the last value, or null when empty. With one: the value of the last match, or null. |
| Arr.Filter | Source/Arr.php:324-329 | Keeps exactly the entries passing the callback, or the truthy ones without a callback; nothing else is added. |
| Arr.Forget | Source/Arr.php:284-293 | Unsetting each matching key in turn leaves exactly the entries failing the condition, in order, with their keys. |
| Arr.FilterForgetPartition | Source/Arr.php:284-329 | Filter and forget with one condition partition the array: their sizes add up, and every entry lands in exactly one of them. |
| Arr.TakeFirst | Source/Arr.php:500-511 | No match: null, and the array is unchanged. Otherwise: the value of the first match, and exactly that entry is removed. |
| Arr.TakeFirstTwice | Source/Arr.php:500-511 | A second take_first finds the next match after the one removed, never the same entry. |
| Arr.InsertAfter | Source/Arr.php:343-352 | Defined by its body (the entries up to the key, the additional ones, the rest, merged); see Arr.InsertAfterList and Arr.InsertAfterStrings. |
| Arr.InsertAfterList | Source/Arr.php:343-352 | On lists: the additional values go right after the given key, or at the end when it is absent, and everything is renumbered. |
| Arr.InsertAfterStrings | Source/Arr.php:343-352 | With string keys: the additional entries are spliced in right after the given key, keys kept. |
| Arr.Map | Source/Arr.php:421-425 | Same length; element i is the callback applied to entry i's value and key. |
| Arr.MaxKeyLength | Source/Arr.php:438-441 | The length of the longest key, attained by some key; 0 for an empty array. |
| Arr.DigitCountBounds | Source/Arr.php:438-441 | An integer key's length counted by max_key_length is its number of decimal digits. |
| Arr.Merge | Source/Arr.php:457-465 | Defined by its body (array_merge folded over the arrays); see Arr.MergeLists, Arr.MergeExample, Arr.MergeStringKey and Arr.ArrayMergeKeepsPositions. |
| Arr.MergeLists | Source/Arr.php:457-465 | Merging lists gives the list of all their values in order. |
| Arr.MergeExample | Source/Arr.php:457-465 | merge([1, 2], [2, 3]) == [1, 2, 2, 3]. |
| Arr.MergeStringKey | Source/Arr.php:457-465 | A string key is in the merge iff it is in either array; the later array's value wins. |
| Arr.ArrayMergeKeepsPositions | Source/Arr.php:457-465 | The first array's keys keep their positions when a second array is merged in. |
| Arr.Reduce | Source/Arr.php:479-487 | Defined by its body (the callback folded over (carry, value, key) from the first entry on); see Arr.ReduceAppend. |
| Arr.ReduceAppend | Source/Arr.php:479-487 | Reducing a concatenation reduces the second part, starting from the first part's result. |
| Arr.Prepend | Source/Arr.php:179-198 | Every tuple is an item of the first list followed by a product tuple; there are items × products of them. |
| Arr.PrependComplete | Source/Arr.php:179-198 | Every item followed by every product tuple occurs. |
| Arr.CartesianProduct | Source/Arr.php:179-198 | The number of tuples is the product of the list lengths; each tuple takes one element from each list, in list order. |
| Arr.PrependAt | Source/Arr.php:189-194 | The entry j of block i (block i starting at i * m) of the loop's result is the i-th item before the j-th of the m sub-products. |
| Arr.CartesianProductOrder | Source/Arr.php:179-198 | The first list varies slowest: the tuple at i * m + j is the i-th element of the first list before the j-th tuple of the product of the other lists, m being that product's size. |
| Arr.PrependPairs | Source/Arr.php:189-194 | Two items before two one-element sub-products give the four pairs, the first item's two first. |
| Arr.LetterProduct | Source/Arr.php:179-198 | The product of the single list ['a', 'b'] is ['a'] then ['b']. |
| Arr.CartesianProductExample | Source/Arr.php:175 | The product of [1, 2] and ['a', 'b'] is [1, 'a'], [1, 'b'], [2, 'a'], [2, 'b'], in that order. |
| Arr.CartesianProductComplete | Source/Arr.php:179-198 | Every choice of one element from each list occurs in the product. |
| Arr.CartesianProductOfEmpty | Source/Arr.php:179-198 | An empty inner list makes the product empty. |
| Equality.AddAll | Source/Set.php:129-138 | The existing items are kept as a prefix; only offered values are appended, at most one per value. |
| Equality.AddAllSnoc | Source/Set.php:129-138 | Offering one more value appends it exactly when no equal value is present yet, and otherwise changes nothing. |
| Equality.AddAllKeepsOrder | Source/Set.php:129-138 | The appended values are a subsequence of the offered ones: they keep their input order. |
| Equality.AddAllClasses | Source/Set.php:129-138 | After adding, a value is present iff it was present or was offered. |
| Equality.AddAllDistinct | Source/Set.php:129-138 | Adding keeps the items pairwise unequal. |
| Equality.AddAllFirstWins | Source/Map.php:51-61 | A value with no equal one before it, in the items or earlier in the input, is stored. |
| Equality.AddAllPresent | Source/Set.php:129-138 | Re-adding values that are all present changes nothing. |
| Equality.SelectDistinct | Source/Set.php:175-180 | Filtering pairwise unequal items keeps them pairwise unequal. |
| Collections.SkipList | Source/Collection.php:174-180 | On a list, skip(n) is the values after the first n, renumbered; it is empty when n reaches the count. |
| Collections.SkipExample | Source/Collection.php:174-180 | skip(1) of [foo, bar, baz] is [bar, baz]. |
| Collections.DefaultExceptFilter | Source/Collection.php:51-83 | Without a closure, an entry is kept by except exactly when its value is falsy and by filter exactly when its value is truthy. |
| Collections.Collection.constructor | Source/Collection.php:27-30 | The items are the initial array. |
| Collections.Collection.Count | Source/Collection.php:32-35 | The count is the number of entries. |
| Collections.Collection.Items | Source/Collection.php:112-115 | The stored array. |
| Collections.Collection.Keys | Source/Collection.php:117-120 | The keys in order. |
| Collections.Collection.Values | Source/Collection.php:187-190 | The values in order, renumbered from 0. |
| Collections.Collection.Map | Source/Collection.php:132-135 | The callback applied to each value and key, renumbered from 0; the items are untouched. |
| Collections.Collection.Reduce | Source/Collection.php:169-172 | The result is Arr.Reduce over the items: the closure folded over the entries in order, so an empty collection gives the carry. |
| Collections.Collection.Each | Source/Collection.php:37-44 | Returns the collection itself; the closure's side effects are not modelled. |
| Collections.Collection.Every | Source/Collection.php:46-49 | True iff every entry passes the check, or every value is truthy without one. |
| Collections.Collection.Except | Source/Collection.php:51-66 | A new collection of exactly the entries failing the check (the falsy ones by default), keys kept. |
| Collections.Collection.Filter | Source/Collection.php:68-83 | A new collection of exactly the entries passing the closure (the truthy ones by default), keys kept. |
| Collections.Collection.FirstKey | Source/Collection.php:85-88 | As Arr.FirstKey on the items. |
| Collections.Collection.First | Source/Collection.php:90-93 | As Arr.First on the items. |
| Collections.Collection.LastKey | Source/Collection.php:122-125 | As Arr.LastKey on the items. |
| Collections.Collection.Last | Source/Collection.php:127-130 | As Arr.Last on the items. |
| Collections.Collection.Has | Source/Collection.php:107-110 | True iff some entry passes the closure. |
| Collections.Collection.Forget | Source/Collection.php:95-100 | In place, exactly the entries failing the condition remain, with their keys and order; returns itself. |
| Collections.Collection.OffsetExists | Source/Collection.php:137-140 | isset: true iff the key is present and its value is not null. |
| Collections.Collection.OffsetGet | Source/Collection.php:142-145 | The value at the key, or null when it is absent. |
| Collections.Collection.Put | Source/Collection.php:162-167 | With a key: assignment at that key. Without one: append at the next index. Returns itself. |
| Collections.Collection.Push | Source/Collection.php:157-160 | Appends at the next index; returns itself. |
| Collections.Collection.OffsetSet | Source/Collection.php:147-150 | The same as put(value, offset). |
| Collections.Collection.OffsetUnset | Source/Collection.php:152-155 | Removes only the given key. |
| Collections.Collection.Skip | Source/Collection.php:174-180 | A new collection of the entries after the first n, via array_slice. |
| Collections.Collection.Take | Source/Collection.php:182-185 | No match: null, and the items are unchanged. Otherwise: the first match's value, with exactly that entry removed. |
| Maps.Lookup | Source/Map.php:249-258 | None iff no stored key equals the key; otherwise the value of a pair with an equal key. |
| Maps.LookupUnique | Source/Map.php:249-258 | With unique keys, a lookup finds the value of the pair whose key is equal. |
| Maps.LookupEquivalentKeys | Source/Map.php:249-258 | Equal keys find the same pair. |
| Maps.PutItems | Source/Map.php:115-122 | Defined by its body (the pair offered once to the unique-key insertion); see Maps.PutShape, Maps.PutKeepsUnique and Maps.PutLookup. |
| Maps.PutShape | Source/Map.php:115-122 | put changes nothing when an equal key is present; otherwise it appends exactly the new pair. |
| Maps.PutKeepsUnique | Source/Map.php:115-122 | put keeps the keys pairwise unequal. |
| Maps.PutLookup | Source/Map.php:115-122 | After put, the key maps to the new value only if it was absent; every other lookup is unchanged. |
| Maps.SwapItems | Source/Map.php:185-194 | Same length, same keys; only the first pair with an equal key gets the new value. |
| Maps.SwapLookup | Source/Map.php:185-194 | After swap, a present key maps to the new value; an absent key stays absent; other lookups are unchanged. |
| Maps.SetItems | Source/Map.php:157-168 | Defined by its body (swap when an equal key is present, otherwise append the pair); see Maps.SetLookup and Maps.SetKeepsUnique. |
| Maps.SetLookup | Source/Map.php:157-168 | After set, the key maps to the new value; every other lookup is unchanged. |
| Maps.SetKeepsUnique | Source/Map.php:157-194 | set and swap keep the keys pairwise unequal. |
| Maps.UnsetLookup | Source/Map.php:288-291 | After offsetUnset, the key is absent; every other lookup is unchanged. |
| Maps.MapValues | Source/Map.php:209-217 | Each pair keeps its index and key; its value becomes the callback of value and key. |
| Maps.MapLookup | Source/Map.php:209-217 | After map, a key finds the callback applied to its old value; absent keys stay absent; keys stay unique. |
| Maps.MapAsWritten | Source/Map.php:209-217 | map as written keeps the number of pairs. |
| Maps.MapAsWrittenWithoutGaps | Source/Map.php:209-217 | Without gaps in the internal indices, map as written is the intended map. |
| Maps.MapAsWrittenAfterGap | Source/Map.php:209-217 | After a gap, map as written stores null where the intended map stores the value. |
| Maps.ReadPairAsWritten | Source/Map.php:51-61 | A pair whose key is not null is read as it is. |
| Maps.NullKeyLosesValue | Source/Map.php:51-61 | A pair with a null key is read with a null value. |
| Maps.ConstructedLookup | Source/Map.php:51-61 | After construction the keys are unique, and a key's first pair in the input gives its value. |
| Maps.Map.constructor | Source/Map.php:51-61 | The pairs are put one by one, in order; the keys are unique. |
| Maps.ConstructionOrder | Source/Map.php:51-61 | A new map's pairs are a subsequence of the initial pairs, in their order. |
| Maps.Map.From | Source/Map.php:76-85 | A new map built as the constructor builds it. |
| Maps.Map.ToArray | Source/Map.php:97-100 | The pairs in order, renumbered from 0. |
| Maps.Map.Count | Source/Map.php:321-324 | The number of pairs. |
| Maps.Map.OffsetExists | Source/Map.php:231-234 | True iff some stored key equals the offset. |
| Maps.Map.OffsetGet | Source/Map.php:249-258 | The value of the pair with an equal key; OutOfBounds when there is none. |
| Maps.Map.Put | Source/Map.php:115-122 | Inserts only when the key is absent; keys stay unique; returns itself. |
| Maps.Map.Set | Source/Map.php:157-168 | Updates a present key, or inserts an absent one; keys stay unique; returns itself. |
| Maps.Map.Swap | Source/Map.php:185-194 | Updates only a present key, never inserts; keys stay unique; returns itself. |
| Maps.Map.Forget | Source/Map.php:135-140 | Exactly the pairs failing the condition remain, at their indices; returns itself. |
| Maps.Map.Map | Source/Map.php:209-217 | Each value becomes the callback of value and key; keys and order are kept. |
| Maps.Map.OffsetSet | Source/Map.php:272-275 | Behaves as put. |
| Maps.Map.OffsetUnset | Source/Map.php:288-291 | Exactly the pairs whose key equals the offset are removed. |
| Sets.Steps | Source/Set.php:84-87 | Starts at start, moves by step towards end, stays between start and end, and stops less than a step from end. |
| Sets.IntRange | Source/Set.php:84-87 | A zero step, or a negative step on an increasing range, is an error; otherwise the steps from start to end. |
| Sets.RangeOneToFive | Source/Set.php:84-87 | range(1, 5) is [1, 2, 3, 4, 5]. |
| Sets.StepsByOne | Source/Set.php:84-87 | With step 1, the range has end - start + 1 elements and element i is start + i. |
| Sets.Letters | Source/Set.php:98-101 | The 26 letters 'a' to 'z', in order. |
| Sets.AddSemantics | Source/Set.php:129-138 | add keeps every item, keeps them unique, and leaves exactly the present or offered values present; re-adding changes nothing. |
| Sets.RemoveEach | Source/Set.php:151-162 | remove only drops items. |
| Sets.RemoveKeepsDistinct | Source/Set.php:151-162 | remove keeps the items unique. |
| Sets.RemoveRemoves | Source/Set.php:151-162 | After remove, no item equals a removed value. |
| Sets.RemoveKeepsOthers | Source/Set.php:151-162 | An item equal to no removed value is kept, at its key. |
| Sets.RemoveAbsent | Source/Set.php:151-162 | Removing absent values changes nothing. |
| Sets.OffsetSetItems | Source/Set.php:286-291 | Defined by its body (the intended offsetSet); see Sets.OffsetSetSemantics and Sets.AssignNewDistinct. |
| Sets.OffsetSetSemantics | Source/Set.php:286-291 | A present value changes nothing; a new one is stored at the offset, or appended; uniqueness is kept. |
| Sets.AssignNewDistinct | Source/Set.php:286-291 | Storing a value equal to no item keeps the items unique. |
| Sets.OffsetSetAsWritten | Source/Set.php:286-291 | Defined by its body (offsetSet as written, a null offset becoming the key ""); see Sets.AppendAsWrittenOverwrites. |
| Sets.AppendAsWrittenOverwrites | Source/Set.php:286-291 | Two appends as written leave only the second value, under "". |
| Sets.AppendCorrected | Source/Set.php:286-291 | Two appends leave both values, as the list [1, 2]. |
| Sets.MapItems | Source/Set.php:210-215 | map is the callback of each item, in order, renumbered from 0. |
| Sets.MapMayDuplicate | Source/Set.php:210-215 | map can leave equal items behind. |
| Sets.Set.constructor | Source/Set.php:48-54 | The values are added one by one; the first of each equal group is kept, in order. |
| Sets.ConstructionOrder | Source/Set.php:48-54 | A new set's values are a subsequence of the initial values, in their order. |
| Sets.ConstructionExample | Source/Set.php:44 | new Set([1, 2, 2, 3]) holds 1, 2, 3, in that order. |
| Sets.Set.From | Source/Set.php:66-69 | A new set built as the constructor builds it. |
| Sets.Set.Range | Source/Set.php:84-87 | The set of the integer range, or the range's error. |
| Sets.Set.Alphabet | Source/Set.php:98-101 | The set of the letters 'a' to 'z'. |
| Sets.Set.ToArray | Source/Set.php:113-116 | The items in order, renumbered from 0. |
| Sets.Set.Count | Source/Set.php:337-340 | The number of items. |
| Sets.Set.Add | Source/Set.php:129-138 | Each new value is appended unless an equal item is present; uniqueness is kept; returns itself. |
| Sets.Set.Remove | Source/Set.php:151-162 | For each value, the first equal item is unset; uniqueness is kept; returns itself. |
| Sets.Set.Forget | Source/Set.php:175-180 | The items failing the condition, renumbered from 0; uniqueness is kept; returns itself. |
| Sets.Set.Clear | Source/Set.php:192-197 | No items; count 0; returns itself. |
| Sets.Set.Map | Source/Set.php:210-215 | The mapped items, renumbered, with no uniqueness check; returns itself. |
| Sets.Set.Merge | Source/Set.php:233-238 | When a string key precedes an integer key in the merged array, the unpacking into add fails and the set is unchanged; otherwise every merged value is added in order, uniqueness is kept and the set itself is returned. |
| Sets.MergeOfListsUnpacks | Source/Set.php:233-238 | Merging arrays with integer keys only never makes the unpacking fail. |
| Sets.MergeNamedFirstFails | Source/Set.php:233-238 | Merging ['a' => 1] with [2] puts a named argument before a positional one. |
| Sets.Set.OffsetExists | Source/Set.php:252-255 | isset: true iff the key is present and its value is not null. |
| Sets.Set.OffsetGet | Source/Set.php:268-271 | The item at the key, or null. |
| Sets.Set.OffsetSet | Source/Set.php:286-291 | A new value is stored at the offset, or appended without one; a present value changes nothing; uniqueness is kept. |
| Sets.Set.OffsetUnset | Source/Set.php:304-307 | The key is unset; uniqueness is kept. |
| Str.FirstOccurrence | Source/Str.php:5-12 | The position of the earliest occurrence of the needle, with none before it; None when there is none. |
| Str.LastOccurrence | Source/Str.php:14-21 | The position of the latest occurrence of the needle, with none after it; None when there is none. |
| Str.AfterFirstOccurrence | Source/Str.php:5-12 | Defined by its body; see Str.FirstOccurrenceSplit. |
| Str.AfterLastOccurrence | Source/Str.php:14-21 | Defined by its body; see Str.LastOccurrenceSplit. |
| Str.BeforeFirstOccurrence | Source/Str.php:23-30 | Defined by its body; see Str.FirstOccurrenceSplit. |
| Str.BeforeLastOccurrence | Source/Str.php:32-39 | Defined by its body; see Str.LastOccurrenceSplit. |
| Str.FirstOccurrenceSplit | Source/Str.php:5-30 | before + needle + after rebuilds the subject, with no occurrence before; an empty or absent needle gives the subject on both sides. |
| Str.LastOccurrenceSplit | Source/Str.php:14-39 | before + needle + after rebuilds the subject, with no occurrence after; an empty or absent needle gives the subject on both sides. |
| Str.ToLower | Source/Str.php:41-61 | Same length, each character lower-cased; no upper-case letter is left. |
| Str.UcFirst | Source/Str.php:63-72 | Only the first character is upper-cased. |
| Str.LcFirst | Source/Str.php:63-72 | Only the first character is lower-cased. |
| Str.FirstOccurrenceIgnoringCase | Source/Str.php:41-61 | stripos: the earliest position where the needle occurs ignoring case; None when it occurs nowhere ignoring case. |
| Str.Between | Source/Str.php:41-61 | Defined by its body; see Str.BetweenOneSided and Str.BetweenDelimited. |
| Str.BetweenOneSided | Source/Str.php:41-53 | Both delimiters empty: the subject. Empty start: the part before the end. Empty end: the part after the start. |
| Str.BetweenDelimited | Source/Str.php:55-60 | Both delimiters given: a piece of the subject directly followed by the end delimiter and free of it, or "". |
| Str.Trim | Source/Str.php:84-94 | Neither end of the result is trimmable; a blank subject gives ""; the result is a piece of the subject with only trimmable characters before and after it. |
| Str.FirstIndexOfAgrees | Source/Str.php:84-94 | Searching for the line break character is strpos with a one-character needle. |
| Str.LineBeforeBreak | Source/Str.php:84-94 | A prefix of the subject after its leading line breaks, holding no break and followed there by a break or by the end; a blank subject gives a blank line. |
| Str.FirstLineShape | Source/Str.php:84-94 | first_line holds no line break and is trimmed at both ends; a blank subject gives "". |
| Str.FirstLine | Source/Str.php:84-94 | Defined by its body (trim of the line before the first break); see Str.FirstLineShape and Str.FirstLineOf. |
| Str.TrimOf | Source/Str.php:84-94 | trim of blanks, then a text starting and ending with a kept character, then blanks, is that text. |
| Str.LineBeforeBreakOf | Source/Str.php:84-94 | Line breaks, then a non-empty line without breaks, then nothing or a break: the line kept is that line. |
| Str.FirstLineOf | Source/Str.php:84-94 | After the leading breaks, the first line's text between its blanks is what first_line returns. |
| Str.FirstLineExample | Source/Str.php:84-94 | first_line("This is the first line.\nThis is the second line.") is "This is the first line.". |
| Str.FirstLineTrimmedExample | Source/Str.php:84-94 | first_line("   This is the first line.   \n   ") is "This is the first line.". |
| Str.FirstCharacter | Source/Str.php:79-82 | One character, or none for "". |
| Str.LastCharacter | Source/Str.php:96-99 | One character, or none for "". |
| Str.RemoveFirstCharacter | Source/Str.php:123-126 | first_character + the result is the subject; one character shorter unless empty. |
| Str.RemoveLastCharacter | Source/Str.php:128-131 | The result + last_character is the subject; one character shorter unless empty. |
| Str.PrependWhenExists | Source/Str.php:118-121 | A truthy subject gets the prefix in front; otherwise "". |
| Str.ReplaceFirstOccurrence | Source/Str.php:133-141 | Defined by its body; see Str.ReplaceFirstOccurrenceSplit. |
| Str.ReplaceFirstOccurrenceSplit | Source/Str.php:133-141 | Only the first occurrence is replaced; an absent search changes nothing; an empty search prepends. |
| Str.InsertUnderscores | Source/Str.php:143-153 | Only underscores are added; a subject without upper-case letters is unchanged. |
| Str.CollapseRuns | Source/Str.php:101-153 | Separators are replaced; a subject without separators is unchanged. |
| Str.SnakeCase | Source/Str.php:143-153 | Defined by its body (underscores inserted, runs of blanks and hyphens collapsed, lower-cased); see Str.SnakeCaseShape. |
| Str.SnakeCaseShape | Source/Str.php:143-153 | snake_case leaves no blank, hyphen or upper-case letter, and is idempotent. |
| Str.KebabCase | Source/Str.php:101-111 | Defined by its body (underscores inserted, runs of blanks and underscores collapsed to a hyphen, lower-cased); see Str.KebabCaseShape. |
| Str.KebabCaseShape | Source/Str.php:101-111 | kebab_case leaves no blank, underscore or upper-case letter, and is idempotent. |
| Str.Split | Source/Str.php:162-166 | The pieces are non-empty and free of separators, and together they are the subject's non-separator characters. |
| Str.Words | Source/Str.php:162-166 | No separators: None. Otherwise non-empty separator-free words that make up the subject's non-separator characters; that they are the maximal runs is Str.WordsMaximal with Str.WordsOfInterleave. |
| Str.WordsOfJoin | Source/Str.php:162-166 | Splitting words joined by separators gives back the words. |
| Str.SplitInterleave | Source/Str.php:162-166 | Non-empty separator-free words, with runs of separators before, between (non-empty) and after them, are split back into exactly those words. |
| Str.WordsOfInterleave | Source/Str.php:162-166 | words of such an interleaving gives back exactly the words, whatever separators stand at the ends. |
| Str.SplitGlues | Source/Str.php:162-166 | The pieces split from a subject, interleaved with suitable runs of separators, rebuild the subject exactly. |
| Str.WordsMaximal | Source/Str.php:162-166 | The subject is its words with runs of separators around and between them: the words are the maximal runs of non-separators. |
| Str.WordsTrimExample | Source/Str.php:162-166 | words("  Trim   ") is ["Trim"]. |
| Str.WordsCustomExample | Source/Str.php:162-166 | With the comma and the vertical bar as separators, words splits "apple,banana", a vertical bar, "cherry" into ["apple", "banana", "cherry"]. |
| Str.TruthyOnly | Source/Str.php:74-77 | Exactly the non-null truthy subjects are kept. |
| Str.Concat | Source/Str.php:74-77 | Defined by its body (the truthy subjects imploded with the glue); see Str.TruthyOnly, Str.ConcatSkipsFalsy and Str.ConcatThenWords. |
| Str.ConcatSkipsFalsy | Source/Str.php:74-77 | A null or falsy subject makes no difference to concat. |
| Str.ConcatThenWords | Source/Str.php:74-77 | Splitting concat's result at its glue gives back exactly the truthy subjects. |
| Str.CamelCase | Source/Str.php:63-72 | Defined by its body (hyphens and underscores to blanks, words upper-cased first and joined, first letter lower-cased); see Str.CamelCaseShape. |
| Str.CamelCaseShape | Source/Str.php:63-72 | camel_case leaves no blank, hyphen or underscore, starts lower-case, and is idempotent. |
| Str.PascalCase | Source/Str.php:113-116 | Defined by its body (ucfirst of camel_case); see Str.PascalCaseShape. |
| Str.PascalCaseShape | Source/Str.php:113-116 | pascal_case leaves no blank, hyphen or underscore, starts upper-case, and is camel_case with an upper-case first letter. |
| Str.JoinedIsFixed | Source/Str.php:63-72 | camel_case of a joined string only sets the case of its first letter. |
| Texts.InitialAsWritten | Source/Text.php:44-47 | Defined by its body (`$init ?: ''`); see Texts.InitialAsWrittenLosesZero. |
| Texts.InitialAsWrittenLosesZero | Source/Text.php:44-47 | new Text("0") holds "" as written. |
| Texts.AppendAsWritten | Source/Text.php:109-114 | Defined by its body (concat of the current string and the subjects with no glue); see Texts.AppendAsWrittenLosesZero and Texts.AppendAsWrittenWithoutZero. |
| Texts.AppendAsWrittenLosesZero | Source/Text.php:109-114 | Appending "1" to "0" gives "1" as written. |
| Texts.AppendAsWrittenWithoutZero | Source/Text.php:109-114 | Without "0" anywhere, append as written is plain concatenation. |
| Texts.ConcatOfCurrent | Source/Text.php:128-133 | A truthy current string comes first, followed by the glue only when a truthy subject follows; a falsy one is dropped. |
| Texts.Text.constructor | Source/Text.php:44-47 | The initial string, or "" without one. |
| Texts.Text.From | Source/Text.php:60-63 | A new Text built as the constructor builds it. |
| Texts.Text.String | Source/Text.php:75-78 | The current string, also returned by __toString (Source/Text.php:267-270). |
| Texts.Text.Set | Source/Text.php:91-96 | The string becomes the given one; returns itself. |
| Texts.Text.Append | Source/Text.php:109-114 | The subjects follow the old string with nothing between; the old string is a prefix; returns itself. |
| Texts.Text.Concat | Source/Text.php:128-133 | The string becomes concat of the old string and the subjects; returns itself. |
| Texts.Text.Map | Source/Text.php:146-151 | The string becomes the callback's result; returns itself. |
| Texts.Text.CamelCase | Source/Text.php:163-168 | camel_case of the old string, free of blanks, hyphens and underscores; returns itself. |
| Texts.Text.KebabCase | Source/Text.php:180-185 | kebab_case of the old string, free of blanks, underscores and upper case; returns itself. |
| Texts.Text.PascalCase | Source/Text.php:197-202 | pascal_case of the old string, free of blanks, hyphens and underscores; returns itself. |
| Texts.Text.SnakeCase | Source/Text.php:214-219 | snake_case of the old string, free of blanks, hyphens and upper case; returns itself. |
| Texts.Text.RemoveFirstCharacter | Source/Text.php:231-236 | The first character goes; it and the new string make up the old one; returns itself. |
| Texts.Text.RemoveLastCharacter | Source/Text.php:248-253 | The last character goes; the new string and it make up the old one; returns itself. |

## Left out

- PHP's remembered next free index (`nNextFreeElement`) is not modelled: after an unset, `$a[] = v` uses the largest integer key present plus one. PHP may use a larger index that was used before.
- Loose `==` comparison is not modelled. Map and Set take their comparison as a parameter `eq`, assumed to be an equivalence relation. Arr `contains` takes its comparison the same way.
- Strings are sequences of characters. The byte-level behaviour of `strlen`, `substr`, `strpos` and `stripos` on multibyte text is not modelled, nor are the `mb_*` functions.
- Case mapping is ASCII only; non-ASCII letters and separators are left as they are.
- `PHP_EOL` is taken to be "\n" in `first_line`.
- Floats, objects and resources are not values of the model. `to_array`'s probing of objects and iterables is left out, and so are `getIterator` and the `Countable` and `IteratorAggregate` plumbing.
- Set `range` is modelled for integers and for the letters 'a' to 'z' only. For a step larger than the distance between the ends, the range is taken to be `[start]`.
- Exceptions thrown by callbacks are not modelled. Callbacks are total functions.
- Map's `{key, value}` records are read as key/value pairs. A record lacking either field is not modelled; the null-key case is (see Findings).
- Maps.Map.Map: the contract states the intended `map`. As written, it misaligns values after a gap (see Findings).
- Maps.Map.constructor: reads a `{key: null, value: v}` record as the pair (null, v). The source reads such a record by position and stores (null, null) (see Findings).
- Sets.Set.OffsetSet: a null offset appends the value at the next index. The source stores it under the key "", so `$set[] = 1; $set[] = 2;` on an empty set leaves only 2 (see Findings).
- Texts.Text.constructor: keeps "0" as the initial string. The source's `$init ?: ''` stores "" for it (see Findings).
- Texts.Text.Append: appends every subject to the current string. The source goes through `concat`, which drops falsy subjects and a current string of "0", so appending "1" to "0" gives "1" (see Findings).
- Collections.Collection.Each: a PHP closure may have side effects; the closures of the model are pure functions, so what each does through them is not modelled.
- Arr.Reduce and Collections.Collection.Reduce: the carry has no default. A PHP call without one is the call with `Null`.
- Arr `insert_after` finds the key with `array_search`, which compares loosely. The model compares keys exactly.
- Collection's constructor with `null` is not modelled; the initial array is always given.
- Collections.Collection.Skip: a negative offset is not modelled (the offset is a `nat`).
- Offsets of the `offset*` methods are keys as PHP has already cast them. The casts themselves ("1" to 1, true to 1, null to "") are not modelled, except the null offset of `$set[] = v`.
- `camel_case`: `preg_split` may give empty pieces at the ends, and they add nothing to the result. The model splits into the words only.
- Texts.Text.Map: the callback receives the string, not the Text object.
- Texts.Text.Concat: keeps concat's dropping of falsy subjects, including the current string, as written.
- `starts_with_regex`, `assert_equal` and `assert_same` are not modelled: they rest on the PCRE engine and on message formatting.
- `words` with an empty separator list builds the pattern `/[]+/`, which does not compile. The model returns None for that case.
- Collection `every`, `skip` and `take` call Arr functions that `Source/Arr.php` does not define (see above).

## Findings

| source | as written | input that shows it | evidently intended | confidence | as-written member | corrected member |
|---|---|---|---|---|---|---|
| Source/Map.php:209-217 | `map` indexes the reindexed result of `array_map` with the items' own internal indices | a map whose pair at index 1 was forgotten, leaving indices 0 and 2 | each pair's value replaced by the callback of its own value and key | high, not executed | Maps.MapAsWritten, Maps.MapAsWrittenAfterGap | Maps.MapValues, Maps.Map.Map |
| Source/Set.php:286-291 | `$set[] = v` reaches `offsetSet` with a null offset, and `$this->items[null] = v` stores under the key "" | `$set[] = 1; $set[] = 2;` on an empty set leaves only 2 | the value appended at the next index | high, not executed | Sets.OffsetSetAsWritten, Sets.AppendAsWrittenOverwrites | Sets.AppendCorrected, Sets.Set.OffsetSet |
| Source/Map.php:51-61 | `isset($pair['key'])` is false for a record whose key is null, so the record is read by position (`$pair[0]`, `$pair[1]`), which it lacks | the record {key: null, value: 5} is read as (null, null) | the pair's key and value read as given | medium, not executed | Maps.ReadPairAsWritten, Maps.NullKeyLosesValue | Maps.Map.constructor, Maps.ConstructedLookup |
| Source/Text.php:44-47 | `$init ?: ''` treats "0" as missing | new Text("0") holds "" | the initial string kept | medium, not executed | Texts.InitialAsWritten, Texts.InitialAsWrittenLosesZero | Texts.Text.constructor |
| Source/Text.php:109-114 | `append` goes through `concat`, which drops falsy strings, "0" among them | appending "1" to "0" gives "1" | the subjects appended to the string | medium, not executed | Texts.AppendAsWritten, Texts.AppendAsWrittenLosesZero | Texts.Text.Append |
