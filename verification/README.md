# appcia/utils in Dafny: nested-array paths, array helpers, value helpers, serialization check

This project models the core of the PHP library appcia/utils and proves properties of the model:

- **`Arrays`**, the nested-array helpers. The model covers:
  - the path accessor `getPath` / `setPath`, which reads and writes a value along a key path such as `user.address.city`, with a `*` wildcard on reads;
  - the ordered-map helpers `isAssoc`, `search`, `replace`, `clear`, `filter`, `skip`, `sliceEquinum`, `glue`, `pass`, `extend`, `unique` and `occurrences`;
  - the line-based text codec `parse` / `compose`, one `key => value` record per line.
- **`Val`**, the value helpers `test`, `specified`, `nulls`, `prop` and `props`. `prop` is a `.`-chained property lookup.
- **`Php::isEncoded`**, which tells whether a string looks like the output of PHP's `serialize`.

## How PHP is modelled

A PHP array is a sequence of `Entry(key, val)` in iteration order (module `PhpValues`, `values.dfy`).

- **Keys.** A key is `IntKey` or `StrKey`. A string that is a canonical decimal integer names the integer key (`ToKey`). A value used as a key follows PHP's offset rules (`OffsetKey`):
  - null names `""`;
  - booleans name 0 and 1;
  - an array is an illegal offset.
- **Writes.** `Put` replaces the value of a present key in place, or appends a new entry. `Unset` removes the entry. `Append` is `$a[] = $v`: it uses one more than the largest integer key, or 0.
- **Presence and truth.**
  - `Find` is `array_key_exists` with the stored value.
  - `IsSet` is `isset`: the key is present and its value is not null.
  - `Truthy` is PHP's boolean conversion, so `empty` is its negation.
- **Values.** A value is null, a boolean, an integer, a string or an array. Integers are unbounded and strings are sequences of characters.

**PHP version.** The model follows PHP 8.0 to 8.2. Three behaviours depend on that:
- An array used as an array offset (in `isset`, `unset`, `array_key_exists` or an assignment) throws a `TypeError`. The model returns the error `IllegalOffset` there. This concerns `replace`, `clear`, `nulls` and `pass`. PHP 7 only warned and went on.
- Dividing by zero throws a `DivisionByZeroError`. The model returns the error `DivisionByZero` from `sliceEquinum` when `$count` is 0. PHP 7 warned and returned `false`.
- `$a[] = $v` on an array whose integer keys are all negative uses the index 0 (`NextIndex`). PHP 8.3 uses one more than the largest key instead.

**Form of the model.** Code that works by changing local arrays in loops is modelled the same way:
- the `foreach` and `while` loops of `getPath`, `setPath`, `search`, `replace`, `clear`, `filter`, `skip`, `parse`, `compose`, `pass`, `extend`, `unique`, `occurrences`, `nulls`, `prop` and `props` are methods with loops;
- each such method is proved equal to a specification function;
- the properties are proved about that function.

PHP passes arrays by value, and `foreach` walks a copy of the array. So these methods work on sequences, and return the array the PHP function returns.

`setPath` writes through a chain of references (`$array = &$array[$key]`). `ArraysPath.SetPath` keeps the arrays it passes on the way down, then writes the new innermost array back up, level by level (`WriteBack`).

**Where the code differs from other descriptions of the library, the model follows the code:**
- `getPath` looks the whole path up as a literal key *before* trimming and splitting it (`src/Appcia/Utils/Arrays.php:152-155`).
- `setPath` neither trims its path nor replaces an existing scalar on the way down. It creates an array only where the key is absent or null (`src/Appcia/Utils/Arrays.php:252-254`). Writing into a non-null scalar is modelled as the error `ScalarAsArray`.
- The `is_int($key)` branch inside the array case of `extend` (`src/Appcia/Utils/Arrays.php:553-554`) can never run, because integer keys are handled first. The model leaves it out.

## Model

| member | source | states |
|---|---|---|
| PhpStrings.NatToString | src/Appcia/Utils/Arrays.php:331 | the decimal form of a natural number is a non-empty digit string with that value and no leading zero |
| PhpStrings.NatToStringOfDigits | src/Appcia/Utils/Arrays.php:176-179 | a digit string without a leading zero is the decimal form of its value |
| PhpStrings.IntToStringCanonical | src/Appcia/Utils/Arrays.php:331 | printing an integer gives a canonical integer string that reads back as the same integer |
| PhpStrings.CanonicalIntToString | src/Appcia/Utils/Arrays.php:297 | a canonical integer string is the printed form of the integer it names |
| PhpStrings.LTrimSkipsPad | src/Appcia/Utils/Arrays.php:163 | `ltrim` removes any prefix made of mask characters |
| PhpStrings.RTrimSkipsPad | src/Appcia/Utils/Arrays.php:166 | `rtrim` removes any suffix made of mask characters |
| PhpStrings.LTrimThenPad | src/Appcia/Utils/Arrays.php:283 | trimming both ends ignores a suffix of mask characters |
| PhpStrings.TrimIgnoresPadding | src/Appcia/Utils/Php.php:88 | `trim` gives the same result with or without surrounding whitespace |
| PhpStrings.TrimOfTrimmed | src/Appcia/Utils/Arrays.php:283 | a string that starts and ends with non-whitespace is its own `trim` |
| PhpStrings.Split | src/Appcia/Utils/Arrays.php:169 | `explode` always gives at least one piece |
| PhpStrings.SplitWithoutSeparator | src/Appcia/Utils/Arrays.php:169 | a string without the separator explodes into itself alone |
| PhpStrings.SplitAtFirst | src/Appcia/Utils/Arrays.php:289 | a string is cut at the first occurrence of the separator |
| PhpStrings.SplitJoin | src/Appcia/Utils/Arrays.php:289 | exploding the `implode` of pieces that hold no separator gives the pieces back |
| PhpStrings.SplitConcat | src/Appcia/Utils/Val.php:52 | exploding `a.b` on a one-character separator gives the pieces of `a` followed by those of `b` |
| PhpStrings.SplitCons | src/Appcia/Utils/Val.php:52 | how exploding on one character treats the first character: a separator starts a new empty piece, anything else joins the first piece |
| PhpStrings.DigitsPrefixSmaller | src/Appcia/Utils/Arrays.php:175-178 | a digit string without a leading zero is worth more than any proper prefix of it, so a canonical integer path and its first segment name different keys |
| PhpStrings.JoinConsHead | src/Appcia/Utils/Arrays.php:169 | putting a character in front of the first piece puts it in front of the `implode` |
| PhpStrings.JoinSnocLast | src/Appcia/Utils/Arrays.php:333 | putting a character after the last piece puts it after the `implode` |
| PhpValues.ToKey | src/Appcia/Utils/Arrays.php:258 | a string names an integer key exactly when it is a canonical integer, and otherwise names itself |
| PhpValues.ToKeyOfKeyString | src/Appcia/Utils/Arrays.php:293-297 | a key printed and used as a key again names the same key |
| PhpValues.ToKeyInjective | src/Appcia/Utils/Val.php:97 | different strings name different keys |
| PhpValues.Find | src/Appcia/Utils/Arrays.php:153-154 | a lookup succeeds exactly when the key is present, and gives the value of an entry with that key |
| PhpValues.FindEntry | src/Appcia/Utils/Arrays.php:153-154 | with distinct keys, looking up the key of entry `i` gives entry `i`'s value |
| PhpValues.PrefixLacksKey | src/Appcia/Utils/Arrays.php:537-563 | with distinct keys, no entry before entry `i` has its key |
| PhpValues.Put | src/Appcia/Utils/Arrays.php:258 | after an assignment the key holds the new value and every other key holds what it held |
| PhpValues.PutPresent | src/Appcia/Utils/Arrays.php:258 | assigning to a present key keeps the length and every key in its place |
| PhpValues.PutAbsent | src/Appcia/Utils/Arrays.php:258 | assigning to an absent key appends one entry at the end |
| PhpValues.PutShape | src/Appcia/Utils/Arrays.php:258 | an assignment either keeps every key in place or appends the new key |
| PhpValues.PutKeepsDistinct | src/Appcia/Utils/Val.php:123 | an assignment keeps the keys distinct |
| PhpValues.PutEntries | src/Appcia/Utils/Val.php:123 | an assignment introduces no entry other than the one assigned |
| PhpValues.FindSnoc | src/Appcia/Utils/Arrays.php:258 | appending an entry with another key does not change a lookup |
| PhpValues.PutTwice | src/Appcia/Utils/Val.php:123 | assigning a key twice is the second assignment alone |
| PhpValues.Unset | src/Appcia/Utils/Arrays.php:126 | after `unset` the key is absent and every other key holds what it held |
| PhpValues.UnsetEntry | src/Appcia/Utils/Arrays.php:353 | unsetting a key removes exactly its entry and keeps the order of the rest |
| PhpValues.UnsetAbsent | src/Appcia/Utils/Arrays.php:126 | unsetting an absent key changes nothing |
| PhpValues.NextIndex | src/Appcia/Utils/Arrays.php:432 | the index `$a[] =` uses is non-negative and above every integer key |
| PhpValues.AppendIsPut | src/Appcia/Utils/Arrays.php:432 | `$a[] = $v` is the assignment to the next index, a key not yet present: that key then holds `$v` and every other key what it held |
| PhpValues.AppendKeepsFind | src/Appcia/Utils/Arrays.php:432 | `$a[] = $v` leaves every key already present holding what it held |
| PhpValues.AppendKeepsDistinct | src/Appcia/Utils/Arrays.php:432 | `$a[] = $v` keeps the keys distinct |
| PhpValues.Values | src/Appcia/Utils/Val.php:121 | the values in iteration order, one per entry |
| PhpValues.AsList | src/Appcia/Utils/Arrays.php:198 | building a list by `$values[] =` gives keys 0, 1, ... holding the values in order |
| PhpValues.ListNextIndex | src/Appcia/Utils/Arrays.php:198 | on a list `$a[] =` uses the index equal to its length |
| PhpValues.MergeKeepsDistinct | src/Appcia/Utils/Arrays.php:391 | `array_merge` keeps keys distinct |
| PhpValues.MergeKeepsValues | src/Appcia/Utils/Arrays.php:391 | `array_merge` of arrays with no shared string key gives the values of the first array, then those of the second |
| PhpValues.HasKeySnoc | src/Appcia/Utils/Arrays.php:258 | after appending an entry, a key is present exactly when it was present before or is the appended key |
| PhpValues.OffsetKey | src/Appcia/Utils/Val.php:121-123 | the key a value names when used as an offset: null names `""`, booleans 0 and 1, integers themselves, strings by `ToKey`, and an array none (a `TypeError`); a definition, used by `replace`, `clear`, `nulls` and `pass` |
| PhpValues.Truthy | src/Appcia/Utils/Arrays.php:198 | PHP's boolean conversion of the modelled values; a definition whose properties `Val.SpecifiedAndTruthy` and `ArraysPath.TruthyOnly` state |
| PhpValues.IsSet | src/Appcia/Utils/Arrays.php:180 | `isset($a[$k])`: the key is present and its value is not null; a definition, used by `ArraysPath.WalkFindsReached` and the other path lemmas |
| Arrays.IsAssoc | src/Appcia/Utils/Arrays.php:24-30 | an array is associative exactly when its keys are not 0, 1, 2, ... in order |
| Arrays.KeysOfList | src/Appcia/Utils/Arrays.php:26-29 | the keys equal `array_keys` of themselves exactly when the array is a list |
| Arrays.ListsAreNotAssoc | src/Appcia/Utils/Arrays.php:24-30 | a list is not associative, and a non-associative array is the list of its values |
| Arrays.Replace | src/Appcia/Utils/Arrays.php:92-106 | the loop of `replace` computes `ReplaceResult`: a non-array input is refused, and otherwise each value is looked up in the map |
| Arrays.ReplaceFails | src/Appcia/Utils/Arrays.php:100-104 | `replace` fails exactly when some value is an array, and the error is then an illegal offset |
| Arrays.ReplaceFinds | src/Appcia/Utils/Arrays.php:100-104 | each key maps to the map's value for the value it held, if that is set; otherwise it is dropped; no new key appears |
| Arrays.Clear | src/Appcia/Utils/Arrays.php:116-130 | the loop of `clear` computes `ClearResult`: empty keys leave the data alone, and a single key is a one-element list |
| Arrays.UnsetsFails | src/Appcia/Utils/Arrays.php:125-127 | clearing fails exactly when a listed key is an array |
| Arrays.UnsetsRemoves | src/Appcia/Utils/Arrays.php:125-127 | after clearing, every listed key is absent and every other key is untouched |
| Arrays.Filtered | src/Appcia/Utils/Arrays.php:345-358 | the filtered array is no longer than the input and holds only entries of the input |
| Arrays.Filter | src/Appcia/Utils/Arrays.php:351-355 | the loop that unsets rejected entries leaves exactly the accepted entries in order |
| Arrays.FilterStep | src/Appcia/Utils/Arrays.php:352-354 | one unset removes exactly the rejected entry from the array being walked |
| Arrays.KeyOnlyAt | src/Appcia/Utils/Arrays.php:351-355 | with distinct keys, the current key is neither among the kept entries before it nor after it |
| Arrays.FilteredMembers | src/Appcia/Utils/Arrays.php:345-358 | an entry is kept exactly when it is in the array and the callback accepts it |
| Arrays.Skip | src/Appcia/Utils/Arrays.php:486-501 | the unsetting loops remove the integer keys of the chosen range and nothing else |
| Arrays.Without | src/Appcia/Utils/Arrays.php:491-499 | the entries without an integer key in the range, never more than the array |
| Arrays.WithoutMembers | src/Appcia/Utils/Arrays.php:491-499 | an entry survives exactly when it is in the array and its key is not an integer in the range |
| Arrays.WithoutNothing | src/Appcia/Utils/Arrays.php:491-499 | an empty or reversed range of `skip` removes nothing |
| Arrays.UnsetWithout | src/Appcia/Utils/Arrays.php:492-498 | each turn of `skip`'s loop widens the removed range by one key |
| Arrays.WithoutFront | src/Appcia/Utils/Arrays.php:495-497 | on consecutive integer keys, removing a range from the start drops a prefix |
| Arrays.WithoutBack | src/Appcia/Utils/Arrays.php:491-493 | on consecutive integer keys, removing a range to the end drops a suffix |
| Arrays.SkipList | src/Appcia/Utils/Arrays.php:486-501 | on a list, `skip` drops the first `n` values, or the last `n` when `$tail` is set |
| Arrays.PartIndex | src/Appcia/Utils/Arrays.php:449-450 | the part chosen is 0 whenever the count is negative |
| Arrays.PartBounds | src/Appcia/Utils/Arrays.php:449-451 | for a positive count, the chosen part starts inside the array, is full unless it is the last, and the last holds the remainder |
| Arrays.MulMono | src/Appcia/Utils/Arrays.php:449-451 | multiplying by a positive count keeps the order of part indexes |
| Arrays.SliceEquinum | src/Appcia/Utils/Arrays.php:447-454 | `sliceEquinum`: a zero count is the error `DivisionByZero`, otherwise the `array_slice` of the chosen part; its properties are stated by `Arrays.SliceEquinumValues`, `Arrays.SliceEquinumNegative` and `Arrays.SliceEquinumSizes` |
| Arrays.SliceEquinumValues | src/Appcia/Utils/Arrays.php:447-454 | for a positive count, `sliceEquinum` gives the `$which`-th run of `$count` values, with `$which` clamped to the parts there are |
| Arrays.SliceEquinumNegative | src/Appcia/Utils/Arrays.php:447-454 | for a negative count, `sliceEquinum` gives all but the last `-$count` values |
| Arrays.ArraySliceValues | src/Appcia/Utils/Arrays.php:451 | `array_slice` keeps the values of the run it cuts, in order |
| Arrays.SliceKeepsValues | src/Appcia/Utils/Arrays.php:451 | renumbering a run of entries keeps its values |
| Arrays.SliceEquinumSizes | src/Appcia/Utils/Arrays.php:447-454 | every part before the last has exactly `$count` entries, and the last has the remainder |
| ArraysSearch.Search | src/Appcia/Utils/Arrays.php:58-81 | the search refuses a non-array haystack, and otherwise computes the intended search |
| ArraysSearch.SearchAsWritten | src/Appcia/Utils/Arrays.php:64-78 | the loop of `search` as written, resetting the key list to `array()` after a failed subtree; compared with the intended search by `ArraysSearch.AsWrittenFindsAlike` and `ArraysSearch.AsWrittenLosesPrefix` |
| ArraysSearch.SearchEntries | src/Appcia/Utils/Arrays.php:64-78 | the loop over the entries, recursing into nested arrays, computes `SearchFrom` |
| ArraysSearch.MissKeepsIndexes | src/Appcia/Utils/Arrays.php:80 | a search that finds nothing leaves the key list as it was |
| ArraysSearch.SearchFinds | src/Appcia/Utils/Arrays.php:65-77 | a successful search extends the key list with a path that reaches the needle, which is not an array |
| ArraysSearch.FoundBelow | src/Appcia/Utils/Arrays.php:66-70 | a path found inside a nested array, behind that array's key, reaches the needle from the top |
| ArraysSearch.SearchComplete | src/Appcia/Utils/Arrays.php:64-78 | if some path reaches a non-array needle, the search finds one |
| ArraysSearch.SearchSpec | src/Appcia/Utils/Arrays.php:58-81 | the search succeeds exactly when a non-array needle is reachable; then the key list is extended by a path to it, and otherwise it is unchanged |
| ArraysSearch.AsWrittenFindsAlike | src/Appcia/Utils/Arrays.php:71 | the code as written succeeds on exactly the same inputs as the intended search |
| ArraysSearch.AsWrittenLosesPrefix | src/Appcia/Utils/Arrays.php:71 | as written, a failed subtree followed by a hit reports only the last key, where the intended search reports the whole path |
| ArraysSearch.InnerAsWritten | src/Appcia/Utils/Arrays.php:71 | the inner level of that example, as written |
| ArraysSearch.InnerIntended | src/Appcia/Utils/Arrays.php:64-78 | the inner level of that example, as intended |
| ArraysPath.TruthyOnly | src/Appcia/Utils/Arrays.php:197-201 | the wildcard keeps the truthy results and only those, is empty only when none is truthy, and is no longer than its input |
| ArraysPath.TruthyOnlyConcat | src/Appcia/Utils/Arrays.php:196-201 | keeping the truthy results of two runs of elements is keeping those of each, one after the other: the filter keeps order |
| ArraysPath.TruthyOnlyConcatStep | src/Appcia/Utils/Arrays.php:196-201 | the concatenation property extends from a run to that run with one more element |
| ArraysPath.TruthyOnlySnoc | src/Appcia/Utils/Arrays.php:197-199 | one more element is kept at the end exactly when it is truthy |
| ArraysPath.TruthyOnlySingle | src/Appcia/Utils/Arrays.php:197-199 | one element is kept exactly when it is truthy |
| ArraysPath.TruthyOnlyCounts | src/Appcia/Utils/Arrays.php:196-201 | each truthy value is kept as often as it occurs, and no falsy value is kept |
| ArraysPath.GetPath | src/Appcia/Utils/Arrays.php:142-218 | the `do`-`while` loop of `getPath`, which shifts keys and rebinds the current array, computes `PathValue` |
| ArraysPath.CollectTruthy | src/Appcia/Utils/Arrays.php:196-201 | the wildcard loop collects the truthy results of resolving the rest of the path in each element |
| ArraysPath.WalkFindsReached | src/Appcia/Utils/Arrays.php:181-191 | when every key of the path is set along the way, `getPath` returns the value reached |
| ArraysPath.SegmentKeyOfStar | src/Appcia/Utils/Arrays.php:193 | only the segment `*` names the wildcard key |
| ArraysPath.WalkMissesUnreached | src/Appcia/Utils/Arrays.php:180-192 | without wildcards, a path that does not reach a value gives the default |
| ArraysPath.GetPathIsDescent | src/Appcia/Utils/Arrays.php:172-217 | for a split path without wildcards, `getPath` is the value reached by `isset` descent, or the default |
| ArraysPath.ReachFailsAt | src/Appcia/Utils/Arrays.php:180-192 | descent fails exactly when some prefix reaches a non-array, or an array in which the next key is not set |
| ArraysPath.GetPathDefaultCases | src/Appcia/Utils/Arrays.php:144-146 | `getPath` returns the default when a key is missing or null, or when a non-final value is not an array |
| ArraysPath.GetPathLiteralKey | src/Appcia/Utils/Arrays.php:152-155 | a path string that is itself a key returns that key's value, even when it is null or holds the delimiter |
| ArraysPath.WildcardCollects | src/Appcia/Utils/Arrays.php:193-209 | `*` gives the default when no element resolves to a truthy value; otherwise a list whose values are the truthy results in element order (`TruthyOnly`), each truthy value as often as it was resolved and no falsy one |
| ArraysPath.WalkStar | src/Appcia/Utils/Arrays.php:193-209 | `*` resolves the rest of the path, re-joined with `.`, in every element, and returns the list of truthy results or the default |
| ArraysPath.WrittenKeys | src/Appcia/Utils/Arrays.php:244-258 | `setPath` writes along one key per segment, and along one key for an empty path |
| ArraysPath.Assigned | src/Appcia/Utils/Arrays.php:230-261 | what `setPath` leaves behind is an array |
| ArraysPath.RebuildStep | src/Appcia/Utils/Arrays.php:257 | one more level of reference, written back, is one more assignment around the inner array |
| ArraysPath.DescendStep | src/Appcia/Utils/Arrays.php:244-258 | one turn of `setPath`'s loop keeps its invariant: the write is possible and, once written back, gives the same array |
| ArraysPath.WritableFresh | src/Appcia/Utils/Arrays.php:252-254 | a freshly created empty array can always be written into |
| ArraysPath.SetPath | src/Appcia/Utils/Arrays.php:230-261 | the loop that descends by reference and assigns the final key computes `SetPathResult`, and fails on a non-null scalar on the way |
| ArraysPath.WriteBack | src/Appcia/Utils/Arrays.php:257 | writing the innermost array back up the references rebuilds the outer array |
| ArraysPath.AssignedStores | src/Appcia/Utils/Arrays.php:244-260 | after `setPath`, the value is stored at the keys written along, null included |
| ArraysPath.AssignedLeavesOthers | src/Appcia/Utils/Arrays.php:244-260 | every key path that leaves the written path at some level reaches what it reached before |
| ArraysPath.AssignedReached | src/Appcia/Utils/Arrays.php:244-260 | a non-null value written along segments is reached again by `isset` descent |
| ArraysPath.AssignedDescends | src/Appcia/Utils/Arrays.php:246-256 | the write into a level is the write into the child array, created empty when absent or null |
| ArraysPath.SetThenGetSegments | src/Appcia/Utils/Arrays.php:230-261 | after `setPath` along split segments, `getPath` along them returns the non-null value written |
| ArraysPath.JoinSplit | src/Appcia/Utils/Arrays.php:169 | the `implode` of an `explode` is the original string |
| ArraysPath.SplitFirstPiece | src/Appcia/Utils/Arrays.php:240 | when a string explodes into several pieces, the first piece is a proper prefix of the string and the delimiter follows it |
| ArraysPath.SinglePieceIsWhole | src/Appcia/Utils/Arrays.php:240 | a path that explodes into one piece is that piece |
| ArraysPath.FirstPieceKey | src/Appcia/Utils/Arrays.php:152-155 | for any delimiter, digits and `-` included, the first segment of a multi-segment path names another key than the whole path |
| ArraysPath.TopKeyUntouched | src/Appcia/Utils/Arrays.php:244-260 | writing along a multi-segment path does not create the whole path as a top-level key |
| ArraysPath.UntrimmedPath | src/Appcia/Utils/Arrays.php:162-169 | a path without delimiters, spaces or `*` at its ends is only exploded |
| ArraysPath.SetThenGetSingle | src/Appcia/Utils/Arrays.php:152-155 | after writing a single-segment path, reading it returns the value, even a null one |
| ArraysPath.SetThenGetText | src/Appcia/Utils/Arrays.php:230-261 | for any one-character delimiter, after `setPath(C, p, v)`, `getPath(C, p)` returns `v` when `v` is non-null, `p` has no end padding, the last segment is not a leading-zero digit string, and a multi-segment `p` is not a top-level key |
| ArraysPath.SetThenGetMulti | src/Appcia/Utils/Arrays.php:142-218 | the round trip for a multi-segment string path, for any delimiter |
| ArraysPath.TextPathWalks | src/Appcia/Utils/Arrays.php:157-170 | a string path that is not a top-level key is read as its trimmed, exploded segments |
| ArraysPath.GetPathDescends | src/Appcia/Utils/Arrays.php:182-185 | reading `a` then the rest is reading the rest inside the array under `a` |
| ArraysPath.GetPathFirstMissing | src/Appcia/Utils/Arrays.php:211-214 | a path whose first segment is not set gives the default |
| ArraysPath.SplitTwo | src/Appcia/Utils/Arrays.php:169 | `explode` of `a.b` on `.` gives the two letters |
| ArraysPath.SplitThree | src/Appcia/Utils/Arrays.php:240 | `explode` of `a.b.c` on `.` gives the three letters |
| ArraysPath.LookupN | src/Appcia/Utils/Arrays.php:152-155 | reading `n` from an array with key `n` gives its value |
| ArraysPath.WildcardOverTwo | src/Appcia/Utils/Arrays.php:193-201 | on two elements, `*.n` resolves `n` in each of them |
| ArraysPath.LookupsOfTwo | src/Appcia/Utils/Arrays.php:196-201 | resolving `n` in two elements gives their two values |
| ArraysPath.StarDotN | src/Appcia/Utils/Arrays.php:162-169 | the path `*.n` is not an integer key and splits into `*` and `n` |
| ArraysPath.WildcardExampleOne | src/Appcia/Utils/Arrays.php:193-209 | `*.n` over `{x: {n: x}, y: {n: 2}}` gives the truthy ones among `x` and 2 |
| ArraysPath.TruthyPairs | src/Appcia/Utils/Arrays.php:197-199 | the wildcard drops a falsy 0 |
| ArraysPath.ListPairs | src/Appcia/Utils/Arrays.php:198 | collected values form a list |
| ArraysPath.WildcardExample | src/Appcia/Utils/Arrays.php:193-209 | `*.n` over `{x: {n: 1}, y: {n: 2}}` gives `[1, 2]`, and over `{x: {n: 0}, y: {n: 2}}` gives `[2]` |
| ArraysPath.AssignedIntoEmpty | src/Appcia/Utils/Arrays.php:252-258 | writing into an empty array creates one entry per level |
| ArraysPath.SetPathLettersPath | src/Appcia/Utils/Arrays.php:237-241 | `setPath({}, "a.b.c", 5)` writes along `a`, `b`, `c` |
| ArraysPath.SetPathDigitsPath | src/Appcia/Utils/Arrays.php:237-241 | `setPath({}, "0.1", "v")` writes along `0`, `1` |
| ArraysPath.AssignedLetters | src/Appcia/Utils/Arrays.php:244-258 | the write along `a`, `b`, `c` nests three arrays |
| ArraysPath.AssignedDigits | src/Appcia/Utils/Arrays.php:246-250 | digit segments become integer keys |
| ArraysPath.SetPathExample | src/Appcia/Utils/Arrays.php:230-261 | `setPath({}, "a.b.c", 5)` gives `{a: {b: {c: 5}}}`, and `setPath({}, "0.1", "v")` gives `{0: {1: "v"}}` with integer keys |
| ArraysText.PutString | src/Appcia/Utils/Arrays.php:297 | storing a string keeps the array of strings with distinct keys and grows it by at most one |
| ArraysText.ParseLineKeeps | src/Appcia/Utils/Arrays.php:291-297 | one line read keeps the array of strings with distinct keys |
| ArraysText.ParseLines | src/Appcia/Utils/Arrays.php:287-298 | `parse` gives at most one entry per line, with distinct keys and string values |
| ArraysText.Parse | src/Appcia/Utils/Arrays.php:272-301 | the loop over the lines computes `ParseResult`: arrays are returned as they are, non-scalars refused, empty text gives an empty array |
| ArraysText.ComposeLines | src/Appcia/Utils/Arrays.php:324-331 | one line per entry, in order |
| ArraysText.Compose | src/Appcia/Utils/Arrays.php:312-336 | the loop of `compose` computes `ComposeResult`: empty data gives `""`, and a non-array or a non-scalar value is refused |
| ArraysText.ComposeFails | src/Appcia/Utils/Arrays.php:314-327 | `compose` fails exactly when the data is truthy and not an array, or an array with a non-scalar value |
| ArraysText.ParseFails | src/Appcia/Utils/Arrays.php:274-281 | `parse` fails exactly when its input is neither an array nor a scalar |
| ArraysText.Stringified | src/Appcia/Utils/Arrays.php:331 | the array with each value replaced by its string form, keys kept |
| ArraysText.NoDelimiterAt | src/Appcia/Utils/Arrays.php:291 | `=>` does not occur where the text has no `=` followed by `>` |
| ArraysText.SplitComposedLine | src/Appcia/Utils/Arrays.php:291 | a line made of a clean key with or without its space, `=>`, and a clean value with or without its space explodes on `=>` into exactly those two parts |
| ArraysText.ParseComposedLine | src/Appcia/Utils/Arrays.php:290-297 | reading back a line of an entry, with a space missing next to an empty key or value, appends that key with the value's string form |
| ArraysText.TrimComposedParts | src/Appcia/Utils/Arrays.php:293-295 | trimming the two halves of such a line gives back the key and the value, empty ones included |
| ArraysText.StringifiedLast | src/Appcia/Utils/Arrays.php:331 | the last entry's key is new to the entries before it |
| ArraysText.ParseComposedLines | src/Appcia/Utils/Arrays.php:287-298 | reading one line per entry, in order, gives back the array with values as strings |
| ArraysText.JoinFirst | src/Appcia/Utils/Arrays.php:333 | the joined text starts with the first line's first character |
| ArraysText.JoinLast | src/Appcia/Utils/Arrays.php:333 | the joined text ends with the last line's last character |
| ArraysText.NoLineBreakSplits | src/Appcia/Utils/Arrays.php:289 | lines without line breaks hold no separator except the one appended |
| ArraysText.ComposedLineHasNoBreak | src/Appcia/Utils/Arrays.php:331 | a line of clean text, with or without its spaces, has no line break |
| ArraysText.ParseCompose | src/Appcia/Utils/Arrays.php:272-336 | `compose` succeeds and `parse(compose(d))` is `d` with its values as strings, whenever `d` has distinct keys and its keys and values are text without `=>`, line breaks or surrounding whitespace; empty keys and empty values, first and last lines included, are covered |
| ArraysText.ComposedTextTrimmed | src/Appcia/Utils/Arrays.php:283-285 | `trim` of composed text is the joined lines with the space before an empty first key and after an empty last value removed, and is not empty |
| ArraysText.ComposedTextSplits | src/Appcia/Utils/Arrays.php:289 | the trimmed text explodes back into its lines |
| ArraysText.JoinLength | src/Appcia/Utils/Arrays.php:333 | the joined text is at least as long as its first line |
| ArraysText.TextLine | src/Appcia/Utils/Arrays.php:331 | the line of an entry with the space before and after `=>` present or not (a definition) |
| ArraysText.ReadLines | src/Appcia/Utils/Arrays.php:283-289 | the lines `parse` sees after trimming composed text, one per entry |
| ArraysText.ReadLinesAreLines | src/Appcia/Utils/Arrays.php:283-289 | each of those lines is a line of its entry, a space missing only next to an empty first key or an empty last value |
| ArraysText.ReadLinesEnds | src/Appcia/Utils/Arrays.php:283 | with clean first key and last value, those lines start and end with no whitespace (`CleanEnds`) |
| ArraysText.CleanEnds | src/Appcia/Utils/Arrays.php:283 | lines whose text starts and ends with no `trim` character and whose first line has two characters (a definition) |
| ArraysText.TrimReadLines | src/Appcia/Utils/Arrays.php:283 | `trim` takes exactly the leading and trailing padding off the joined lines, and the rest is truthy |
| ArraysText.ComposeLineIsTextLine | src/Appcia/Utils/Arrays.php:331 | `compose` writes each line with both spaces |
| ArraysText.FrontTrimmed | src/Appcia/Utils/Arrays.php:283 | the composed lines with only the first one trimmed, one per entry |
| ArraysText.ComposedTextPadding | src/Appcia/Utils/Arrays.php:331-333 | composed text is the trimmed lines, joined, behind at most one space and followed by at most one space |
| ArraysText.LeadPadding | src/Appcia/Utils/Arrays.php:331-333 | composed text has one extra leading space exactly when the first key is empty |
| ArraysText.LeadLines | src/Appcia/Utils/Arrays.php:331 | the composed lines are the front-trimmed lines, with the space back in front of the first one when its key is empty |
| ArraysText.TrailPadding | src/Appcia/Utils/Arrays.php:331-333 | the front-trimmed text has one extra trailing space exactly when the last value is empty |
| ArraysText.TextLineStart | src/Appcia/Utils/Arrays.php:283 | a line of a clean key starts with no whitespace when its leading space is absent exactly for an empty key |
| ArraysText.TextLineEnd | src/Appcia/Utils/Arrays.php:283 | a line of a clean value ends with no whitespace when its trailing space is absent exactly for an empty value |
| ArraysText.TrimPaddedJoin | src/Appcia/Utils/Arrays.php:283 | `trim` of joined lines with whitespace around them is the joined lines, when they start and end with no whitespace, and that text is truthy |
| ArraysMerge.GlueIsFlat | src/Appcia/Utils/Arrays.php:385-398 | `glue` gives an array one level deep, with distinct keys PHP can hold |
| ArraysMerge.GlueEntryIsFlat | src/Appcia/Utils/Arrays.php:390-395 | one turn of `glue_recursive` keeps the result flat, with distinct, valid keys |
| ArraysMerge.MergeFlatArrays | src/Appcia/Utils/Arrays.php:391 | merging in a flattened subtree keeps the result flat with distinct keys |
| ArraysMerge.PutStaysFlat | src/Appcia/Utils/Arrays.php:393 | storing a scalar under a glued key keeps the result flat |
| ArraysMerge.MergeStaysFlat | src/Appcia/Utils/Arrays.php:391 | `array_merge` of flat arrays is flat |
| ArraysMerge.GlueOfFlat | src/Appcia/Utils/Arrays.php:369-398 | `glue` leaves an array that is already flat unchanged |
| ArraysMerge.GlueScalarEntry | src/Appcia/Utils/Arrays.php:393 | a scalar entry under a new key is appended as it is |
| ArraysMerge.GlueIdempotent | src/Appcia/Utils/Arrays.php:369-374 | gluing twice is gluing once |
| ArraysMerge.Glue | src/Appcia/Utils/Arrays.php:369-374 | `glue` gives an array one level deep, with distinct keys PHP can hold |
| ArraysMerge.GlueEntries | src/Appcia/Utils/Arrays.php:385-398 | the loop of `glue_recursive` over the first entries; its properties are stated by `ArraysMerge.GlueIsFlat` and `ArraysMerge.GlueEntriesLeaves` |
| ArraysMerge.GlueEntry | src/Appcia/Utils/Arrays.php:389-395 | one turn of that loop: an array is glued under the extended prefix and merged in with `array_merge`, anything else stored under the prefix and its key; its properties are stated by `ArraysMerge.GlueEntryIsFlat` and `ArraysMerge.GlueEntryLeaves` |
| ArraysMerge.LeavesFrom | src/Appcia/Utils/Arrays.php:385-398 | reference flattening: the leaves of the entries from one on, depth first, under their joined names, by plain concatenation (a definition) |
| ArraysMerge.EntryLeaves | src/Appcia/Utils/Arrays.php:389-395 | the leaves below one entry (a definition) |
| ArraysMerge.Leaves | src/Appcia/Utils/Arrays.php:369-374 | the leaves of a whole array (a definition) |
| ArraysMerge.StringNamedParts | src/Appcia/Utils/Arrays.php:391 | both halves of a string-named run of entries are string-named |
| ArraysMerge.StringNamedHead | src/Appcia/Utils/Arrays.php:391 | the first entry of a string-named tail has a string key new to what precedes it |
| ArraysMerge.MergeStrings | src/Appcia/Utils/Arrays.php:391 | merging string-keyed entries under new keys appends them |
| ArraysMerge.MergeStringArrays | src/Appcia/Utils/Arrays.php:391 | `array_merge` of string-keyed arrays with no key in common is their concatenation |
| ArraysMerge.GlueEntriesLeaves | src/Appcia/Utils/Arrays.php:385-398 | when all joined names are distinct non-integer strings, the loop over the first entries has produced their leaves |
| ArraysMerge.GlueEntryLeaves | src/Appcia/Utils/Arrays.php:389-395 | one turn then appends the leaves of its entry |
| ArraysMerge.GlueLeaves | src/Appcia/Utils/Arrays.php:369-398 | when all joined names are distinct non-integer strings, `glue` is the reference flattening: every value that is not an array under the keys leading to it joined with the glue, in depth-first order, and nothing else |
| ArraysMerge.LeavesFromHas | src/Appcia/Utils/Arrays.php:385-398 | the leaves of an entry are among the leaves of the array |
| ArraysMerge.GlueFindsNested | src/Appcia/Utils/Arrays.php:389-395 | a value two levels down under keys `k1` and `k2` is found in the glued array under `k1`, the glue and `k2` |
| ArraysMerge.GlueRenumbers | src/Appcia/Utils/Arrays.php:391 | `array_merge` renumbers integer keys: `[5 => 'a', 'b' => ['c' => 1]]` glues to `[0 => 'a', 'b.c' => 1]` |
| ArraysMerge.ExtendArrays | src/Appcia/Utils/Arrays.php:537-564 | the loop of `extend` computes `Extend`: an empty side gives the other, integer keys append, string keys overwrite or merge recursively |
| ArraysMerge.ExtendOne | src/Appcia/Utils/Arrays.php:545-561 | one turn of the loop computes `ExtendEntry`, failing only when an array is merged into a scalar |
| ArraysMerge.ExtendFailureSticks | src/Appcia/Utils/Arrays.php:545-561 | once the loop has failed it stays failed |
| ArraysMerge.IntValuesConcat | src/Appcia/Utils/Arrays.php:546-547 | the integer-keyed values of two sequences of entries are those of each, in order |
| ArraysMerge.IntValuesOfPut | src/Appcia/Utils/Arrays.php:558-559 | writing a string key does not change the integer-keyed values |
| ArraysMerge.ExtendAppendsIntValues | src/Appcia/Utils/Arrays.php:546-547 | the loop appends the integer-keyed values of the second array after those of the first, in order |
| ArraysMerge.ExtendEntryIntValues | src/Appcia/Utils/Arrays.php:546-559 | one turn adds exactly the entry's value when its key is an integer, and nothing otherwise |
| ArraysMerge.ExtendIntValues | src/Appcia/Utils/Arrays.php:537-564 | `extend` appends the integer-keyed values of `$arr2` to those of `$arr1` in order |
| ArraysMerge.ExtendKeepsKeys | src/Appcia/Utils/Arrays.php:545-561 | no key of `$arr1` is removed |
| ArraysMerge.ExtendEntryKeepsKeys | src/Appcia/Utils/Arrays.php:545-561 | one turn removes no key |
| ArraysMerge.ExtendOverwrites | src/Appcia/Utils/Arrays.php:558-559 | a string key of `$arr2` holding a scalar, or an array where `$arr1` has nothing set, ends up with `$arr2`'s value |
| ArraysMerge.ExtendFinds | src/Appcia/Utils/Arrays.php:545-561 | during the loop such a key holds `$arr1`'s value until its turn and `$arr2`'s value after it |
| ArraysMerge.ExtendEntryStores | src/Appcia/Utils/Arrays.php:548-559 | one turn stores the entry's value under its string key |
| ArraysMerge.ExtendEntryLeaves | src/Appcia/Utils/Arrays.php:545-561 | one turn leaves every other key alone |
| ArraysMerge.Extend | src/Appcia/Utils/Arrays.php:537-564 | `extend`; its properties are stated by `ArraysMerge.ExtendIntValues`, `ArraysMerge.ExtendKeepsKeys`, `ArraysMerge.ExtendOverwrites`, `ArraysMerge.ExtendMerges` and `ArraysMerge.ExtendRefusesScalar` |
| ArraysMerge.ExtendEntry | src/Appcia/Utils/Arrays.php:545-561 | one turn of `extend`'s loop; its properties are stated by `ArraysMerge.ExtendEntryStores`, `ArraysMerge.ExtendEntryLeaves`, `ArraysMerge.ExtendEntryMerges` and `ArraysMerge.ExtendEntryIntValues` |
| ArraysMerge.ExtendUntouched | src/Appcia/Utils/Arrays.php:545-561 | before the turn of a string key of `$arr2`, the loop has left that key as `$arr1` had it |
| ArraysMerge.ExtendLeavesAfter | src/Appcia/Utils/Arrays.php:545-561 | the turns after that of a string key leave that key alone |
| ArraysMerge.ExtendEntryMerges | src/Appcia/Utils/Arrays.php:549-555 | one turn with an array under a string key that holds an array succeeds exactly when the recursive `extend` does, and stores its result |
| ArraysMerge.ExtendMerges | src/Appcia/Utils/Arrays.php:549-555 | a string key under which both arrays hold an array ends up holding the recursive `extend` of the two |
| ArraysMerge.ExtendRefusesScalar | src/Appcia/Utils/Arrays.php:549-555 | an array in `$arr2` under a string key where `$arr1` holds a non-null scalar makes `extend` fail |
| ArraysPass.Outs | src/Appcia/Utils/Arrays.php:418 | the callback is asked once per entry |
| ArraysPass.Returned | src/Appcia/Utils/Arrays.php:418 | the values the callback returns, in order |
| ArraysPass.PassArray | src/Appcia/Utils/Arrays.php:409-436 | the loop of `pass`, as intended, computes `PassResult` |
| ArraysPass.PassStepAsWritten | src/Appcia/Utils/Arrays.php:420-431 | one turn as written: the group slot is created when not set and turned from `false` into an array, then a grouped value is assigned under its name, a null name being the key `""`; compared with the intended turn by `ArraysPass.StepAgreesWhenNamed` and `ArraysPass.GroupOverwriteStep` |
| ArraysPass.PassResultAsWritten | src/Appcia/Utils/Arrays.php:409-436 | `pass` as written; compared with the intended `pass` by `ArraysPass.AsWrittenAgreesWhenNamed`, `ArraysPass.PassOneGroupAsWritten` and `ArraysPass.AsWrittenDropsGroupMembers` |
| ArraysPass.PassOne | src/Appcia/Utils/Arrays.php:420-431 | one turn of the loop computes `PassStep`: the slot is created in place when not set, and a `false` slot becomes an array on write |
| ArraysPass.PassFromFirst | src/Appcia/Utils/Arrays.php:415-433 | the loop is its first turn followed by the rest |
| ArraysPass.ReturnedFirst | src/Appcia/Utils/Arrays.php:418 | the returned values are the first one followed by the rest |
| ArraysPass.AppendToList | src/Appcia/Utils/Arrays.php:432 | `$res[] = $v` on a list extends the list |
| ArraysPass.PassUngrouped | src/Appcia/Utils/Arrays.php:431-432 | without groups, `pass` gives the list of the values the callback returns, in order |
| ArraysPass.PassOneGroup | src/Appcia/Utils/Arrays.php:420-428 | as intended, one group without names collects every value returned, in order, under the group key |
| ArraysPass.GroupAppendStep | src/Appcia/Utils/Arrays.php:421-428 | as intended, a grouped value without a name is appended to its group |
| ArraysPass.PassOneGroupAsWritten | src/Appcia/Utils/Arrays.php:425-426 | as written, one group without names ends holding only the last value, under the key `""` |
| ArraysPass.GroupOverwriteStep | src/Appcia/Utils/Arrays.php:425-426 | as written, a grouped value without a name overwrites the group's `""` entry |
| ArraysPass.AsWrittenAgreesWhenNamed | src/Appcia/Utils/Arrays.php:425-429 | when every grouped value has a name, the code as written and the intended code agree |
| ArraysPass.StepAgreesWhenNamed | src/Appcia/Utils/Arrays.php:425-429 | the same for one turn |
| ArraysPass.AsWrittenDropsGroupMembers | src/Appcia/Utils/Arrays.php:425 | two unnamed values in group `g` give `{g: {"": 2}}` as written and `{g: [1, 2]}` as intended |
| ArraysPass.GroupExample | src/Appcia/Utils/Arrays.php:421-428 | for any two values put without a name into one group, the code as written keeps only the second, under `""`, and the intended code lists both under 0 and 1 |
| ArraysPass.PassNamedGroupFinds | src/Appcia/Utils/Arrays.php:421-426 | a value the callback puts in group `$group` under name `$name` is found at `$res[$group][$name]` in the result, unless a later entry is put under the same group and name; other entries, grouped or not, named or not, do not disturb it |
| ArraysPass.PassGroupsAreArrays | src/Appcia/Utils/Arrays.php:421-426 | every group key some entry is put under holds an array in the result |
| ArraysPass.PassFromAt | src/Appcia/Utils/Arrays.php:415-433 | the loop succeeds up to any turn and continues from there to the same result |
| ArraysPass.StepTargets | src/Appcia/Utils/Arrays.php:425-426 | a turn with a group and a name stores its value there |
| ArraysPass.StepKeepsNamed | src/Appcia/Utils/Arrays.php:421-432 | any other turn leaves that stored value alone: appends take fresh indexes and other writes name other keys |
| ArraysPass.StepMakesGroup | src/Appcia/Utils/Arrays.php:421-428 | a grouped turn leaves an array under its group key |
| ArraysPass.StepKeepsGroup | src/Appcia/Utils/Arrays.php:421-432 | a group key holding an array keeps holding one |
| ArraysPass.PassFromKeepsNamed | src/Appcia/Utils/Arrays.php:415-433 | turns not aimed at a group and name leave its value alone |
| ArraysPass.PassFromKeepsGroup | src/Appcia/Utils/Arrays.php:415-433 | a group key holding an array holds one to the end |
| ArraysPass.FalseSlotBecomesGroup | src/Appcia/Utils/Arrays.php:421-426 | a group slot holding `false` is turned into an array on write: `false` ungrouped, then 7 in group 0 under `'n'`, gives `[0 => ['n' => 7]]` |
| ArraysUnique.Occurrences | src/Appcia/Utils/Arrays.php:592-605 | the count is the number of entries holding the searched value |
| ArraysUnique.Unique | src/Appcia/Utils/Arrays.php:573-582 | the loop that unsets while walking a copy computes `UniqueResult` |
| ArraysUnique.UniqueStep | src/Appcia/Utils/Arrays.php:575-577 | an entry still occurs more than once exactly when its value comes again later, and unsetting it then removes just that entry |
| ArraysUnique.UniqueFromKeepsLast | src/Appcia/Utils/Arrays.php:575-579 | the rest of the loop keeps exactly the last occurrences among the entries left |
| ArraysUnique.KeepDistinct | src/Appcia/Utils/Arrays.php:576 | removing an entry keeps keys distinct |
| ArraysUnique.UniqueKeepsLast | src/Appcia/Utils/Arrays.php:573-582 | `unique` keeps exactly the last occurrence of each value, with its key, in the original order |
| ArraysUnique.KeepLastCounts | src/Appcia/Utils/Arrays.php:573-582 | every value occurs exactly once in the result, and no other value |
| ArraysUnique.KeepLastSubsequence | src/Appcia/Utils/Arrays.php:573-582 | the result is no longer than the array and is made of its entries |
| ArraysUnique.UniqueValues | src/Appcia/Utils/Arrays.php:573-582 | `unique` leaves each value of the array exactly once, and only entries of the array |
| ArraysUnique.KeepLastOfDistinct | src/Appcia/Utils/Arrays.php:573-582 | an array whose values are distinct is left as it is |
| ArraysUnique.UniqueIdempotent | src/Appcia/Utils/Arrays.php:573-582 | applying `unique` twice is applying it once |
| ArraysUnique.KeepLastDistinctValues | src/Appcia/Utils/Arrays.php:573-582 | the entries kept have distinct values |
| ArraysUnique.KeepLastSubsequenceDistinct | src/Appcia/Utils/Arrays.php:573-582 | the entries kept have distinct keys |
| Val.Test | src/Appcia/Utils/Val.php:19-28 | `test` returns one of its arguments: the flag itself when `$arg1` is null; with a non-null `$arg1`, it returns `$arg1` exactly when the flag is truthy or both arguments are equal |
| Val.TestOfBool | src/Appcia/Utils/Val.php:19-28 | with a boolean flag, `test` is the flag when `$arg1` is null and the conditional otherwise |
| Val.Specified | src/Appcia/Utils/Val.php:210-213 | every truthy value is specified |
| Val.SpecifiedAndTruthy | src/Appcia/Utils/Val.php:210-213 | every truthy value is specified; the specified values that are empty are exactly false, 0, `"0"` and `[]` |
| Val.KeyValue | src/Appcia/Utils/Val.php:114 | a key listed by `array_keys` names itself again |
| Val.Nulls | src/Appcia/Utils/Val.php:111-128 | the loop of `nulls` computes `NullsResult` |
| Val.OffsetKeysHas | src/Appcia/Utils/Val.php:121 | every listed key that is not an array is among the keys the loop nulls |
| Val.NullsStepNulls | src/Appcia/Utils/Val.php:122-124 | one turn nulls the key it is given, if that key is present and empty, and nothing else |
| Val.NulledTwice | src/Appcia/Utils/Val.php:121-125 | nulling two key sets in turn is nulling their union |
| Val.NulledKeepsKeys | src/Appcia/Utils/Val.php:123 | nulling keeps the keys distinct |
| Val.NullsFromNulls | src/Appcia/Utils/Val.php:121-125 | the loop fails exactly when an array is listed as a key, and otherwise nulls the empty values under the listed keys |
| Val.NullsSpec | src/Appcia/Utils/Val.php:111-128 | `nulls` adds no key, keeps the key order, sets to null exactly the empty values under listed keys, and fails only on an array key |
| Val.NullsEveryKey | src/Appcia/Utils/Val.php:113-115 | without a key list every empty value becomes null |
| Val.NullsSingleKey | src/Appcia/Utils/Val.php:117-119 | a single key is the one-element list holding it |
| Val.NullsIdempotent | src/Appcia/Utils/Val.php:111-128 | applying `nulls` twice with the same keys is applying it once |
| ValProp.Keys | src/Appcia/Utils/Val.php:52 | one key per segment of the chain |
| ValProp.PropResult | src/Appcia/Utils/Val.php:41-50 | `prop` succeeds only on a truthy string chain |
| ValProp.Prop | src/Appcia/Utils/Val.php:39-81 | the loop over the segments, which rebinds the current value, computes `PropResult` |
| ValProp.ZeroChainIsEmpty | src/Appcia/Utils/Val.php:41-43 | the chain `"0"` is refused as empty, while `"0.x"` is read |
| ValProp.ZeroXKeys | src/Appcia/Utils/Val.php:52 | `0.x` names the integer key 0, then the key `x` |
| ValProp.SplitSingle | src/Appcia/Utils/Val.php:52 | a one-character chain without a dot is one segment |
| ValProp.CanonicalZero | src/Appcia/Utils/Val.php:64 | the segment `0` names the integer key 0 |
| ValProp.PropWalkReaches | src/Appcia/Utils/Val.php:53-80 | the walk returns a non-null value exactly when `isset` descent reaches it |
| ValProp.PropWalkFails | src/Appcia/Utils/Val.php:70-77 | the walk throws exactly when a scalar is reached while segments remain |
| ValProp.ReachStep | src/Appcia/Utils/Val.php:63-67 | reaching a prefix is one step and then the rest |
| ValProp.NoScalarPast | src/Appcia/Utils/Val.php:64-69 | once the walk stops on null, no later scalar is reached |
| ValProp.PropWalkConcat | src/Appcia/Utils/Val.php:53-78 | walking two runs of keys is walking the first, then the second from where it ended |
| ValProp.NullWalk | src/Appcia/Utils/Val.php:68-69 | from null, the walk gives null |
| ValProp.PropChains | src/Appcia/Utils/Val.php:39-81 | reading `a.b` is reading `a`, then reading `b` in the result |
| ValProp.Props | src/Appcia/Utils/Val.php:93-101 | the loop of `props` computes `PropsResult` |
| ValProp.PropsFails | src/Appcia/Utils/Val.php:96-98 | `props` succeeds exactly when every chain can be read, and otherwise fails with the first chain's error |
| ValProp.PropsFinds | src/Appcia/Utils/Val.php:96-98 | each chain's key holds what `prop` reads for it, and no other key changes |
| ValProp.PropsOfDistinct | src/Appcia/Utils/Val.php:93-101 | with distinct chains, the result is one entry per chain, in order |
| ValProp.PropsMapsChains | src/Appcia/Utils/Val.php:93-101 | `props` of distinct chains has one entry per chain: its key, and the value `prop` reads for it |
| Php.LeadingDigits | src/Appcia/Utils/Php.php:102 | the run of digits the string starts with is maximal |
| Php.LeadingDigitsUnique | src/Appcia/Utils/Php.php:102 | a digit prefix followed by a non-digit is that run |
| Php.SizedMatchesPattern | src/Appcia/Utils/Php.php:99-106 | the left-to-right check accepts exactly the strings of the form digits, `:`, anything, then `;` or `}` |
| Php.OnlyStrings | src/Appcia/Utils/Php.php:84-86 | nothing but a string is encoded |
| Php.IsEncoded | src/Appcia/Utils/Php.php:82-118 | an accepted value is a string which, trimmed, has at least two characters and ends with `;` or `}` |
| Php.IgnoresPadding | src/Appcia/Utils/Php.php:88 | surrounding whitespace does not change the answer |
| Php.NeedsTag | src/Appcia/Utils/Php.php:93-96 | an accepted string is `N;`, or starts with one of `a d O b i s` and a colon |
| Php.EncodedIff | src/Appcia/Utils/Php.php:82-118 | a string is accepted exactly when, trimmed, it is `N;`, a sized form after `a`, `O` or `s`, or a numeric form after `b`, `i` or `d` |
| Php.Serialize | src/Appcia/Utils/Php.php:40-45 | what `serialize` writes starts with a type letter and ends with `;` or `}` |
| Php.SerializeString | src/Appcia/Utils/Php.php:42 | a serialized string starts with `s` and ends with `;` |
| Php.IntToStringIsNumeric | src/Appcia/Utils/Php.php:110 | a printed integer consists of number characters only |
| Php.SizedForm | src/Appcia/Utils/Php.php:102 | a length, a colon and a body ending in `;` or `}` pass the sized check |
| Php.AcceptsSerialized | src/Appcia/Utils/Php.php:82-118 | what `Php::encode` writes for the modelled values is recognised |
| Php.SerializedIsTrimmed | src/Appcia/Utils/Php.php:88 | serialized text is not changed by `trim` |
| Php.AcceptsBool | src/Appcia/Utils/Php.php:107-114 | a serialized boolean is accepted |
| Php.AcceptsInt | src/Appcia/Utils/Php.php:107-114 | a serialized integer is accepted |
| Php.SizedEncoded | src/Appcia/Utils/Php.php:99-106 | a sized tag, a colon and a sized form are accepted |
| Php.AcceptsString | src/Appcia/Utils/Php.php:99-106 | a serialized string is accepted |
| Php.AcceptsArray | src/Appcia/Utils/Php.php:99-106 | a serialized array is accepted |
| Php.RejectsUnknownTag | src/Appcia/Utils/Php.php:94-96 | `x:1;` is refused |
| Php.RejectsEmptyNumber | src/Appcia/Utils/Php.php:110 | `i:;` is refused: a number needs at least one character |
| Php.RejectsUnterminatedNumber | src/Appcia/Utils/Php.php:110 | `b:1` is refused: a number must end with `;` |
| Php.RejectsMissingBody | src/Appcia/Utils/Php.php:102 | `s:3:` is refused: the sized form needs a body ending in `;` or `}` |
| Php.RejectsMissingLength | src/Appcia/Utils/Php.php:102 | `s::"";` is refused: the length needs at least one digit |

## Left out

- Objects are not modelled: `Traversable` objects accepted as arrays, the object branch of `prop` (getter dispatch and properties), and `spl_object_hash`. Native arrays are modelled instead.
- Floats are not modelled. `is_scalar`, `serialize` and the truth test cover null, booleans, integers and strings only.
- Integers are unbounded. The 64-bit range limit of integer keys and of the digit cast in `getPath` / `setPath` is not modelled.
- PhpValues.NextIndex: uses one more than the largest integer key present, not PHP's internal next-index counter. The two differ after the largest key has been unset.
- ArraysUnique.Occurrences: compares values by equality rather than by `Val::hash`. `serialize` is injective on the modelled values, but the two digests are compared with loose `==` (`src/Appcia/Utils/Arrays.php:599`). The model and PHP therefore differ when two different values have MD5 digests that collide, or that are both `0e` followed only by digits, which `==` reads as the number 0.
- ArraysUnique.Unique: counts through `occurrences`, so it shares the difference above: PHP may drop an entry whose value only `==`-matches a later one through such digests.
- ArraysSearch.Search: compares with plain equality, not PHP's loose `==`.
- ArraysPath.SetPath: refuses to write into a non-null scalar (`ScalarAsArray`). PHP's auto-conversion of `false` and its string-offset writes are not modelled.
- ArraysPass.PassStep: a group slot holding a string is refused (`ScalarAsArray`), where PHP writes into the string at a string offset (one character of the value, for an integer name) or throws for another name. A slot holding `false` is turned into an array, as in PHP 8.0 to 8.2; `true` and integers are refused, as PHP does.
- ArraysPass.PassStepAsWritten: the same string-slot gap as ArraysPass.PassStep.
- ArraysPass.PassOne: the same string-slot gap as ArraysPass.PassStep.
- ArraysMerge.GlueLeaves: covers arrays whose joined names are distinct and not decimal integers. Otherwise `$result[...] =` overwrites an earlier leaf, or `array_merge` renumbers an integer key (ArraysMerge.GlueRenumbers shows one case), and `glue` then differs from the plain flattening. For those arrays only the shape lemmas (ArraysMerge.GlueIsFlat, ArraysMerge.GlueIdempotent) apply.
- ArraysMerge.ExtendArrays: refuses to merge an array into a non-null scalar in `$arr1`, where PHP raises a type error in the recursive call.
- Php.Serialize: counts string lengths in characters, not bytes. Floats and objects are not serialized, so Php.AcceptsSerialized covers null, booleans, integers, strings and arrays.
- Callbacks (`filter`, `pass`) are total functions of the value and the key. `pass`'s by-reference `$group` and `$name` are returned in a `PassOut` record. A callback that takes `$key` by reference and sets it to null, which would reach the `$res[$group][] =` branch (`src/Appcia/Utils/Arrays.php:428`), is not modelled. A callback that is not callable is not modelled.
- Paths and delimiters:
  - the delimiter is one character;
  - `trim` masks with `..` ranges are not used;
  - `PHP_EOL` is a line feed.
- `props` takes its chains as a sequence of values, not as a PHP array, so its keys are ignored as they are by the source.
- Not part of this model: `Arrays::slicePrecise` (float division), `Arrays::shuffle` (randomness), `Arrays::isArray` beyond native arrays, `Php::encode` / `Php::decode` / `Php::getSetting`, `Val::hash`, `Val::string`, `Val::float`, `Val::integer`, `Val::stringable`, the `Json` class, and the methods inherited from `Nette\Utils\Arrays`. Their sources or the libraries they call are outside the core.

## Findings

| source | as written | input that shows it | evidently intended | confidence | as-written member | corrected member |
|---|---|---|---|---|---|---|
| src/Appcia/Utils/Arrays.php:71 | when a nested array does not hold the needle, `search` resets the whole key list to `array()`, losing the keys of the enclosing levels | needle 5 in `['x' => ['p' => [], 'q' => 5]]` gives the key list `['q']` | forget only the key of the subtree given up, giving `['x', 'q']`, a path that reaches the needle | high; not executed | ArraysSearch.AsWrittenLosesPrefix | ArraysSearch.SearchSpec |
| src/Appcia/Utils/Arrays.php:425 | `pass` tests `$key !== null` where `$name` is meant. `$key` from `foreach` is never null, unless a by-reference callback sets it to null, so a grouped value without a name is stored under `$res[$group][null]`, the key `""`, overwriting the earlier members | a callback that puts the values 1 and 2 in group `'g'` without a name gives `['g' => ['' => 2]]` | test `$name !== null`, so unnamed values are appended: `['g' => [1, 2]]` | high; not executed | ArraysPass.AsWrittenDropsGroupMembers | ArraysPass.PassOneGroup |
