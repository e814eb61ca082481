# php-like-js in Dafny

A Dafny model of the three classes of `php-like-js`. Each class re-implements
a group of JavaScript built-ins on PHP values:

- `JSArray` wraps a PHP list. It has JavaScript's non-mutating operations
  (`map`, `filter`, `some`, `every`, `find`, `findIndex`, `indexOf`,
  `includes`, `flat`, `slice`, `concat`, `clone`, `reduce`) and its mutating
  ones (`push`, `pop`, `shift`, `unshift`, `sort`, `reverse`).
- `JSString` wraps an immutable text indexed by code point (`at`, `slice`,
  `startsWith`, `endsWith`, `includes`, `split`, `repeat`).
- `JSObject` holds static functions on ordered associative arrays (`keys`,
  `values`, `entries`, `fromEntries`, `assign`, `isAssocArray`,
  `fromObjectToAssocArray`, `clone`).

Files:

- `wrappers.dfy`: `Option`, where `None` is PHP `null`, and `Result`, where
  `Failure` is a thrown exception.
- `js_array.dfy`, module `JSArrays`: the class `JSArray`.
  - The wrapped list is the field `elements`, because `array` is a reserved
    word in Dafny. Methods that change it declare `modifies this`.
  - A PHP value that may hold nested lists is `Value<A> = Leaf(A) | List(seq<Value<A>>)`.
  - Callbacks are Dafny function values `(value, index, array) -> result`.
- `js_string.dfy`, module `JSStrings`: each text is a `seq<char>`, one `char`
  per code point.
  - The class's `string` field is assigned only by the constructor. `slice`
    and `repeat` return a new `JSString`; `at`, `split`, `startsWith`,
    `endsWith` and `includes` return strings, arrays or booleans. So the
    model works on the text itself.
  - The class has no `__toString`. A `JSString` object handed to a PHP
    built-in that takes a string (`PhpValue.JSStringObject`) makes PHP 8
    throw a `TypeError` (`Error.TypeError`).
- `js_object.dfy`, module `JSObjects`: an associative array is a
  `seq<(Key, V)>` in insertion order, with `Key = IntKey(int) | StrKey(string)`.
  - `Put` models `$m[$k] = $v`: an existing key keeps its position and takes
    the new value, and a new key is appended.

Loops in the PHP code are `while` loops with invariants in the model,
except the foreach of the recursive `iter` inside `flat`, which is the
recursive function `IterItems`.
`Filter`, `Flat`, `ReverseInPlace`, `JSStrings.Slice`, `Keys`, `FromEntries`,
`Assign` and `FromObjectToAssocArray` are proved equal to a specification
function, and the properties are proved of that function. The other loops
(`Map`, `Any`, `Every`, `Find`, `FindIndex`, both `Includes` loops of
`JSArray`, `JSArray.Slice`, `Sort`, `Values`, `Entries`, `SplitByChars`)
state their results directly in their postconditions. The loop of `reduce`
computes an accumulator that the PHP code then discards; the model states
only the array `reduce` returns.

## Model

| member | source | states |
|---|---|---|
| JSArrays.JSArray.constructor | src/JSArray.php:6-8 | the wrapper holds exactly the given list |
| JSArrays.JSArray.IsEmpty | src/JSArray.php:106-108 | true exactly when the list is empty |
| JSArrays.JSArray.At | src/JSArray.php:28-34 | a non-negative index reads that element; an index in `[-len, 0)` reads element `len + index`; `null` exactly when the index is out of range |
| JSArrays.JSArray.Map | src/JSArray.php:41-49 | a new array of the same length whose element `i` is `callback(a[i], i, a)`; the receiver is not modified |
| JSArrays.Kept | src/JSArray.php:57-62 | definition of what filter's loop collects: the elements among the first `n` that the callback accepts, in order (its properties are `KeptSelects`) |
| JSArrays.JSArray.Filter | src/JSArray.php:55-65 | a new array equal to `Kept`, the accepted elements in order; the receiver is not modified |
| JSArrays.KeptSelects | src/JSArray.php:55-65 | the filtered elements sit at strictly increasing indices of the original, there are at most `len` of them, and an index is selected exactly when the callback accepts its element |
| JSArrays.JSArray.Any | src/JSArray.php:72-83 | `some` is true exactly when some element satisfies the callback, so it is false on an empty array |
| JSArrays.JSArray.Every | src/JSArray.php:90-101 | `every` is true exactly when all elements satisfy the callback, so it is true on an empty array |
| JSArrays.JSArray.Find | src/JSArray.php:114-125 | `null` exactly when no element satisfies the callback; otherwise the first element that does |
| JSArrays.JSArray.FindIndex | src/JSArray.php:132-143 | -1 exactly when no element satisfies the callback; otherwise the index of the first element that does |
| JSArrays.ArraySearch | src/JSArray.php:149-152 | `array_search` from an index: the first loosely equal position, or -1 (standing for `false`) exactly when there is none |
| JSArrays.JSArray.IndexOf | src/JSArray.php:149-152 | the first index whose element is loosely equal to the value, or -1 exactly when there is none |
| JSArrays.JSArray.Flat | src/JSArray.php:159-175 | a new array equal to `iter(depth, array)`; the receiver is not modified |
| JSArrays.Iter | src/JSArray.php:160-172 | definition of `iter`: depth 0 returns the items unchanged, any other depth runs the loop (its properties are the `Iter…` lemmas below) |
| JSArrays.IterItems | src/JSArray.php:163-169 | definition of the loop of `iter`: a nested array is flattened one level shallower and spliced in, any other item is pushed |
| JSArrays.IterSplices | src/JSArray.php:160-172 | for a non-zero depth, flattening distributes over concatenation, passes a non-array item through, and replaces a nested array by its flattening one level shallower |
| JSArrays.IterItemsAppend | src/JSArray.php:161-169 | the loop of `iter` distributes over concatenation |
| JSArrays.IterKeepsLeaves | src/JSArray.php:159-175 | flattening at any depth keeps the non-array items in their order; `flat(0)` is the identity by `Iter`'s first case |
| JSArrays.IterItemsKeepLeaves | src/JSArray.php:161-169 | the loop of `iter` keeps the non-array items in their order |
| JSArrays.IterNegativeDepthIsFlat | src/JSArray.php:159-175 | a negative depth never reaches 0, so it flattens completely |
| JSArrays.IterItemsNegativeDepthIsFlat | src/JSArray.php:161-169 | the loop of `iter` at a negative depth leaves no nested array |
| JSArrays.LeavesAppend | src/JSArray.php:159-175 | the non-array items of a concatenation are those of each part in turn |
| JSArrays.JSArray.Includes | src/JSArray.php:181-192 | true exactly when the value occurs strictly (`===`) at an index from `fromIndex` up to `len - 2`; the last element is never compared |
| JSArrays.JSArray.IncludesThroughLast | src/JSArray.php:181-192 | the corrected loop: true exactly when the value occurs at an index from `fromIndex` up to `len - 1` |
| JSArrays.JSArray.Clone | src/JSArray.php:210-212 | a new wrapper holding an equal list |
| JSArrays.JSArray.Push | src/JSArray.php:229-232 | the whole argument list is appended as ONE element, nothing else changes, and the result is the old length + 1 |
| JSArrays.JSArray.Pop | src/JSArray.php:239-242 | on an empty array, `null` and the array is unchanged; otherwise the last element is returned and removed, the rest unchanged |
| JSArrays.JSArray.Shift | src/JSArray.php:249-252 | on an empty array, `null` and the array is unchanged; otherwise the first element is returned and removed, the rest unchanged |
| JSArrays.JSArray.Unshift | src/JSArray.php:260-263 | the whole argument list is prepended as ONE element and the result is the old length + 1 |
| JSArrays.JSArray.Reduce | src/JSArray.php:270-282 | the accumulator is discarded: the result is a new array of the list without its first element when there is no initial value and the list is not empty, else a full copy; the receiver is not modified |
| JSArrays.SliceStart | src/JSArray.php:294-297 | definition of `$start`: a non-negative `begin` as it is, a negative one with the length added |
| JSArrays.SliceUpTo | src/JSArray.php:293-302 | definition of `$upTo`: an absent end is the length, a negative end has the length added |
| JSArrays.SliceReadsInRange | src/JSArray.php:304-308 | definition of the domain of `slice`: either the loop body never runs (`$size <= 0`) or every read `$this->array[$start + $i]` is inside the list |
| JSArrays.JSArray.Slice | src/JSArray.php:290-317 | negative bounds have the length added; the result is a plain list of length `max(0, upTo - start)` equal to `a[start..upTo]`; the receiver is not modified |
| JSArrays.Insert | src/JSArray.php:325-329 | inserting one element adds exactly that element to the multiset of elements |
| JSArrays.InsertLowerBound | src/JSArray.php:325-329 | a lower bound of the list and of the new element is a lower bound of the result |
| JSArrays.ConsKeepsSorted | src/JSArray.php:325-329 | a value that may come before every element of a sorted list may head it |
| JSArrays.InsertKeepsSorted | src/JSArray.php:325-329 | for a total-preorder comparator, inserting into a sorted list keeps it sorted |
| JSArrays.JSArray.Sort | src/JSArray.php:325-329 | the field is reordered in place into a permutation sorted by the comparator, and the method returns `$this` |
| JSArrays.JSArray.Concat | src/JSArray.php:335-337 | a new array of the list followed by the arguments; the receiver is not modified |
| JSArrays.JSArray.Reverse | src/JSArray.php:344-347 | returns `$this` and the list is unchanged, because the reversed copy is discarded |
| JSArrays.JSArray.ReverseInPlace | src/JSArray.php:344-347 | the corrected method: returns `$this` and the list is reversed |
| JSArrays.Reversed | src/JSArray.php:345 | `array_reverse` keeps the length |
| JSArrays.ReversedAt | src/JSArray.php:345 | element `k` of the reversal is element `len - 1 - k` of the list |
| JSArrays.ReversedTwice | src/JSArray.php:345 | reversing twice gives the list back |
| JSStrings.MbSubstrOne | src/JSString.php:23 | definition of `mb_substr($text, $position, 1)`: a negative position counts from the end, and past the end gives `''` (what it yields is stated by `At`'s contract) |
| JSStrings.PhpEmpty | src/JSString.php:24 | definition of PHP's `empty()` on a string, true for `''` and also for `'0'` (its effect is stated by `At`'s contract) |
| JSStrings.At | src/JSString.php:22-25 | `null` exactly when the position is past the end OR the selected code point is `'0'`; otherwise the one-code-point string at the position, counted from the end when negative |
| JSStrings.AtCodePoint | src/JSString.php:22-25 | the corrected `at`: `null` exactly when the position is past the end |
| JSStrings.AtMissesZero | src/JSString.php:22-25 | `"10"->at(1)` is `null`, while the corrected reading gives `"0"` |
| JSStrings.AtDiffersOnlyOnZero | src/JSString.php:22-25 | the two readings of `at` differ exactly where the selected code point is `'0'` |
| JSStrings.SliceFrom | src/JSString.php:143-145 | definition of the normalised `$indexStart`: a negative start has the length added |
| JSStrings.SliceTo | src/JSString.php:141-148 | definition of `$length`: the end, or the text length when the end is `null`; a negative end has the length added |
| JSStrings.Pieces | src/JSString.php:150-154 | definition of slice's loop: the concatenation of `at(i)` over the range, `null` contributing nothing (its properties are the `Pieces…` lemmas below) |
| JSStrings.SliceText | src/JSString.php:139-157 | definition of the text `slice` wraps: `Pieces` over the range after negative bounds have had the length added |
| JSStrings.Slice | src/JSString.php:139-157 | the loop's result equals `SliceText`, the concatenation of `at(i)` for `i` in `[start, end)` after negative bounds have the length added |
| JSStrings.PiecesBounds | src/JSString.php:139-157 | the slice is empty when `end <= start` and at most `end - start` code points long, and it never contains `'0'` |
| JSStrings.PiecesInText | src/JSString.php:150-154 | within the text, the slice is the substring with every `'0'` dropped |
| JSStrings.PiecesPastEnd | src/JSString.php:150-154 | positions past the end contribute nothing |
| JSStrings.PiecesBeforeStart | src/JSString.php:150-154 | negative positions read the text counted from the end |
| JSStrings.PiecesWrap | src/JSString.php:150-154 | a range from a negative start to a non-negative end reads the tail of the text and then its head |
| JSStrings.SliceWithinText | src/JSString.php:139-157 | for bounds inside the text, `slice` is the substring with every `'0'` dropped |
| JSStrings.DropZerosOfZeroFree | src/JSString.php:139-157 | a text without `'0'` is sliced unchanged |
| JSStrings.StringArg | src/JSString.php:64 | a string parameter of a PHP built-in succeeds exactly when it receives a string, and for a `JSString` object (no `__toString`) fails with a `TypeError` naming the built-in |
| JSStrings.MbPrefix | src/JSString.php:64 | definition of `mb_substr($s, 0, $n)`: the first `n` code points, or the whole text when it is shorter |
| JSStrings.StartsWith | src/JSString.php:56-69 | as written, every call throws a `TypeError` from `mb_substr`: `$position` is never `null`, so the `JSString` object `slice` returns is what reaches it |
| JSStrings.StartsWithSliceText | src/JSString.php:56-69 | definition of the corrected `startsWith`: the text of `slice(position)` is compared |
| JSStrings.StartsWithIffPrefix | src/JSString.php:56-69 | the corrected `startsWith(t, pos)` holds exactly when `t` is a prefix of `slice(pos)` |
| JSStrings.StartsWithOnZeroFreeText | src/JSString.php:56-69 | on a text without `'0'`, the corrected `startsWith(t, pos)` holds exactly when `t` is a prefix of the text from `pos` |
| JSStrings.StartsWithNeverSeesZero | src/JSString.php:56-69 | a search string containing `'0'` never matches the corrected `startsWith`, because `slice` drops every `'0'` |
| JSStrings.StartsWithThrows | src/JSString.php:61-64 | `'ab'->startsWith('a')` throws as written, while the corrected member gives `true` |
| JSStrings.EndsWith | src/JSString.php:33-48 | as written: without an end position, the result is the corrected comparison of the whole text; with one, it throws a `TypeError` from `mb_strlen`, which receives the `JSString` object `slice` returns |
| JSStrings.EndsWithText | src/JSString.php:41-43 | definition of the comparison: `mb_substr($s, len - n) === $search`, false when the search string is longer than the text |
| JSStrings.EndsWithSliceText | src/JSString.php:33-48 | definition of the corrected `endsWith`: the text of `slice(0, end)` is compared |
| JSStrings.EndsWithIffSuffix | src/JSString.php:33-48 | without an end position, `endsWith(t)` succeeds, with `true` exactly when `t` is a suffix of the whole text |
| JSStrings.EndsWithBefore | src/JSString.php:33-48 | with an end position inside the text, the corrected `endsWith(t, end)` holds exactly when `t` is a suffix of the first `end` code points with every `'0'` dropped |
| JSStrings.EndsWithThrows | src/JSString.php:38-41 | `'ab'->endsWith('a', 1)` throws as written, while the corrected member gives `true` |
| JSStrings.MbStrpos | src/JSString.php:80-84 | `mb_strpos`: the first position of the needle at or after the offset, or `false` exactly when it occurs nowhere there |
| JSStrings.Includes | src/JSString.php:77-85 | as written: with position 0, it succeeds, with `true` exactly when the search string occurs in the whole text; with any other position it throws a `TypeError` from `mb_strpos`, which receives the `JSString` object `slice` returns |
| JSStrings.IncludesSliceText | src/JSString.php:77-85 | the corrected `includes`: with position 0 it agrees with the code as written; otherwise true exactly when the search string occurs in `slice(position)` |
| JSStrings.IncludesNeverSeesZero | src/JSString.php:77-85 | with a non-zero position, the corrected `includes` never finds `"0"` |
| JSStrings.IncludesThrows | src/JSString.php:81-84 | `'ab'->includes('b', 1)` throws as written, while the corrected member gives `true` |
| JSStrings.SplitByChars | src/JSString.php:87-95 | exactly `max(0, limit)` items, item `i` being `at(i)`, so past the end the items are `null` |
| JSStrings.Take | src/JSString.php:117 | `array_slice($pieces, 0, $limit)`: the first `min(limit, count)` pieces, in order |
| JSStrings.Split | src/JSString.php:103-118 | a limit of 0 gives `[]` first; a `null` separator gives `[text]` even for a negative limit; any other separator with a negative limit throws; `''` splits by code point with the limit, or with the length when no limit is given; any other separator gives the `mb_split` pieces cut to the limit |
| JSStrings.StrRepeat | src/JSString.php:125-131 | `str_repeat` has length `count * len` |
| JSStrings.Repeat | src/JSString.php:125-131 | throws exactly when the count is negative, with the PHP code's message; otherwise the result has length `count * len`, and a count of 0 gives `''` |
| JSStrings.StrRepeatAdds | src/JSString.php:130 | `a + b` copies are `a` copies followed by `b` copies |
| JSStrings.StrRepeatCopy | src/JSString.php:130 | the `k`-th block of `len` code points of the result is the text itself |
| JSObjects.KeyList | src/JSObject.php:25 | `array_keys`: one key per pair, in order |
| JSObjects.Lookup | src/JSObject.php:110 | reading a key gives `null` exactly when the key is absent |
| JSObjects.Put | src/JSObject.php:127 | `$m[$k] = $v`: an existing key keeps its position, and a new key is appended after the others |
| JSObjects.PutLookup | src/JSObject.php:127 | after `$m[$k] = $v`, `k` maps to `v` and every other key keeps its value |
| JSObjects.PutKeepsDistinct | src/JSObject.php:127 | assigning a key keeps the keys distinct |
| JSObjects.IsEmpty | src/JSObject.php:8-10 | true exactly when the count is 0 |
| JSObjects.Range | src/JSObject.php:25 | `range(lo, hi)` counts up or down from `lo` to `hi`, both included, so it has `abs(hi - lo) + 1` items |
| JSObjects.RangeUp | src/JSObject.php:25 | `range(lo, hi)` with `lo <= hi` is `lo, lo + 1, ..., hi` |
| JSObjects.IsAssocArray | src/JSObject.php:24-26 | definition of `isAssocArray`: the keys differ from `range(0, count - 1)` (its meaning is stated by `IsAssocArrayIff`) |
| JSObjects.IsAssocArrayIff | src/JSObject.php:24-26 | false exactly when the keys are the integers `0, 1, ..., n - 1` in order and the array is not empty, so the empty array is associative |
| JSObjects.Clone | src/JSObject.php:52-54 | an equal array |
| JSObjects.Keys | src/JSObject.php:61-69 | the loop yields the keys, one per pair, in insertion order |
| JSObjects.Values | src/JSObject.php:76-84 | the loop yields `count(m)` values in insertion order |
| JSObjects.Entries | src/JSObject.php:91-99 | the loop yields `count(m)` entries, entry `i` being `[keys[i], values[i]]` |
| JSObjects.PutAll | src/JSObject.php:109-111 | definition of writing pairs in order: each pair is a `$m[$k] = $v` (its properties are `PutAllKeys`, `PutAllLookup` and `PutAllKeepsDistinct`) |
| JSObjects.PutAllKeys | src/JSObject.php:109-111 | writing pairs in order: the keys already present keep their positions, and new keys are appended in order of first occurrence |
| JSObjects.PutAllLookup | src/JSObject.php:109-111 | writing pairs in order: a key's value comes from its last pair, else from the array written into |
| JSObjects.PutAllKeepsDistinct | src/JSObject.php:109-111 | writing pairs keeps the keys distinct |
| JSObjects.FromEntriesOf | src/JSObject.php:106-114 | definition of what `fromEntries` builds: the pairs written in order into an empty array (its properties are `FromEntriesSpec` and `FromEntriesOfDistinct`) |
| JSObjects.FromEntries | src/JSObject.php:106-114 | the loop's result equals the pairs written in order into an empty array |
| JSObjects.FromEntriesSpec | src/JSObject.php:106-114 | a repeated key takes the value of its last entry and keeps the position of its first; every key occurs once |
| JSObjects.FromEntriesOfDistinct | src/JSObject.php:91-114 | for distinct keys, `fromEntries(entries(m)) == m` |
| JSObjects.AssignOf | src/JSObject.php:122-132 | definition of what `assign` builds: the target, then each source written into it, left to right (its properties are `AssignLookup`, `AssignKeys` and `AssignKeepsDistinct`) |
| JSObjects.Assign | src/JSObject.php:122-132 | the nested loops' result equals the target with the sources written in order, left to right; the target is a value and is not modified |
| JSObjects.AssignLookup | src/JSObject.php:122-132 | the last source holding a key wins, else the target's value stands |
| JSObjects.AssignKeys | src/JSObject.php:122-132 | the keys are the target's, in their positions, followed by each key of the sources not seen before, in order of first appearance; a key is in the result exactly when the target or some source has it |
| JSObjects.AssignKeepsDistinct | src/JSObject.php:122-132 | distinct keys in the target stay distinct in the result |
| JSObjects.NeedsConversion | src/JSObject.php:38 | definition of the test: the value is an associative array or an object |
| JSObjects.Convert | src/JSObject.php:38-42 | a converted value is never an object |
| JSObjects.ToAssoc | src/JSObject.php:34-46 | definition of what `fromObjectToAssocArray` builds: each pair written in order, with objects and associative arrays converted recursively (its properties are `ToAssocSpec` and `ToAssocPairs`) |
| JSObjects.FromObjectToAssocArray | src/JSObject.php:34-46 | the loop, with its recursive call, returns `ToAssoc(object)` |
| JSObjects.ToAssocSpec | src/JSObject.php:34-46 | for distinct keys, the keys and their order are preserved; leaves and list-like arrays are copied unchanged; objects and associative arrays are converted recursively; no object is left at the top level |
| JSObjects.ToAssocPairs | src/JSObject.php:37-43 | for distinct keys, the result is the input with each value converted in place |

## Left out

- `src/autoloader.php`: file-system lookup and `include_once`, with no behaviour to model.
- `JSArray::forEach` and `JSArray::join`: `forEach` acts only through the callback's side effects, and `join` needs PHP's string conversion of arbitrary values.
- `JSArray::getResult` and `getLength`, and `JSString::getLength`: modelled as the field or its length, with no property beyond that.
- `JSObject::getLength`: modelled as the count, with no property beyond that.
- The wrappers `toLowerCase`, `toUpperCase`, `trim`, `trimStart`, `trimEnd` and `sanitize` in `JSString`: they depend on Unicode case tables, PHP's `trim` family and `filter_var`.
- JSStrings.Split: the regular-expression path is a parameter `mbSplit`, because the `mb_split` engine is not part of this model. The model only applies the limit to its pieces.
- JSArrays.JSArray.Slice: requires every read to be in range. Out-of-range reads would give PHP's undefined-key warning and `null`.
- JSArrays.JSArray.At: an out-of-range index gives `None`. The warning PHP also emits is not modelled.
- JSStrings.At: requires a position of at least `-len`. `mb_substr` below `-len` is not modelled.
- JSStrings.Slice, JSStrings.StartsWith and JSStrings.Includes: require `SliceDefined`. After a negative start has had the length added, it must be at least `-len`, unless the range is empty. So a negative start as passed must be at least `-2 * len`. The `at` calls below that would reach `mb_substr` below `-len`, which is not modelled. The corrected members carry the same requirement.
- JSStrings.Split and JSStrings.Repeat: the PHP code throws a plain `Exception`. The model keeps only its message, as `Error.InvalidArgument`, not the exception class.
- JSStrings.StartsWith, JSStrings.EndsWith and JSStrings.Includes: the `TypeError` carries only the name of the built-in that throws it, not PHP's full message.
- JSArrays.JSArray.IndexOf: PHP's loose `==` is a parameter `looseEquals`.
- JSArrays.JSArray.Includes: the value searched for is not `null`, so a read at a negative `fromIndex` (which is `null` in PHP) never matches.
- JSArrays.JSArray.Sort: assumes the comparator is a total preorder. `usort`'s own algorithm and its order among equal elements are not modelled. The model sorts by insertion.
- JSArrays.JSArray.Flat: the global redeclaration of `iter` when `flat` is called twice is not modelled.
- String-to-integer key coercion is not modelled: a numeric-string key stays a string. PHP's iteration over object properties is modelled as an ordered map.
- JSObjects.FromEntries: each entry is a pair. Entries without index 0 or 1 are not modelled.
- JSObjects.ToAssocSpec: is stated for distinct keys, which every PHP array and object has.
- Default parameters are explicit arguments. An omitted `$end` or `$limit` is `None`.
- Where the documented behaviour and the code disagree (`includes`, `reverse`, `reduce`), the model follows the code. `reduce` returns the trimmed copy, not the accumulator.
- The corrected `at` (`JSStrings.AtCodePoint`) is not used by `slice`, `startsWith`, `endsWith`, `includes` or `split`. In the PHP code these call `at` as written, so the model keeps that behaviour, also in the corrected `StartsWithSliceText`, `EndsWithSliceText` and `IncludesSliceText`.

## Findings

| source | as written | input that shows it | evidently intended | confidence | as-written member | corrected member |
|---|---|---|---|---|---|---|
| src/JSArray.php:184 | the loop runs while `$i < getLength() - 1` | `new JSArray([1, 2, 3])->includes(3)` is `false` | every index up to the last is compared, so the result is `true` | not executed | JSArrays.JSArray.Includes, JSArrays.IncludesMissesLastElement | JSArrays.JSArray.IncludesThroughLast |
| src/JSArray.php:345 | `array_reverse($this->array);` discards its result | `new JSArray([1, 2])->reverse()` still holds `[1, 2]` | the field holds `[2, 1]` | not executed | JSArrays.JSArray.Reverse, JSArrays.ReverseKeepsOrder | JSArrays.JSArray.ReverseInPlace |
| src/JSString.php:61-64 | `$newString = $this->slice($position)` stores the `JSString` object `slice` returns, which `mb_substr` then receives; `$position` is an `int`, so this branch always runs | `new JSString('ab')->startsWith('a')` throws a `TypeError` | the text of the slice is compared, so the result is `true` | not executed | JSStrings.StartsWith, JSStrings.StartsWithThrows | JSStrings.StartsWithSliceText |
| src/JSString.php:38-41 | `$newString = $this->slice(0, $endPosition)` stores a `JSString` object, which `mb_strlen` then receives | `new JSString('ab')->endsWith('a', 1)` throws a `TypeError` | the text of the slice is compared, so the result is `true` | not executed | JSStrings.EndsWith, JSStrings.EndsWithThrows | JSStrings.EndsWithSliceText |
| src/JSString.php:81-84 | `$string = $this->slice($position)` stores a `JSString` object, which `mb_strpos` then receives | `new JSString('ab')->includes('b', 1)` throws a `TypeError` | the text of the slice is searched, so the result is `true` | not executed | JSStrings.Includes, JSStrings.IncludesThrows | JSStrings.IncludesSliceText |
| src/JSString.php:24 | `empty($result)` is also true for the string `'0'` | `new JSString('10')->at(1)` is `null` | `'0'`, with `null` only past the end | not executed | JSStrings.At, JSStrings.AtMissesZero | JSStrings.AtCodePoint |
