# Collections and string exercises, modelled in Dafny

This project models a small hand-written Java collections library and three string
exercises built on it.

- **`collections.HashTable`** is a fixed array of buckets. Each bucket holds a chain of key/value entries.
  - `add` overwrites the value of a key already present. Otherwise it appends a new entry and counts it.
  - `get` scans the key's chain.
  - A key iterator walks the buckets in order, and each chain in order.
- **`collections.ArrayList`** is a growable array.
  - It doubles its capacity when full.
  - `add(item, i)` shifts the elements after `i` up one place, and `remove` shifts them down.
  - It has an index-order iterator and a `toString` that joins the items with `", "`.
- **`collections.StringBuilder`** collects fragments in an array list.
  - It keeps their total length.
  - `toString` fills a character array of exactly the joined length, writing a separator while the cursor is short of the end.
- **`URLify.urlify`** rewrites the spaces of a padded character array into `%20` in place. It works back to front with a source and a target pointer.
- **`CheckPermutation`** decides whether two strings are permutations of each other, in two ways:
  - with a hash table of character counters, counted up over one string and down over the other;
  - by sorting and comparing.
- **`IsUnique`** decides whether a string has no repeated character, in three ways: with a set, with a 256-entry bitmap, and by sorting and comparing neighbours.

Each class with mutable state is a Dafny `class` whose methods update its fields.
Each class also has a ghost abstraction: the sequence of an `ArrayList` (`Contents`), the fragments of a
`StringBuilder`, and the map of a `HashTable` (`Contents`). The methods are proved against that abstraction.

- The hash table's representation invariant (`Chains.TableOk`) says four things:
  - every chain holds distinct keys, all hashing to its bucket;
  - the chains represent the map;
  - `size` counts the entries;
  - the bucket count is fixed.
- `System.arraycopy` is written out as explicit shifting loops.
- Every loop of the source is a Dafny loop with its invariants.

Each operation's result is tied to a specification function, and the properties the source relies on are proved about that function:

| Operation | Specification | Proved about it |
|---|---|---|
| `urlify` | `URLify.Urlified` | `URLify.UrlifiedShape` |
| the counter | `CheckPermutation.Counter` | `CheckPermutation.CounterMeaning`, `CheckPermutation.CounterZero` |
| `StringBuilder.toString` | `Joins.Join` | `Joins.JoinLength`, `Joins.JoinSplit`, `Joins.JoinEmptySeparator` |
| `Arrays.sort` | `Sorting.Sort` | `Sorting.SortedUnique` |

Keys of the hash table are compared with Dafny equality on the key type. The source's
`add` and `get` compare keys with `==`, by reference (src/collections/HashTable.java:57, 85).
Each use in the model picks its reading through the key type:

- A type whose values are object identities gives reference equality. `CheckPermutation.Boxed` is such a type: a character and an object number.
- A value type such as `char` gives `equals`.
- The `String` keys of the table's test are literals, which Java interns, so both readings agree there.
- For `checkPermutationWithCounter` the two readings differ above character 127. That case is a finding below, with both versions modelled.

Modules: `Wrappers` (null and exceptions), `Chains` (the pure side of the hash table), `Joins`,
`Collections` (the three classes and their iterators), `Sorting`, `URLify`,
`CheckPermutation`, `IsUnique`.

## Model

| member | source | states |
|---|---|---|
| Chains.BucketOf | src/collections/HashTable.java:46 | the bucket index is in [0, buckets) and equals Java's `hashCode() % buckets` whenever the hash is non-negative |
| Chains.JavaRemainder | src/collections/HashTable.java:46 | Java's truncating `%`: the result lies strictly between -buckets and buckets and is negative only for a negative hash |
| Chains.JavaBucketCanBeNegative | src/collections/HashTable.java:46 | a hash code of -1 gives Java bucket -1 with 512 buckets, while the normalised bucket is 511 |
| Chains.LookupFound | src/collections/HashTable.java:84-87 | the chain scan of `get` finds a value exactly when some entry carries the key, and the value found is that of an entry with the key |
| Chains.LookupAt | src/collections/HashTable.java:84-86 | in a chain with distinct keys, the scan for the key of entry i returns entry i's value |
| Chains.LookupReplaced | src/collections/HashTable.java:56-61 | overwriting the value of the entries with key k makes the scan find the new value for k, and changes nothing the scan finds for any other key |
| Chains.LookupAppended | src/collections/HashTable.java:64-65 | appending an entry for a key the chain lacks makes the scan find the new value for it and leaves every other key's result unchanged |
| Chains.FlattenUpdateLength | src/collections/HashTable.java:63-67 | replacing one bucket's chain changes the total number of entries by the difference of the chain lengths |
| Chains.FlattenIndex | src/collections/HashTable.java:160-169 | entry i of bucket c is at position (entries of buckets before c) + i of the bucket-by-bucket walk |
| Chains.NextBucket | src/collections/HashTable.java:163-167 | when the cursor is past the end of bucket c's chain but inside the walk, bucket c + 1 exists and starts exactly at the cursor |
| Chains.FlattenMember | src/collections/HashTable.java:160-169 | every entry of the walk comes from a chain of some bucket |
| Chains.FlattenDistinct | src/collections/HashTable.java:18-20 | well-formed chains never repeat a key anywhere in the whole walk |
| Chains.FlattenNoLists | src/collections/HashTable.java:34-37 | a table in which no bucket has a list yet holds no entries |
| Chains.ChainAfterAdd | src/collections/HashTable.java:52-67 | the chain `add` leaves behind is still well formed in its bucket; it grows by one only when the key was missing; and the scan finds the new value for the key and the old result for every other key |
| Chains.RepresentsAfterAdd | src/collections/HashTable.java:44-68 | storing the rewritten chain into the key's bucket makes the buckets represent the map updated at the key |
| Chains.KeyFound | src/collections/HashTable.java:54-61 | in a well-formed table, the key's chain holds the key exactly when the map does |
| Chains.ChainsAfterStore | src/collections/HashTable.java:52 | storing a well-formed chain into its bucket keeps every chain of the table well formed |
| Chains.MapSizeAfterAdd | src/collections/HashTable.java:63-67 | updating a map at a key adds one to its size exactly when the key was absent |
| Chains.TableAfterAdd | src/collections/HashTable.java:44-68 | `add` keeps the representation invariant (distinct keys in their own buckets, `size` equal to the number of entries, the map represented); `found` holds exactly when the key was in the map, and `size` grows exactly when it was not |
| Joins.ShownStep | src/collections/ArrayList.java:102-104 | rendering one more item adds its rendering at the end |
| Joins.TotalLengthSnoc | src/collections/StringBuilder.java:38-41 | appending a fragment adds its length to the total length |
| Joins.JoinLength | src/collections/StringBuilder.java:52 | a join of n > 0 fragments is the total fragment length plus n - 1 separators long |
| Joins.JoinSplit | src/collections/StringBuilder.java:65-70 | cutting the fragments at any inner point cuts the join at exactly one separator |
| Joins.JoinEmptySeparator | src/collections/StringBuilder.java:22-24 | with the default empty separator, the join is plain concatenation |
| Collections.CopyPrefix | src/collections/ArrayList.java:40 | `arraycopy(src, 0, dst, 0, n)`: the first n cells of dst equal those of src and the rest are unchanged |
| Collections.MoveUp | src/collections/ArrayList.java:62 | `arraycopy(a, lo, a, lo + 1, hi - lo)`: every cell in (lo, hi] holds the old content of the cell below it, and every other cell is unchanged |
| Collections.MoveDown | src/collections/ArrayList.java:83 | `arraycopy(a, lo + 1, a, lo, hi - lo)`: every cell in [lo, hi) holds the old content of the cell above it, and every other cell is unchanged |
| Collections.ArrayList.constructor | src/collections/ArrayList.java:31-33 | an empty list over a fresh array of the requested capacity, every slot null |
| Collections.ArrayList.Default | src/collections/ArrayList.java:23-25 | an empty list with capacity 8 |
| Collections.ArrayList.Resize | src/collections/ArrayList.java:38-42 | a fresh backing array of twice the capacity, with every element kept at its index |
| Collections.ArrayList.Add | src/collections/ArrayList.java:48-52 | the list becomes old + [item]; the capacity doubles exactly when the list was full |
| Collections.ArrayList.Insert | src/collections/ArrayList.java:60-65 | for 0 <= i <= size, the list becomes old[..i] + [item] + old[i..]; otherwise it throws and keeps its elements. A full list grows even when the insert then throws |
| Collections.ArrayList.Get | src/collections/ArrayList.java:72-75 | the i-th element for 0 <= i < size, and the out-of-bounds exception otherwise |
| Collections.ArrayList.Remove | src/collections/ArrayList.java:81-86 | for 0 <= i < size, the list becomes old[..i] + old[i + 1..] and the vacated slot `arr[size]` is null; otherwise it throws and changes nothing |
| Collections.ArrayList.Size | src/collections/ArrayList.java:92-94 | the number of elements |
| Collections.ArrayList.Iterator | src/collections/ArrayList.java:112-114 | a fresh iterator over this list with its cursor at 0 |
| Collections.ArrayList.ToString | src/collections/ArrayList.java:100-106 | the items in index order, each rendered by `show` (`Joins.Shown`, one rendering per item), joined with ", " and nothing before the first or after the last |
| Collections.ArrayListIterator.constructor | src/collections/ArrayList.java:156-158 | an iterator over the given list, cursor at 0 |
| Collections.ArrayListIterator.HasNext | src/collections/ArrayList.java:161-163 | true exactly when the cursor is before the end of the list |
| Collections.ArrayListIterator.Next | src/collections/ArrayList.java:166-168 | the element at the cursor, or the out-of-bounds exception past the end; the cursor moves on by one either way |
| Collections.StringBuilder.constructor | src/collections/StringBuilder.java:30-33 | a builder with the given separator and no fragments |
| Collections.StringBuilder.Default | src/collections/StringBuilder.java:22-24 | a builder with the empty separator and no fragments |
| Collections.StringBuilder.Append | src/collections/StringBuilder.java:38-41 | the fragments become old + [s], and `length` stays equal to their total length |
| Collections.StringBuilder.ToString | src/collections/StringBuilder.java:47-74 | the fragments joined with the separator strictly between them ("" for no fragments), written into an array of exactly the computed length; the builder is unchanged |
| Collections.RenderedStep | src/collections/StringBuilder.java:58-71 | after fragment j the output so far is the join of the first j + 1 fragments; a separator follows exactly when more fragments remain, and the cursor is then short of the end unless everything after it is empty |
| Collections.WriteFragment | src/collections/StringBuilder.java:59-71 | one pass of the loop extends the rendering of j fragments to that of j + 1 within the array |
| Collections.WriteChars | src/collections/StringBuilder.java:61-63 | copying s at the cursor: the cursor advances by |s| and the prefix becomes the old prefix + s |
| Collections.ReplaceValue | src/collections/HashTable.java:55-61 | the scan in `add`: found holds exactly when some entry has the key, every such entry gets the new value, and the rest are kept |
| Collections.HashTable.constructor | src/collections/HashTable.java:34-37 | an empty map over the requested number of buckets, none with a list |
| Collections.HashTable.Default | src/collections/HashTable.java:26-28 | an empty map over 512 buckets |
| Collections.HashTable.Add | src/collections/HashTable.java:44-68 | the map becomes old[key := value]; `size` grows by one exactly when the key was absent; only the key's bucket changes; a present key's entries are overwritten in place and otherwise the new entry is appended at the end of the chain |
| Collections.HashTable.Get | src/collections/HashTable.java:75-88 | the key's value, or null when the map lacks the key (whether the bucket has no list or the chain lacks it) |
| Collections.HashTable.Size | src/collections/HashTable.java:94-96 | the number of keys of the map, which is also the number of entries in the buckets |
| Collections.HashTable.Enumeration | src/collections/HashTable.java:102-103 | the bucket-by-bucket walk has `size` entries with distinct keys, each carrying its value in the map, and meets every key of the map |
| Collections.HashTable.Iterator | src/collections/HashTable.java:102-104 | a fresh iterator over the bucket array, remembering the current `size`, cursor at 0 |
| Collections.HashTableIterator.constructor | src/collections/HashTable.java:149-152 | an iterator over the given array and size, at the start of the walk |
| Collections.HashTableIterator.HasNext | src/collections/HashTable.java:155-157 | true exactly when the cursor is before the end of the walk |
| Collections.HashTableIterator.Next | src/collections/HashTable.java:160-169 | the key at the cursor's position of the bucket-by-bucket walk; the cursor moves on by one |
| Collections.UpToSnoc | src/collections/ArrayList.java:122-124 | appending n + 1 to the numbers 1 to n gives the numbers 1 to n + 1 |
| Collections.ListScript | src/collections/ArrayList.java:126-133 | the removals and inserts of the test leave exactly the list -1, 2 to 10, 0, 11, 12, 14 to 24: 24 elements, of which the 4th is 4 and the 17th is 17 |
| Collections.ScriptedList | src/collections/ArrayList.java:121-133 | adding 1 to 25, removing at 0, 23 and 11 and inserting -1 at 0 and 0 at 10 gives a valid list holding exactly that sequence |
| Collections.ArrayListScenario | src/collections/ArrayList.java:119-140 | the test script: size 24, `get(3)` is 4, `get(16)` is 17, and the printed list is that sequence's elements, shown by the given rendering and joined by ", " |
| Collections.TableScript | src/collections/HashTable.java:113-125 | the five additions give a map of five keys in which "Two" is 2, "Four" is 4 and "Six" is absent |
| Collections.ScriptedTable | src/collections/HashTable.java:111-118 | the five additions, for any hash function, give a valid table mapping exactly "One" to 1, "Two" to 2, "Three" to 3, "Four" to 4 and "Five" to 5 |
| Collections.ListNext | src/collections/HashTable.java:128-129 | one turn of the printing loop: the iterator's next key is the next key of the bucket walk, and `get` of it is that key's value in the table |
| Collections.Listing | src/collections/HashTable.java:128-130 | iterating a table and looking each key up lists every key of the table exactly once, each with `Some` of its value |
| Collections.HashTableScenario | src/collections/HashTable.java:109-130 | the test script, for any hash function: five keys, "Two" gives 2, "Four" gives 4, "Six" gives null, and the loop prints each of the five keys exactly once with its own value |
| Collections.JoinScript | src/collections/StringBuilder.java:80-84 | "Hola", "mundo" and "¿qué tal?" joined by ", " |
| Collections.StringBuilderScenario | src/collections/StringBuilder.java:79-85 | the test script renders "Hola, mundo, ¿qué tal?" |
| Sorting.Insert | src/c01_arrays_strings/CheckPermutation.java:66 | inserting into a sorted sequence gives a sorted sequence whose multiset gains exactly the new character |
| Sorting.Sort | src/c01_arrays_strings/CheckPermutation.java:65-68 | `Arrays.sort`: the result is sorted and a permutation of the input |
| Sorting.SortedCons | src/c01_arrays_strings/CheckPermutation.java:66 | a lower bound of a sorted sequence can be put in front of it |
| Sorting.SameTails | src/c01_arrays_strings/CheckPermutation.java:71 | two permutations with the same first element are still permutations without it |
| Sorting.SortedUnique | src/c01_arrays_strings/CheckPermutation.java:65-71 | two sorted sequences with the same multiset are equal: sorting has one answer |
| URLify.UrlifiedShape | src/c01_arrays_strings/URLify.java:27 | the rewrite is the original length plus two per space, and contains no space |
| URLify.UrlifiedAppend | src/c01_arrays_strings/URLify.java:28-36 | the rewrite of a concatenation is the concatenation of the rewrites |
| URLify.SpacesAppend | src/c01_arrays_strings/URLify.java:22-24 | the space count of a concatenation is the sum of the counts |
| URLify.CountSpaces | src/c01_arrays_strings/URLify.java:22-24 | `ns` is the number of spaces in s[..l] |
| URLify.Advance | src/c01_arrays_strings/URLify.java:28-36 | moving the source pointer below s[ps] moves one character from the unread side to the rewritten side |
| URLify.CopyStep | src/c01_arrays_strings/URLify.java:35 | copying a non-space to the target pointer keeps the loop invariant with both pointers one lower, and the write stays inside the array |
| URLify.EscapeStep | src/c01_arrays_strings/URLify.java:29-33 | writing "%20" for a space keeps the loop invariant with the target pointer three lower, and the writes stay inside the array |
| URLify.Step | src/c01_arrays_strings/URLify.java:29-36 | one pass of the loop keeps the invariant: the unread prefix is intact, the written part is the rewrite of what was read, and the cells from l + 2ns on are untouched |
| URLify.Urlify | src/c01_arrays_strings/URLify.java:21-40 | as written: when l is 0 or s[0] is not a space, s[..l + 2ns] becomes the rewrite of the original s[..l]; when s[0] is a space it stays unexpanded, so the first three cells keep their old characters and the rest is the rewrite of s[1..l]; cells from l + 2ns on are unchanged, and the whole array is returned |
| URLify.UrlifyFixed | src/c01_arrays_strings/URLify.java:28 | with the loop running down to ps >= 0: s[..l + 2ns] becomes the rewrite of the original s[..l] for every input, the cells after it are unchanged, and the whole array is returned |
| URLify.LeadingSpaceNotExpanded | src/c01_arrays_strings/URLify.java:28 | for " a" padded to four cells the code as written gives " a" + '\0' + "a", while the rewrite is "%20a" |
| URLify.Plain | src/c01_arrays_strings/URLify.java:35 | text without spaces has no spaces to count and is copied unchanged |
| URLify.ExampleHead | src/c01_arrays_strings/URLify.java:47 | "Mr John" has one space and rewrites to "Mr%20John" |
| URLify.ExampleTail | src/c01_arrays_strings/URLify.java:47 | " Smith" has one space and rewrites to "%20Smith" |
| URLify.ExampleText | src/c01_arrays_strings/URLify.java:47 | "Mr John Smith" has two spaces and rewrites to "Mr%20John%20Smith" |
| URLify.Scenario | src/c01_arrays_strings/URLify.java:45-48 | the test case with l = 13 and four cells of padding gives "Mr%20John%20Smith" from both versions of the loop |
| CheckPermutation.BumpUp | src/c01_arrays_strings/CheckPermutation.java:32-35 | counting one more character up keeps the counter's meaning |
| CheckPermutation.BumpDown | src/c01_arrays_strings/CheckPermutation.java:38-41 | counting one more character down keeps the counter's meaning |
| CheckPermutation.CounterMeaning | src/c01_arrays_strings/CheckPermutation.java:31-41 | after the first two loops, the keys are exactly the characters of either string, and each maps to its count in s1 minus its count in s2 |
| CheckPermutation.CounterZero | src/c01_arrays_strings/CheckPermutation.java:43-47 | every counter is zero exactly when the two strings have the same multiset of characters |
| CheckPermutation.Increment | src/c01_arrays_strings/CheckPermutation.java:33-34 | `get` and then `add(c, count == null ? d : count + d)`: returns what `get` returned and bumps c's counter by d, starting from d when absent |
| CheckPermutation.CountUp | src/c01_arrays_strings/CheckPermutation.java:32-35 | the first loop leaves the counter of the characters of s1 counted up |
| CheckPermutation.CountDown | src/c01_arrays_strings/CheckPermutation.java:38-41 | the second loop leaves that counter with the characters of s2 counted down |
| CheckPermutation.ZeroStep | src/c01_arrays_strings/CheckPermutation.java:45 | a zero counter at the next key extends the run of zeros by one |
| CheckPermutation.TableStart | src/c01_arrays_strings/CheckPermutation.java:44 | the walk over the table's buckets meets exactly the keys of its map |
| CheckPermutation.WalkStart | src/c01_arrays_strings/CheckPermutation.java:44 | a fresh key iterator starts the walk with nothing passed yet |
| CheckPermutation.WalkDone | src/c01_arrays_strings/CheckPermutation.java:44-47 | a walk that has passed every key and found only zeros shows that every counter is zero |
| CheckPermutation.NextIsZero | src/c01_arrays_strings/CheckPermutation.java:44-46 | one pass of the third loop moves the iterator on by one and reports whether the key's counter is zero; a non-zero one shows that not every counter is zero |
| CheckPermutation.AllZero | src/c01_arrays_strings/CheckPermutation.java:44-47 | the third loop returns true exactly when every counter of the table is zero |
| CheckPermutation.CheckPermutationWithCounter | src/c01_arrays_strings/CheckPermutation.java:26-48 | with keys compared by value: true exactly when the two strings have the same multiset of characters (including false for different lengths) |
| CheckPermutation.UnboxPermutation | src/c01_arrays_strings/CheckPermutation.java:32-41 | box objects that are a permutation of each other hold characters that are a permutation of each other |
| CheckPermutation.CachedCount | src/c01_arrays_strings/CheckPermutation.java:32 | on characters up to 127, the boxes of s use only shared objects, and the shared object of c occurs as often as c does |
| CheckPermutation.CachedBoxes | src/c01_arrays_strings/CheckPermutation.java:32-41 | on characters up to 127, the boxes of two strings are a permutation exactly when the strings are |
| CheckPermutation.BoxedPermutation | src/c01_arrays_strings/CheckPermutation.java:32-41 | for any strings, boxes that are a permutation of each other come from strings that are |
| CheckPermutation.CheckPermutationAsWritten | src/c01_arrays_strings/CheckPermutation.java:26-48 | as written, with keys compared by reference. The keys are the objects the loops box (`CheckPermutation.Boxes`): one shared object per character up to 127, and a new object, numbered by its position, for every other boxing. The method returns true exactly when the lengths agree and the box objects of s1 and s2 are a permutation of each other. So a true answer always means a permutation, and on characters up to 127 the answer is exactly the permutation test |
| CheckPermutation.WideBoxesDiffer | src/collections/HashTable.java:57 | "é" is a permutation of itself, but its two boxings are different objects |
| CheckPermutation.WideCharMissed | src/collections/HashTable.java:57 | for ("é", "é") the code as written answers false, while comparing keys by value answers true |
| CheckPermutation.CachedCases | src/c01_arrays_strings/CheckPermutation.java:79-84 | the test strings have characters up to 127 only |
| CheckPermutation.AsWrittenScenario | src/c01_arrays_strings/CheckPermutation.java:77-85 | the code as written answers false for ("carmina", "buranas") and true for ("moana", "manao") |
| CheckPermutation.SortsEqual | src/c01_arrays_strings/CheckPermutation.java:65-71 | two strings sort to the same string exactly when they have the same multiset of characters |
| CheckPermutation.CheckPermutationWithSort | src/c01_arrays_strings/CheckPermutation.java:60-72 | true exactly when the two strings have the same multiset of characters, so it agrees with the counter version on every input |
| CheckPermutation.NotPermutation | src/c01_arrays_strings/CheckPermutation.java:79-80 | "carmina" and "buranas" are not permutations of each other |
| CheckPermutation.Permutation | src/c01_arrays_strings/CheckPermutation.java:83-84 | "moana" and "manao" are permutations of each other |
| CheckPermutation.Scenario | src/c01_arrays_strings/CheckPermutation.java:77-85 | both methods answer false for ("carmina", "buranas") and true for ("moana", "manao") |
| IsUnique.DistinctSnoc | src/c01_arrays_strings/IsUnique.java:44-48 | a string with one more character has no repeat exactly when the rest has none and lacks the new character |
| IsUnique.CharsCount | src/c01_arrays_strings/IsUnique.java:25-27 | the set built holds exactly the string's characters; its size is at most the length, and equal to it exactly when no character repeats |
| IsUnique.IsUniqueWithSet | src/c01_arrays_strings/IsUnique.java:24-28 | true exactly when no character repeats |
| IsUnique.MarkStep | src/c01_arrays_strings/IsUnique.java:47 | marking a character keeps "the bitmap marks exactly the characters read so far" |
| IsUnique.IsUniqueWithBitmap | src/c01_arrays_strings/IsUnique.java:42-50 | for characters below 256: true exactly when no character repeats |
| IsUnique.RepeatIsFinal | src/c01_arrays_strings/IsUnique.java:46 | a repeat in a prefix is a repeat in the whole string, so returning false early is right |
| IsUnique.DistinctCounts | src/c01_arrays_strings/IsUnique.java:64-67 | no character repeats exactly when every character occurs at most once in the multiset |
| IsUnique.DistinctPermutation | src/c01_arrays_strings/IsUnique.java:64-65 | sorting neither makes nor removes a repeat |
| IsUnique.SortedNeighbours | src/c01_arrays_strings/IsUnique.java:66-69 | a sorted string repeats a character exactly when two neighbours are equal |
| IsUnique.IsUniqueWithSort | src/c01_arrays_strings/IsUnique.java:63-70 | true exactly when no character repeats, including for empty and one-character strings |
| IsUnique.Agree | src/c01_arrays_strings/IsUnique.java:24-70 | on strings whose characters are below 256, the three methods give the same answer |
| IsUnique.Repeats | src/c01_arrays_strings/IsUnique.java:77-79 | "javadoc" repeats a character |
| IsUnique.NoRepeats | src/c01_arrays_strings/IsUnique.java:82-84 | "python" repeats none |
| IsUnique.Scenario | src/c01_arrays_strings/IsUnique.java:75-85 | all three methods answer false for "javadoc" and true for "python" |

## Left out

- Printing: the `main` methods' `System.out` calls are not modelled. The scenario methods return what they print: `ArrayListScenario` returns the two looked-up values and the list's `toString` text, `HashTableScenario` the three looked-up values and the keys and values in the order the loop prints them, and `StringBuilderScenario` the built string.
- Collections.ArrayListScenario: the element rendering is a parameter standing for `Integer.toString`, whose decimal text is not modelled.
- Collections.HashTableScenario: the order of the printed keys depends on `String.hashCode`, which is a parameter (see below), so the contract says only that each key comes out once with its value. The "k -> v" line text is not modelled.
- Collections.HashTable.constructor: `hashCode()` is the function parameter `hash`, fixed at construction. For `Character` it is the character's code (`CheckPermutation.CharHash`).
- Collections.ArrayList.constructor: requires a positive capacity. In the source a negative capacity throws, and a zero capacity never grows because 0 doubled is 0, so the first `add` throws.
- Collections.HashTable.constructor: requires a positive bucket count. In the source a zero or negative count throws on construction or on `add`.
- `int` overflow of `size`, `length`, the counters and the string length in `StringBuilder.toString` is not modelled: integers are unbounded.
- Null items in an `ArrayList` (rendered as "" by `toString`) are not modelled. The `toString` of an item is the parameter `show`.
- Changing a list or table while an iterator walks it is not modelled. `HashTableIterator` walks the bucket array and the `size` it was given.
- Collections.HashTableIterator.Next: requires a key to remain. Past the end, the source's loop runs off the bucket array and throws after moving its cursors; that is not modelled.
- Chains of a bucket are `java.util.LinkedList`s. They are modelled as sequences, and `setValue` as replacing the entry in the sequence: no entry object is shared outside the table.
- `Arrays.sort` is modelled as `Sorting.Sort`, the unique sorted permutation (insertion sort). `Arrays.equals` is sequence equality, and `toCharArray` copies are the strings themselves. `java.util.HashSet` is a Dafny `set`.
- URLify.Urlify: `l` is a natural number, and the caller must give `l <= s.length` and room for the rewrite, which the source's comment demands (src/c01_arrays_strings/URLify.java:12-13). `URLify.UrlifyFixed` has the same precondition. Outside it the source behaves as follows:
  - For `l > s.length` it throws `ArrayIndexOutOfBoundsException` in the counting loop (line 24).
  - With too little room and `l >= 2`, it throws at the loop's first write (line 30 or 35).
  - For `l <= 1`, including a negative `l`, the loop never runs and the array comes back unchanged, e.g. `urlify([' '], 1)` returns " ". These inputs are not modelled.
- IsUnique.IsUniqueWithBitmap: requires every character to be below 256, the size of the bitmap (line 43). This is wider than the source's stated assumption of ASCII text (src/c01_arrays_strings/IsUnique.java:34-35), because every character below 256 indexes the bitmap safely. On other strings the source does one of two things, and this is not modelled:
  - It throws `ArrayIndexOutOfBoundsException` at line 46 when the scan reaches a character of 256 or more.
  - It returns false when a repeat comes first: for "aa\u0100" it returns false at the second 'a'.
- IsUnique.IsUniqueWithSet, IsUnique.IsUniqueWithBitmap, IsUnique.IsUniqueWithSort, CheckPermutation.CheckPermutationWithCounter, CheckPermutation.CheckPermutationWithSort, URLify.Urlify and URLify.UrlifyFixed differ from the source on text above U+FFFF. The model reads a string as a sequence of Dafny `char`s, which are whole Unicode characters. A Java `String` or `char[]` is a sequence of UTF-16 code units, and Java stores a character above U+FFFF as two of them, a surrogate pair. The two readings agree on text inside the Basic Multilingual Plane (every character up to U+FFFF). Outside it, method by method:
  - IsUnique.IsUniqueWithSet and IsUnique.IsUniqueWithSort: on "\U{1F600}\U{1F601}" both pairs start with the code unit 0xD83D, so the source answers false; the model answers true.
  - IsUnique.IsUniqueWithBitmap: on that string the source throws at line 46, because 0xD83D is 256 or more. The model never sees it, since its precondition requires every character to be below 256 (see above).
  - CheckPermutation.CheckPermutationWithSort: "\U{10000}\U{10401}" and "\U{10001}\U{10400}" have the same code units, so the source answers true; the model answers false.
  - CheckPermutation.CheckPermutationWithCounter, the counting version as intended: counting code units, it answers true on that pair; the model answers false.
  - CheckPermutation.CheckPermutationAsWritten is not affected: every code unit of the pair is above 127 and gets a fresh box in the source, so the source answers false, and so does the model.
  - URLify.Urlify and URLify.UrlifyFixed: the source's length `l` and its array indices count code units, while the model counts characters. Surrogate code units are not modelled.
  - The code-unit order that `Arrays.sort` uses is not modelled either.

## Findings

| source | as written | input that shows it | evidently intended | confidence | as-written member | corrected member |
|---|---|---|---|---|---|---|
| src/collections/HashTable.java:46 | `key.hashCode() % this.buckets` (also at line 77 in `get`) uses Java's truncating remainder | a key whose `hashCode()` is -1 gives bucket -1, and `arr[-1]` throws | a bucket in [0, buckets) for every hash code, as with `Math.floorMod` | high; not executed | Chains.JavaBucketCanBeNegative | Chains.BucketOf |
| src/c01_arrays_strings/URLify.java:28 | `while (ps > 0)` never processes s[0] | s = " a\0\0", l = 2 gives " a\0a" | "%20a": the loop should run while `ps >= 0` | high; not executed | URLify.LeadingSpaceNotExpanded | URLify.UrlifyFixed |
| src/collections/HashTable.java:57 | `list.get(i).getKey() == key` (and `e.getKey() == key` at line 85) compares keys by reference | checkPermutationWithCounter("é", "é"). `Character.valueOf` does not cache 'é', which is above 127, so each boxing is a new key; the counters end at +1 and -1, and the method returns false | keys compared with `equals`, so the answer is true | high; not executed | CheckPermutation.WideCharMissed | CheckPermutation.CheckPermutationWithCounter |
