# Collections, modelled in Dafny

This project models the core of the `rmk-dev/collections` PHP library: an
insertion-ordered key/value container (`Collection`, an `ArrayObject` with
helper operations) and its type-gated variants (`ClassCollection`,
`AbstractClassCollection`, `BaseClassCollection`). The model proves what each
operation does to the ordered store.

- **The store.** The backing PHP array is a sequence of `Entry(key, value)`
  in iteration order, where a key is `IntKey(int)` or `StrKey(string)`. Its
  invariant is `KeysDistinct`: no key occurs twice. Module `Store` holds the
  array primitives the library is written with:
  - lookup (`Find`);
  - insert or overwrite (`Put`): an existing key keeps its position, a new key goes to the end;
  - removal (`Unset`);
  - the sequential put of an iterated source (`PutAll`);
  - the key an append uses (`NextIndex`);
  - strict `in_array` (`ContainsValue`).
- **The derived collections.** Module `Transforms` holds the array functions
  behind them: `array_filter` with `ARRAY_FILTER_USE_BOTH` (`Filter`),
  single-array `array_map` (`MapValues`), `array_unique` (`Uniques`) and
  `array_slice` without `preserve_keys` (`Slice`, which re-indexes the
  integer keys from 0 through `Renumber`). It also holds the rewrite that
  `apply()` leaves behind (`ApplyEach`).
- **The exceptions.** Module `Errors` holds `UndefinedCollectionKeyException`
  and `InvalidValueTypeException` as values of `Error`, with their messages.
  An operation that can throw returns a `Result` or an `Outcome`.
- **`Collection`.** Module `Collections` has a class with one field,
  `entries`. Point queries (`Has`, `Get`, `Contains`, `IsEmpty`,
  `JsonSerialize`) are functions that read it. `Map`, `Filter`, `Uniques`
  and `Slice` build a fresh collection and leave the receiver alone. `Set`,
  `Add`, `AddAll`, `Apply`, `GetOrCreate`, `Remove`, `RemoveAll`, `RemoveIf`
  and `Clear` rewrite `entries`. Each of these is proved against the
  function from `Store` or `Transforms` that specifies it. `AddAll`, `Apply`
  and `RemoveIf` keep the source's loops, and `Apply` and `RemoveIf`
  iterate over a snapshot of the store, as the source does.
- **Typed variants.** PHP's `$value instanceof $className` is a relation
  `instanceOf: (V, string) -> bool` that the constructor receives together
  with the class name. The class check runs before the store is touched. A
  refused value therefore leaves the store unchanged. Every successful
  insert preserves "every stored value is an instance".

## Model

| member | source | states |
|---|---|---|
| `Store.Find` | src/Collection.php:15-31 | the lookup behind `get`/`has`: absent exactly when no entry has the key; when present, some entry carries the key with the value found |
| `Store.FindIndex` | src/Collection.php:15-31 | with distinct keys, looking up the key at any position yields that entry's value |
| `Store.Put` | src/Collection.php:37-40 | `offsetSet` as `set` uses it: a new key is appended at the end; the size grows by one exactly when the key was absent |
| `Store.PutFind` | src/Collection.php:37-40 | after a set, the key holds the new value and every other key keeps its value |
| `Store.PutExisting` | src/Collection.php:37-40 | overwriting a present key rewrites that entry in place, leaving all others where they were |
| `Store.PutKeys` | src/Collection.php:37-40 | overwriting a present key keeps the key order |
| `Store.PutDistinct` | src/Collection.php:37-40 | a set keeps the keys distinct |
| `Store.PutMembers` | src/Collection.php:37-40 | a set adds no entry other than the new pair |
| `Store.Unset` | src/Collection.php:188 | `offsetUnset`: an absent key changes nothing; a present key shrinks the store by one; no entry is added |
| `Store.UnsetExisting` | src/Collection.php:188 | unsetting the key at position i drops exactly that entry and keeps the order of the rest |
| `Store.UnsetFind` | src/Collection.php:188 | after an unset the key is absent and every other key keeps its value |
| `Store.UnsetDistinct` | src/Collection.php:188 | an unset keeps the keys distinct |
| `Store.PutAll` | src/Collection.php:62-67 | the sequential put of every pair of the source, in its order: the store never shrinks and grows by at most the source's size |
| `Store.PutAllFind` | src/Collection.php:62-67 | after `addAll`, a key of the source holds the value of its last occurrence in the source, and every other key is as before |
| `Store.PutAllKeys` | src/Collection.php:62-67 | `addAll` keeps the keys distinct, leaves the keys already present in their positions and appends the new ones after them |
| `Store.NextIndex` | src/ClassCollection.php:41-45 | the key an append (`offsetSet(null, $v)`) uses is an integer key not yet in the store |
| `Store.ContainsValue` | src/Collection.php:75-78 | strict `in_array`: true exactly when some entry's value equals the value |
| `Errors.NatToStringRoundTrip` | src/Collection.php:21 | the decimal text that `sprintf('%s', $key)` gives an integer key reads back as that integer |
| `Errors.MissingKeyMessageNamesKey` | src/Collection.php:21 | the `UndefinedCollectionKeyException` message determines the printed key |
| `Errors.InvalidTypeMessageNamesClass` | src/ClassCollection.php:57 | the `InvalidValueTypeException` message determines the class name |
| `Transforms.Filter` | src/Collection.php:93-96 | `array_filter` with `ARRAY_FILTER_USE_BOTH`: the result is never larger than the input |
| `Transforms.FilterMembers` | src/Collection.php:93-96 | `filter` keeps exactly the entries whose (value, key) pass, with their keys, in their original relative order |
| `Transforms.FilterFind` | src/Collection.php:93-96 | after `filter`, a key is present exactly when it was present and its entry passes, with its old value; keys stay distinct |
| `Transforms.FilterSizes` | src/Collection.php:182-193 | the parts filtered by a predicate and by its negation have sizes adding up to the whole |
| `Transforms.FilterPartition` | src/Collection.php:182-193 | filtering by a predicate and by its negation puts every entry in exactly one of the two parts |
| `Transforms.MapValues` | src/Collection.php:84-87 | single-array `array_map`: one entry out per entry in |
| `Transforms.MapValuesFind` | src/Collection.php:84-87 | `map` keeps the keys, their order and the count, and the value under each key becomes fn of the old value |
| `Transforms.ApplyEach` | src/Collection.php:120-125 | the store `apply` leaves: one entry per entry of the snapshot |
| `Transforms.ApplyEachFind` | src/Collection.php:120-125 | after `apply`, the keys and their order are unchanged and the value under each key is fn(old value, key) |
| `Transforms.Uniques` | src/Collection.php:101-104 | `array_unique`: the result is never larger than the input |
| `Transforms.UniquesFromMembers` | src/Collection.php:101-104 | `uniques` keeps only entries of the original, in their order, and none whose value was already seen |
| `Transforms.UniquesValues` | src/Collection.php:101-104 | the result of `uniques` holds no value twice and still holds every value of the original |
| `Transforms.UniquesKeepsFirst` | src/Collection.php:101-104 | `uniques` keeps an entry exactly when no earlier entry has the same value |
| `Transforms.UniquesCount` | src/Collection.php:101-104 | `uniques` never grows the count, and keeps it exactly when no value repeats |
| `Transforms.Renumber` | src/Collection.php:112-115 | re-indexing keeps values and string keys; the integer keys become 0, 1, 2, ... in iteration order |
| `Transforms.RenumberDistinct` | src/Collection.php:112-115 | re-indexing keeps distinct keys distinct: two integer keys get different numbers |
| `Transforms.Slice` | src/Collection.php:112-115 | `array_slice` without `preserve_keys`: never larger than the input, nor than the length when one is given |
| `Transforms.SliceEntries` | src/Collection.php:112-115 | `slice(o, len)` holds the entries at positions o to o+len (to the end when len is null), in order, with their values and string keys |
| `Transforms.SliceDistinct` | src/Collection.php:112-115 | the sliced, re-indexed collection has distinct keys |
| `Transforms.UniquesDropsDuplicated` | tests/CollectionTest.php:49-54 | after `add('duplicated', 2)`, `uniques()` keeps the four entries `one` to `four` and drops `duplicated` |
| `Transforms.SliceFromTwo` | tests/CollectionTest.php:66-72 | `slice(2)` of the doubled store `{one: 2, two: 4, three: 6, four: 8, duplicated: 4}` is `{three: 6, four: 8, duplicated: 4}` |
| `Collections.RemoveIfPartition` | src/Collection.php:182-193 | `removeIf` partitions the store: the removed part holds exactly the entries whose value passes, the kept part exactly the others, and the sizes add up |
| `Collections.Collection.constructor` | src/Collection.php:184 | `new Collection($data)`: the store starts as the given array |
| `Collections.Collection.Count` | src/Collection.php:147 | `count()`: the number of keys present (the size of the key set, equal to the number of entries since keys are distinct) |
| `Collections.Collection.OffsetSet` | src/Collection.php:39 | ArrayObject's `offsetSet($key, $value)` as `set` and `apply` call it: the store becomes `Put(old, k, v)` and keeps distinct keys |
| `Collections.Collection.OffsetUnset` | src/Collection.php:188 | ArrayObject's `offsetUnset($key)` as `removeIf` calls it: the store becomes `Unset(old, k)` and keeps distinct keys |
| `Collections.Collection.ExchangeArray` | src/Collection.php:158 | ArrayObject's `exchangeArray($array)` as `remove`, `removeAll` and `clear` call it: the store becomes the given array |
| `Collections.Collection.Has` | src/Collection.php:28-31 | true exactly when some entry has the key |
| `Collections.Collection.Get` | src/Collection.php:15-22 | the stored value when the key is present; otherwise `UndefinedCollectionKeyException` with message `No <key> key in the collection` |
| `Collections.Collection.Set` | src/Collection.php:37-40 | the store becomes `Put(old, k, v)`; afterwards `has(k)` and `get(k) == v`; every other key's `get` is unchanged; the count grows by one only if k was absent |
| `Collections.Collection.Add` | src/Collection.php:50-53 | alias of `set`: the same new store |
| `Collections.Collection.AddAll` | src/Collection.php:62-67 | the loop puts the source's pairs in order: the store becomes `PutAll(old, src)` |
| `Collections.Collection.Contains` | src/Collection.php:75-78 | true exactly when some stored value equals the argument |
| `Collections.Collection.Map` | src/Collection.php:84-87 | returns a new collection whose store is `MapValues(entries, fn)`; the receiver is unchanged |
| `Collections.Collection.Filter` | src/Collection.php:93-96 | returns a new collection whose store is `Filter(entries, fn)`; the receiver is unchanged |
| `Collections.Collection.Uniques` | src/Collection.php:101-104 | returns a new collection whose store is `Uniques(entries)`, no larger than the receiver; the receiver is unchanged |
| `Collections.Collection.Slice` | src/Collection.php:112-115 | returns a new collection whose store is `Slice(entries, o, len)`; the receiver is unchanged |
| `Collections.Collection.Apply` | src/Collection.php:120-125 | the loop over a snapshot leaves the store equal to `ApplyEach(old, fn)` |
| `Collections.Collection.GetOrCreate` | src/Collection.php:133-140 | a present key: the store is unchanged and the stored value is returned; an absent key: the default is appended under it and returned |
| `Collections.Collection.IsEmpty` | src/Collection.php:145-148 | true exactly when no key is present |
| `Collections.Collection.Remove` | src/Collection.php:155-159 | the store becomes the entries whose value is not the argument, under their keys and in order; afterwards `contains` of the argument is false |
| `Collections.Collection.RemoveAll` | src/Collection.php:166-170 | the store becomes the entries whose value the other collection (as it was) does not contain; no surviving value is contained in it |
| `Collections.Collection.RemoveIf` | src/Collection.php:182-193 | the loop moves the passing entries into a fresh collection under their keys: the returned store is the passing part, the receiver keeps the rest, and the counts add up |
| `Collections.Collection.MoveIfHolds` | src/Collection.php:186-189 | one iteration of `removeIf`'s loop: the i-th snapshot pair moves to the removed collection exactly when its value passes, and both stores advance to the filtered prefix of length i + 1 |
| `Collections.Collection.Clear` | src/Collection.php:200-203 | the store becomes empty and `isEmpty()` holds |
| `Collections.Collection.JsonSerialize` | src/Collection.php:208-211 | the serialised pairs have distinct keys, come in the collection's key order, and give every key the value the collection gives it |
| `Collections.GetOrCreateTwice` | tests/CollectionTest.php:22-23 | a second `getOrCreate` with the same key returns the first call's value and changes nothing |
| `Collections.RemoveOne` | tests/CollectionTest.php:92-98 | `Collection([1, 2, 3, 2, 1])` after `remove(1)` has three entries and does not contain 1 |
| `Collections.GetUnknown` | tests/CollectionTest.php:27-29 | `get('unknown')` of an absent key fails with message `No unknown key in the collection` |
| `ClassCollections.ClassCollection.constructor` | src/ClassCollection.php:21-29 | stores the class name (a `const`, never reassigned) and hands the data to the store unchecked |
| `ClassCollections.ClassCollection.EnsureValidValue` | src/ClassCollection.php:54-59 | passes exactly for instances of the class; otherwise `InvalidValueTypeException('Value must be instance of ' . className)` |
| `ClassCollections.ClassCollection.OffsetSet` | src/ClassCollection.php:41-45 | the check runs first: an instance is stored exactly as the parent's `offsetSet` stores it, a non-instance fails and leaves the store unchanged, and "every value is an instance" is preserved |
| `ClassCollections.ClassCollection.Append` | src/ClassCollection.php:41-45 | an append goes through the same gate and, when it passes, adds the value at the end under a fresh integer key |
| `AbstractClassCollections.EnsureValidValue` | src/AbstractClassCollection.php:36-42 | checks the value against the class that `getClassName()` returns, and names that class in the exception message |
| `AbstractClassCollections.OffsetSet` | src/AbstractClassCollection.php:23-27 | succeeds exactly for instances, and then yields the parent's insert; otherwise yields the gate's exception and no new store |
| `AbstractClassCollections.OffsetSetPreserves` | src/AbstractClassCollection.php:23-27 | a successful insert keeps the keys distinct and every stored value an instance of the class |
| `BaseClassCollections.BaseClassCollection.constructor` | src/BaseClassCollection.php:23-31 | `getClassName()` afterwards returns the class name given to the constructor; the data goes to the store unchecked |
| `BaseClassCollections.BaseClassCollection.GetClassName` | src/BaseClassCollection.php:36-39 | `getClassName()` returns the class name fixed at construction |
| `BaseClassCollections.BaseClassCollection.OffsetSet` | src/AbstractClassCollection.php:23-27 | the inherited gate on `getClassName()`: an instance is stored as the parent stores it, a non-instance fails and leaves the store unchanged, and "every value is an instance" is preserved |
| `BaseClassCollections.BaseClassCollection.Append` | src/AbstractClassCollection.php:23-27 | an append passes the same gate and, when accepted, adds the value at the end under a fresh integer key; "every value is an instance" is preserved |
| `BaseClassCollections.AppendInstances` | tests/ClassCollectionTest.php:14-21 | three `stdClass` instances appended give count 3; a non-instance then fails with `Value must be instance of stdClass` and the count stays 3 |

## Left out

- Numeric-string keys are not coerced to integer keys. That coercion is PHP's array engine, not this library.
- `Store.NextIndex`: the key an append uses is one more than the largest integer key present, or 0. `ArrayObject`'s own counter also remembers deleted keys; that is not modelled.
- `Collections.Collection.Slice`: offset and length are non-negative. The "from the end" meaning of negative values belongs to `array_slice`.
- `Collections.Collection.Contains`: only the default strict mode (`$strict = true`) is modelled. Loose comparison is left out.
- `Collections.Collection.Uniques`: values are compared with equality on the value type. `array_unique` compares their string casts.
- Callables are pure functions. `apply()` also passes the collection itself (`$this`) to the callback; the model drops that argument. It would let the callback change the collection during the loop.
- `jsonSerialize()` is modelled as returning the ordered pairs. `json_encode` itself is external and is not part of this model.
- The constructors' `flags` and `iteratorClass` parameters are left out.
- `getOrCreate()`'s default `null` is left out. The caller always passes the default, because the value type has no `null`.
- The typed classes carry their own copy of the store instead of inheriting `Collection`; there is no class inheritance here.
  - Only their insertion path is modelled: `offsetSet` and append.
  - `set`, `add`, `addAll`, `apply` and `getOrCreate` reach the same gate through `offsetSet`. They are not repeated on the typed classes.
- `AbstractClassCollection` is abstract. Its members are therefore functions over a store and the name `getClassName()` returns, and `BaseClassCollection` runs them.
- `map`, `filter`, `uniques`, `slice`, `remove` and `removeAll` on the typed classes are not modelled. They build their result with `new static($array)`, but the typed constructors take the class name as their first argument.
- The exception classes (`src/Exception/*.php`) are not part of this model. Only their messages are.
- The typed constructors store their initial data without checking it (src/ClassCollection.php:27, src/BaseClassCollection.php:30). Only later insertions pass the class gate.
- `remove` compares strictly, with `!==` (src/Collection.php:157).
