# dida-config in Dafny

A model of `Dida\Config`, the configuration store of the Dida framework.
The store holds an insertion-ordered PHP array from string keys to values.
It offers these operations:

- reading and writing key by key: `has`, `get`, `set`, `remove`, `keys`, `clear`;
- dotted groups, where group `g` is the keys of the form `g.k`: `getGroupItems`, `groupUnpack`, `groupPack`, `groupClear`;
- bulk updates from other arrays: `batchSet`, `merge`;
- loading the array a configuration file returns: `load`;
- putting the keys in order: `sortKeys`.

The project has six modules:

- `PhpStrings` (`php_strings.dfy`) holds PHP's binary string comparison and `strncmp`.
- `PhpArrays` (`php_arrays.dfy`) holds PHP arrays with string keys. An array is a list of distinct keys in order plus a map over those keys. The module gives element assignment, `unset`, the value search of `array_keys`, the prefix filter, `array_merge`, and one fold, `PutAll`, for every `foreach ($src as $k => $v) $dst[f($k)] = $v` loop in the class.
- `PhpSort` (`php_sort.dfy`) holds `ksort`.
- `ConfigGroups` (`config_groups.dfy`) holds the group operations as functions on arrays, with their properties and the round trip of unpacking and packing.
- `DidaConfig` (`config.dfy`) holds the class `Config`. Its field `items` is updated in place by methods, with a loop wherever the source has a `foreach`, and each method is proved equal to the function of the array that specifies it.
- `Wrappers` (`wrappers.dfy`) holds `Option`.

The group selection follows the code as written. `getGroupItems` calls `array_keys` in its search form, so an entry is selected only when its key starts with `g.` **and** its value is the string `g.`. The documented behaviour is selection by key prefix alone, with groupPack undoing groupUnpack; where the two disagree, this model follows the code. Setting `db.host`, `db.port` and `other` and then asking for group `db` gives the empty array under the code as written, as `ConfigGroups.GroupItemsIgnoresOrdinaryValues` proves. The prefix-only selection is modelled beside it as `ConfigGroups.IntendedGroupItems`, and its round trip is proved (see Findings).

## Model

| member | source | states |
|---|---|---|
| PhpStrings.Strcmp | src/Dida/Config.php:150 | the key comparison `ksort` uses gives -1, 0 or 1, and 0 exactly when the strings are equal |
| PhpStrings.Strncmp | src/Dida/Config.php:100 | `strncmp(a, b, n)` gives -1, 0 or 1, and 0 exactly when the strings are equal or both have at least n characters and agree on the first n |
| PhpStrings.StrcmpAntisymmetric | src/Dida/Config.php:150 | swapping the two keys negates the comparison |
| PhpStrings.StrcmpTransitive | src/Dida/Config.php:150 | "sorts before" is transitive |
| PhpStrings.StrcmpTotal | src/Dida/Config.php:150 | of two different keys, one sorts before the other |
| PhpStrings.StrncmpPrefixTest | src/Dida/Config.php:94-100 | comparing the first `strlen(find)` characters gives 0 exactly when the key starts with `find` |
| PhpArrays.Empty | src/Dida/Config.php:87 | the empty array is well formed, with no keys and no entries |
| PhpArrays.NoValuesIsEmpty | src/Dida/Config.php:87 | a well-formed array with no entries is the empty array |
| PhpArrays.Put | src/Dida/Config.php:61 | after `$a[$k] = $v` the array is well formed and k holds v |
| PhpArrays.PutSpec | src/Dida/Config.php:61 | every other key is present exactly when it was before and keeps its value; an existing key keeps its position and a new key goes last |
| PhpArrays.PutSameValue | src/Dida/Config.php:186 | writing back the stored value changes nothing |
| PhpArrays.Without | src/Dida/Config.php:75 | the keys left after removing a set are exactly the others, still without repeats |
| PhpArrays.WithoutAppend | src/Dida/Config.php:75 | removing keys from a concatenation removes them from each part |
| PhpArrays.WithoutNothing | src/Dida/Config.php:75 | removing keys that are not there leaves the list unchanged |
| PhpArrays.WithoutWithout | src/Dida/Config.php:135-137 | removing two sets one after the other is removing their union |
| PhpArrays.WithoutAt | src/Dida/Config.php:75 | removing the i-th key of a list without repeats cuts out exactly position i |
| PhpArrays.RemoveKeys | src/Dida/Config.php:136 | after unsetting a set of keys exactly the other entries remain, with their values |
| PhpArrays.Unset | src/Dida/Config.php:75 | `unset($a[$k])` (here and in groupClear's loop) removes k and only k: every other key stays present or absent with its value, and the remaining keys keep their order |
| PhpArrays.UnsetAbsent | src/Dida/Config.php:75 | unsetting an absent key changes nothing |
| PhpArrays.UnsetAt | src/Dida/Config.php:75 | unsetting the i-th key removes it, leaves the order of the rest, and keeps the others' values |
| PhpArrays.RemoveKeysTwice | src/Dida/Config.php:135-137 | unsetting two sets in turn equals unsetting their union |
| PhpArrays.RemoveNothing | src/Dida/Config.php:133-137 | unsetting no key changes nothing |
| PhpArrays.UnsetStep | src/Dida/Config.php:135-137 | one more `unset` in the loop extends the set of removed keys by that key |
| PhpArrays.SearchKeys | src/Dida/Config.php:96 | the search form of `array_keys` returns exactly the keys whose value is identical to the needle, without repeats |
| PhpArrays.SearchKeysSnoc | src/Dida/Config.php:96 | the search, one key further, adds that key exactly when its value matches |
| PhpArrays.SearchKeysAppend | src/Dida/Config.php:96 | searching a concatenation searches each part |
| PhpArrays.KeysWithPrefix | src/Dida/Config.php:99-103 | the keys kept by the prefix test are exactly those starting with the prefix, without repeats |
| PhpArrays.KeysWithPrefixSnoc | src/Dida/Config.php:99-103 | the prefix test, one key further, keeps that key exactly when it has the prefix |
| PhpArrays.KeysWithPrefixAppend | src/Dida/Config.php:99-103 | filtering a concatenation filters each part |
| PhpArrays.KeysWithPrefixAll | src/Dida/Config.php:99-103 | a list whose keys all have the prefix passes whole |
| PhpArrays.KeysWithPrefixNone | src/Dida/Config.php:99-103 | a list with no key having the prefix passes nothing |
| PhpArrays.Rekey | src/Dida/Config.php:111-123 | a prefixed key is as long as the prefix and the key together; a key with its first n characters cut off is n shorter, or empty when the key is shorter than n; the load loop uses the same prefixed rewrite |
| PhpArrays.RekeySpec | src/Dida/Config.php:111-123 | a prefixed key starts with the prefix and continues with the key; a cut key is what follows the key's first n characters, and empty when there are fewer |
| PhpArrays.PutAll | src/Dida/Config.php:110-112 | a copying `foreach` loop leaves a well-formed array |
| PhpArrays.PutAllStep | src/Dida/Config.php:110-112 | one more iteration of a copying loop is one more element assignment |
| PhpArrays.PutAllSnoc | src/Dida/Config.php:99-103 | copying one more source key is one more element assignment |
| PhpArrays.PutAllDomain | src/Dida/Config.php:110-112 | the copy holds the old keys and the rewritten keys, and nothing else |
| PhpArrays.PutAllKeepsOthers | src/Dida/Config.php:110-112 | an old entry that no rewritten key hits keeps its value |
| PhpArrays.PutAllValues | src/Dida/Config.php:110-112 | under an injective key rewrite each rewritten key holds the value of its source key |
| PhpArrays.PutAllValueAt | src/Dida/Config.php:110-112 | the same for one source position |
| PhpArrays.PutAllKeepsOrder | src/Dida/Config.php:110-112 | the old keys keep their positions at the front |
| PhpArrays.PutAllSpec | src/Dida/Config.php:110-112 | the four properties above together |
| PhpArrays.PutAllFresh | src/Dida/Config.php:110-112 | when all rewritten keys are new, they are appended in source order |
| PhpArrays.PutAllExisting | src/Dida/Config.php:185-187 | when all rewritten keys are already present, no key moves |
| PhpArrays.PrependInjective | src/Dida/Config.php:111 | putting a fixed prefix before keys never merges two keys |
| PhpArrays.PrependImage | src/Dida/Config.php:111 | a prefixed copy writes x exactly when x is the prefix followed by a source key |
| PhpArrays.DropFirstInjective | src/Dida/Config.php:123 | cutting off a shared prefix never merges two keys |
| PhpArrays.DropFirstImage | src/Dida/Config.php:123 | on keys sharing prefix p, cutting off p yields k exactly when p + k was a source key |
| PhpArrays.DropAfterPrepend | src/Dida/Config.php:111-123 | cutting off a prefix undoes putting it in front, key by key and in order |
| PhpArrays.PrependEmptyImage | src/Dida/Config.php:176 | an empty prefix leaves keys as they are |
| PhpArrays.ArrayMerge | src/Dida/Config.php:143-144 | `array_merge` of two string-keyed arrays is well formed |
| PhpArrays.PutAllAppendsNew | src/Dida/Config.php:176 | copying entries under their own keys keeps the array's keys in place and appends the copied keys it lacked, in the source's order |
| PhpArrays.AppendsNewStep | src/Dida/Config.php:176 | one more copied entry appends its key exactly when it is neither an original key nor one copied before |
| PhpArrays.ArrayMergeSpec | src/Dida/Config.php:143-144 | the keys are the union, the second array's values win, the first's other entries stay, the first's keys keep their positions at the front, and the second's new keys follow in the second's order |
| PhpArrays.ArrayMergeSelf | src/Dida/Config.php:182-188 | merging an array into itself changes nothing |
| PhpSort.Insert | src/Dida/Config.php:150 | inserting a key adds exactly that key to the multiset of keys |
| PhpSort.KeySort | src/Dida/Config.php:150 | sorting keeps the multiset of keys |
| PhpSort.InsertAscending | src/Dida/Config.php:150 | inserting a new key into a strictly ascending list keeps it strictly ascending |
| PhpSort.KeySortAscending | src/Dida/Config.php:150 | sorting keys without repeats yields them strictly ascending |
| PhpSort.KSort | src/Dida/Config.php:150 | `ksort` keeps every entry and its value, and puts the same keys in strictly ascending order |
| ConfigGroups.GroupPrefix | src/Dida/Config.php:93 | `g.` is g followed by one dot |
| ConfigGroups.Collect | src/Dida/Config.php:98-103 | collecting stored keys into a fresh array gives a well-formed array |
| ConfigGroups.CollectSpec | src/Dida/Config.php:98-103 | collecting distinct keys gives exactly those keys, in order, with their stored values |
| ConfigGroups.CollectAll | src/Dida/Config.php:98-103 | collecting all keys rebuilds the array |
| ConfigGroups.CollectPrefixedStep | src/Dida/Config.php:99-103 | one iteration of getGroupItems' loop adds the candidate exactly when it has the prefix |
| ConfigGroups.GroupKeys | src/Dida/Config.php:96-100 | the selected keys are exactly the stored keys that start with `g.` and whose value is the string `g.`, without repeats |
| ConfigGroups.GroupItems | src/Dida/Config.php:91-105 | the group items form a well-formed array |
| ConfigGroups.GroupItemsSpec | src/Dida/Config.php:91-105 | as written, x is returned exactly when it is stored, starts with `g.`, and its value is the string `g.`; it keeps its stored value |
| ConfigGroups.StripGroup | src/Dida/Config.php:122-125 | cutting `g.` off every item key gives a well-formed array |
| ConfigGroups.StripStep | src/Dida/Config.php:122-125 | one iteration of groupPack's loop stores the item under its cut key (`''` past the end) |
| ConfigGroups.StripGroupSpec | src/Dida/Config.php:122-125 | on items that all start with `g.`, k is a result key exactly when `g.k` is an item; it holds that item's value; the order is the items' order |
| ConfigGroups.StripGroupOrder | src/Dida/Config.php:122-125 | the cut keys come in the items' order |
| ConfigGroups.StripGroupDomain | src/Dida/Config.php:122-125 | k is a result key exactly when `g.k` is an item |
| ConfigGroups.StripGroupValues | src/Dida/Config.php:122-125 | k holds the value of item `g.k` |
| ConfigGroups.StripPrefixed | src/Dida/Config.php:123 | cutting off as many characters as p has from p + k gives k |
| ConfigGroups.GroupPack | src/Dida/Config.php:116-128 | groupPack returns a well-formed array |
| ConfigGroups.GroupPackSpec | src/Dida/Config.php:116-128 | groupPack reports k exactly when `g.k` is a group item, with the stored value of `g.k` |
| ConfigGroups.GroupUnpack | src/Dida/Config.php:108-113 | groupUnpack leaves a well-formed store |
| ConfigGroups.GroupUnpackSpec | src/Dida/Config.php:108-113 | every `g.k` holds m's value for k; the store holds exactly the old keys and the `g.k`; every other entry is unchanged |
| ConfigGroups.UnpackWrites | src/Dida/Config.php:108-113 | every `g.k` holds m's value for k |
| ConfigGroups.GroupClear | src/Dida/Config.php:131-138 | groupClear leaves a well-formed store |
| ConfigGroups.GroupClearSpec | src/Dida/Config.php:131-138 | exactly the reported group items go, the rest keep their values, and getGroupItems then returns the empty array |
| ConfigGroups.UnpackFreshKeys | src/Dida/Config.php:108-113 | into a store with no `g.` key, unpacking appends the `g.k` in m's order |
| ConfigGroups.PrependDistinct | src/Dida/Config.php:111 | prefixing distinct keys keeps them distinct |
| ConfigGroups.PrependAllPrefixed | src/Dida/Config.php:111 | every prefixed key starts with the prefix |
| ConfigGroups.SearchKeysPrefixed | src/Dida/Config.php:96-111 | the value search over unpacked keys is the prefixed value search over m |
| ConfigGroups.PrefixedInStore | src/Dida/Config.php:108-113 | the prefixed copies of m's keys are stored and start with `g.` |
| ConfigGroups.PackOfPrefixedKeys | src/Dida/Config.php:116-128 | packing the prefixed copies of a selection gives back the selection's keys in order |
| ConfigGroups.PackOfPrefixedValues | src/Dida/Config.php:116-128 | and m's values for them |
| ConfigGroups.PackOfPrefixed | src/Dida/Config.php:116-128 | packing the prefixed copies of a selection of m gives exactly that part of m |
| ConfigGroups.SameEntries | src/Dida/Config.php:116-128 | two well-formed arrays with the same keys in order and the same values are equal |
| ConfigGroups.UnpackedSearch | src/Dida/Config.php:96-111 | after unpacking m into a store without `g.` keys, the value search finds the old matches first, then the matches among the new `g.k` keys |
| ConfigGroups.UnpackedSearchPrefixed | src/Dida/Config.php:96-111 | the matches among the new `g.k` keys are the `g.` prefixed matches of m, in m's order |
| ConfigGroups.PrefixSplit | src/Dida/Config.php:100 | the prefix test drops a leading run of keys without the prefix and keeps a following run of keys that all have it |
| ConfigGroups.UnpackedGroupKeys | src/Dida/Config.php:91-113 | as written, after unpacking m into a store without `g.` keys, the selected keys are the `g.k` for the k of m whose value is the string `g.` |
| ConfigGroups.PackAfterUnpack | src/Dida/Config.php:91-128 | as written, groupPack after groupUnpack(g, m) on a store without `g.` keys returns only m's entries whose value is the string `g.`, not m |
| ConfigGroups.IntendedGroupItems | src/Dida/Config.php:91-105 | the prefix-only selection gives a well-formed array |
| ConfigGroups.IntendedGroupItemsSpec | src/Dida/Config.php:91-105 | the prefix-only selection returns exactly the entries whose key starts with `g.`, with their values |
| ConfigGroups.IntendedGroupPack | src/Dida/Config.php:116-128 | packing the prefix-only selection gives a well-formed array |
| ConfigGroups.IntendedPackAfterUnpack | src/Dida/Config.php:108-128 | with the prefix-only selection, packing after unpacking m on a store without `g.` keys returns m exactly, order included |
| ConfigGroups.GroupItemsIgnoresOrdinaryValues | src/Dida/Config.php:96 | for `db.host`, `db.port` and `other` holding ordinary strings, the code as written finds no item in group `db`, while the prefix-only selection finds `db.host` and `db.port` |
| ConfigGroups.ExampleStrings | src/Dida/Config.php:93 | the literal facts that example relies on |
| DidaConfig.Config.constructor | src/Dida/Config.php:19-26 | a store made from an initial array whose keys all pass the key check holds exactly that array |
| DidaConfig.Config.Has | src/Dida/Config.php:53-56 | `has` is true exactly for the stored keys |
| DidaConfig.Config.Get | src/Dida/Config.php:65-68 | `get` gives the stored value of a stored key and the default for any other |
| DidaConfig.GetFallsBack | src/Dida/Config.php:65-68 | a key is absent exactly when `get` returns whatever default it is given |
| DidaConfig.Config.Keys | src/Dida/Config.php:79-82 | `keys` lists each stored key once, and exactly those `has` reports |
| DidaConfig.Config.Set | src/Dida/Config.php:59-62 | after `set`, the key holds the value whatever the default; every other key keeps presence and value; an existing key keeps its position and a new one goes last |
| DidaConfig.Config.Remove | src/Dida/Config.php:71-76 | with the lock not engaged, the key is gone, the other keys keep their relative order and values, and an absent key changes nothing |
| DidaConfig.Config.Clear | src/Dida/Config.php:85-88 | the store is empty afterwards |
| DidaConfig.Config.GetGroupItems | src/Dida/Config.php:91-105 | the loop returns the group items of the unchanged store as written (key prefix `g.` and value the string `g.`), with their stored values |
| DidaConfig.Config.GroupUnpack | src/Dida/Config.php:108-113 | every `g.k` holds m's value for k, and every entry not of that form is unchanged |
| DidaConfig.Config.GroupPack | src/Dida/Config.php:116-128 | the loop returns k exactly when `g.k` is a group item, with the stored value of `g.k` |
| DidaConfig.Config.GroupClear | src/Dida/Config.php:131-138 | exactly the reported group items are removed, the others keep their values, and the group is then empty |
| DidaConfig.Config.BatchSet | src/Dida/Config.php:141-145 | the keys become old ∪ defaults ∪ configs; configs win over defaults, defaults over stored values; the new keys follow the old ones, defaults' first, each in its array's order |
| DidaConfig.BatchSetSpec | src/Dida/Config.php:141-145 | the same on arrays; the stored keys keep their positions at the front, then come the new defaults' keys in their order, then the configs' keys that neither held, in their order |
| DidaConfig.Config.SortKeys | src/Dida/Config.php:148-151 | the keys become strictly ascending and every key keeps its value |
| DidaConfig.Config.Load | src/Dida/Config.php:165-178 | an absent or empty array returns false and changes nothing; otherwise it returns true and acts as groupUnpack for a non-empty string group and as `array_merge` otherwise |
| DidaConfig.Config.Merge | src/Dida/Config.php:182-188 | every key of the source holds the source's value, other keys keep theirs, the key set is the union, the source's new keys follow the old ones in the source's order, and merging a store into itself changes nothing |

## Left out

- Reading the configuration file in `load` (src/Dida/Config.php:156-163) is file I/O plus execution of PHP code. `Load` takes the array it would return as an `Option` parameter, with `None` standing for a missing file.
- `load` on a file that returns a truthy non-array value: PHP's `foreach` over a scalar does nothing, with a warning, and `load` returns true. Only an absent, empty or array result is modelled.
- Integer keys are left out: PHP turns a key written as a decimal integer, such as "1", into the integer 1, and `array_merge` renumbers integer keys. The type `Key` accepts every string, so such a key is kept here as a string key, which PHP would not do.
- `ksort`'s numeric comparison of numeric-string keys is left out with them. Keys are compared with the binary string comparison, and `Strcmp` gives its sign only.
- The mismatch between `mb_strlen`/`mb_substr` (characters) and `strncmp` (bytes) for multibyte keys is left out. A string is a sequence of single-unit characters, so character order stands for byte order.
- The `ArrayAccess` methods (src/Dida/Config.php:29-50) forward to `has`, `set`, `get` and `remove`. They are not modelled separately; `Merge` reads the source store with `Get(key, VNull)`, which is what its `$src[$key]` does.
- `checkKey` and `checkLocked` are not defined in src/Dida/Config.php. The key check becomes the predicate `checkKey` and a precondition of the constructor. The lock check becomes the flag `locked`, fixed when the store is made, and `!locked` is a precondition of `Remove`. The exceptions they may throw are not modelled. With src/Dida/Config.php alone, every `remove` and every constructor call with a non-empty array would stop with PHP's `Error` for an undefined method; the model assumes the two helpers are supplied elsewhere, for example by a subclass.
- The constructor's `foreach` only calls the key check, so it is a precondition rather than a loop.
- Values are a tagged type. A nested array value is an array of its own, with its keys in order and its values; its keys are not part of the store's keys, and the model does not require it to be well formed. A float, an object or a resource is a `VOther` known only by an identity: floating-point arithmetic and object identity are not modelled, because the store only ever compares a value strictly with the string `g.` (src/Dida/Config.php:96).

## Findings

| source | as written | input that shows it | evidently intended | confidence | as-written member | corrected member |
|---|---|---|---|---|---|---|
| src/Dida/Config.php:96 | `array_keys` is given the search value `g.` in strict mode, so getGroupItems only considers entries whose value is the string `g.`; groupPack and groupClear inherit this | store `db.host` → "x", `db.port` → "5432", `other` → "y"; getGroupItems("db") returns the empty array, and groupPack after groupUnpack("db", m) drops every entry of m whose value is not "db." | select every key that starts with `g.`, whatever its value; then groupPack after groupUnpack on a store without `g.` keys returns m exactly | not executed | ConfigGroups.GroupItemsIgnoresOrdinaryValues, ConfigGroups.PackAfterUnpack | ConfigGroups.IntendedGroupItems, ConfigGroups.IntendedPackAfterUnpack |

The class `DidaConfig.Config` keeps the selection as written, so its `GetGroupItems`, `GroupPack` and `GroupClear` match what the code does. The corrected selection and its round trip are proved as functions beside them.
