# QueryKey: the query-result cache key

This project models the cache key built by `QueryKey` in Jmix's EclipseLink
integration, and proves properties of the model. The key decides whether two
query executions are the same request, so that they can share a cached result.
It has three parts.

- **Parameter extraction.** `getNamedParameters` reads the declared
  parameters of a JPA query into a name-sorted `LinkedHashMap`.
  `getPositionalParameters` reads them into an array indexed by
  `position - 1`. Each result is `null` when it does not apply.
- **Canonicalisation.** The constructor scans the query text for
  placeholders `:[\w_$]+`. It rewrites the i-th one to `:normalized_param_i`
  and re-keys a copy of the named map to match.
- **Identity.** `equals` is built from `equalsFields`, `equalsParams` and
  `mapEquals`. `hashCode` returns a hash computed once in the constructor by
  `generateHashCode` and `generateMapHashCode`.

Modules, in dependency order:

- `values.dfy`:
  - `Values`: Java `int` arithmetic and the bound values. A value is `null`,
    an `Integer`, a `String` or an `Object[]`.
  - `Optional`: `Option`, which stands for a Java `null` where one is
    possible.
- `linked_maps.dfy` (`LinkedMaps`): a `LinkedHashMap` as its entries in
  insertion order, with `get`, `put` and `remove`, the map hash, and its
  independence of order.
- `placeholders.dfy` (`Placeholders`): the greedy scanner for placeholders
  and the rewrite to canonical names.
- `rekeying.dfy` (`Rekeying`): the `remove`/`put` updates of the
  constructor's loop, and what they leave in the map.
- `parameters.dfy` (`Parameters`): the two extraction functions.
- `query_keys.dfy` (`QueryKeys`): the key record, the constructor's loop,
  equality, the hash and what they promise together.
- `findings.dfy` (`Findings`): two defects of the code, each shown on the
  model as written next to a corrected definition.

The key is an immutable datatype. `create` hands the constructor a freshly
built map and array, but the values in them are the objects bound to the
query (lines 65 and 87), so a bound `Object[]` is shared with the caller.
The model treats those values as immutable.
The imperative parts of the source are methods with loops, proved against
specification functions:

- `QueryKeys.Canonicalize` is the constructor's `while (m.find())` loop.
- `Parameters.GetPositionalParameters` tracks `max`, then fills an array.
- `QueryKeys.GenerateMapHashCode` accumulates the entry hashes.
- `QueryKeys.MapEqualsScan` is `mapEquals` with its early returns.

Java's 32-bit overflow is explicit. Hashes are integers in
`[0, 2^32)`, each step is wrapped mod 2^32, and `^` goes through `bv32`.

`Object.equals` must be symmetric. The code's `mapEquals` checks only the
keys of the first map, so `equals` is not symmetric (finding 1 below). The
model follows the code.

## Model

| member | source | states |
|---|---|---|
| QueryKeys.Create | eclipselink/src/main/java/io/jmix/eclipselink/impl/entitycache/QueryKey.java:47-50 | `create` builds the key from the query's first result, max results, named map and positional array |
| Parameters.DeclaredNames | eclipselink/src/main/java/io/jmix/eclipselink/impl/entitycache/QueryKey.java:55-58 | a string is in the collected list exactly when some parameter has it as its non-null name |
| Parameters.ValueByName | eclipselink/src/main/java/io/jmix/eclipselink/impl/entitycache/QueryKey.java:65 | `getParameterValue(name)` is the value of the first parameter with that name, and `null` when none has it |
| Parameters.SortDistinct | eclipselink/src/main/java/io/jmix/eclipselink/impl/entitycache/QueryKey.java:62-66 | the names come out in strictly increasing `compareTo` order, each name once, with the same members as the input |
| Parameters.StrictlySortedUnique | eclipselink/src/main/java/io/jmix/eclipselink/impl/entitycache/QueryKey.java:62-63 | two strictly sorted lists with the same members are equal, so the insertion order of the named map is determined by its names |
| Parameters.NamedExtraction | eclipselink/src/main/java/io/jmix/eclipselink/impl/entitycache/QueryKey.java:52-68 | the result is absent exactly when the list is absent or no parameter has a name; otherwise the map has no duplicate keys, its keys in iteration order are strictly sorted, they are exactly the declared names, and each is bound to the first value declared under it |
| Parameters.ValueAtPosition | eclipselink/src/main/java/io/jmix/eclipselink/impl/entitycache/QueryKey.java:87 | `getParameterValue(position)` is the value of the first parameter at that position, and `null` when none is there |
| Parameters.PositionList | eclipselink/src/main/java/io/jmix/eclipselink/impl/entitycache/QueryKey.java:74-77 | `positions` holds exactly the declared positions |
| Parameters.MaxPosition | eclipselink/src/main/java/io/jmix/eclipselink/impl/entitycache/QueryKey.java:73-81 | `max` is at least every declared position, and is itself declared unless it is 0 |
| Parameters.FillSlots | eclipselink/src/main/java/io/jmix/eclipselink/impl/entitycache/QueryKey.java:86-87 | filling an all-`null` array puts the value at position j+1 into slot j when j+1 is declared, and leaves every other slot `null` |
| Parameters.GetPositionalParameters | eclipselink/src/main/java/io/jmix/eclipselink/impl/entitycache/QueryKey.java:70-89 | the loop and the fill compute `PositionalParameters`, whose meaning `PositionalExtraction` states |
| Parameters.PositionalExtraction | eclipselink/src/main/java/io/jmix/eclipselink/impl/entitycache/QueryKey.java:70-89 | the array is absent exactly when there is no list or no position; otherwise its length is a declared position, every declared position p is at most the length and slot p-1 holds its value, and undeclared slots are `null` |
| Placeholders.WordRun | eclipselink/src/main/java/io/jmix/eclipselink/impl/entitycache/QueryKey.java:45 | the greedy `+` takes every word char from the start and stops at the first non-word char or at the end |
| Placeholders.TokenizeWellFormed | eclipselink/src/main/java/io/jmix/eclipselink/impl/entitycache/QueryKey.java:45 | every match is a colon and a non-empty name, and is maximal: no word char follows it |
| Placeholders.RenderTokenize | eclipselink/src/main/java/io/jmix/eclipselink/impl/entitycache/QueryKey.java:107-116 | cutting the text at its matches loses nothing: the pieces give back the text |
| Placeholders.TokenizeRender | eclipselink/src/main/java/io/jmix/eclipselink/impl/entitycache/QueryKey.java:45 | scanning finds exactly the placeholders of any well-formed cut, so the scanner has no other outcome |
| Placeholders.CanonicalNameFacts | eclipselink/src/main/java/io/jmix/eclipselink/impl/entitycache/QueryKey.java:110 | `normalized_param_i` is a valid name, has the canonical prefix, and differs for different i |
| Placeholders.NormalizeShape | eclipselink/src/main/java/io/jmix/eclipselink/impl/entitycache/QueryKey.java:108-116 | the rewrite keeps every copied character in place, and turns the placeholder at position j into `normalized_param_i`, where i counts the placeholders before it, repeated names included |
| Placeholders.NormalizeNames | eclipselink/src/main/java/io/jmix/eclipselink/impl/entitycache/QueryKey.java:110-114 | the k-th placeholder of the rewrite is named `normalized_param_k`, one per match |
| Placeholders.CanonicalTextRescan | eclipselink/src/main/java/io/jmix/eclipselink/impl/entitycache/QueryKey.java:113-117 | rescanning the canonical text finds the same cut, with names `normalized_param_0`, `normalized_param_1`, ... |
| Placeholders.CanonicalTextIdempotent | eclipselink/src/main/java/io/jmix/eclipselink/impl/entitycache/QueryKey.java:107-117 | the canonical text is its own canonical text |
| Placeholders.RenamedTextSameCanonicalText | eclipselink/src/main/java/io/jmix/eclipselink/impl/entitycache/QueryKey.java:107-117 | replacing the placeholder names by any valid names gives a text whose scan carries the new names and whose canonical text is the same |
| LinkedMaps.Put | eclipselink/src/main/java/io/jmix/eclipselink/impl/entitycache/QueryKey.java:112 | `put` binds the key to the value, leaves every other binding, and keeps the keys distinct |
| LinkedMaps.PutKeepsOrder | eclipselink/src/main/java/io/jmix/eclipselink/impl/entitycache/QueryKey.java:112 | `put` on a present key leaves every key in place; on an absent key it appends the entry |
| LinkedMaps.Remove | eclipselink/src/main/java/io/jmix/eclipselink/impl/entitycache/QueryKey.java:111 | `remove` drops the key's binding and no other, and keeps the keys distinct |
| LinkedMaps.RemoveKeepsOthers | eclipselink/src/main/java/io/jmix/eclipselink/impl/entitycache/QueryKey.java:111 | `remove` keeps exactly the entries with another key, in their order: an absent key changes nothing, and in a map without duplicates the key's one entry is cut out where it stands |
| LinkedMaps.RemoveAbsent | eclipselink/src/main/java/io/jmix/eclipselink/impl/entitycache/QueryKey.java:111 | `remove` of a key the map does not hold leaves the map unchanged |
| LinkedMaps.RemoveCutsOut | eclipselink/src/main/java/io/jmix/eclipselink/impl/entitycache/QueryKey.java:111 | in a map without duplicates, `remove` of a present key deletes exactly its one entry at its position |
| Rekeying.ContentOfRekey | eclipselink/src/main/java/io/jmix/eclipselink/impl/entitycache/QueryKey.java:104-115 | the re-keyed copy has no duplicate keys, and its content depends only on the content of the original map, not on its order |
| Rekeying.RekeyContentCanonical | eclipselink/src/main/java/io/jmix/eclipselink/impl/entitycache/QueryKey.java:110-112 | after the loop, `normalized_param_(i+j)` is bound to the original value of the j-th match's name, or `null` if that name is unbound |
| Rekeying.RekeyContentDropsMatched | eclipselink/src/main/java/io/jmix/eclipselink/impl/entitycache/QueryKey.java:111 | every matched name is gone from the result |
| Rekeying.RekeyContentFrame | eclipselink/src/main/java/io/jmix/eclipselink/impl/entitycache/QueryKey.java:104-112 | a key that is neither matched nor canonical keeps its original binding, or stays absent |
| Rekeying.RekeyContentKeys | eclipselink/src/main/java/io/jmix/eclipselink/impl/entitycache/QueryKey.java:104-112 | every key of the result was in the map before or is one of the canonical names put |
| Rekeying.RekeyContentNoNewKeys | eclipselink/src/main/java/io/jmix/eclipselink/impl/entitycache/QueryKey.java:104-112 | a non-canonical key that was absent stays absent |
| Rekeying.RekeyContentExtra | eclipselink/src/main/java/io/jmix/eclipselink/impl/entitycache/QueryKey.java:104-112 | a binding that is neither matched nor canonical passes through the loop unchanged |
| Rekeying.RekeyContentRename | eclipselink/src/main/java/io/jmix/eclipselink/impl/entitycache/QueryKey.java:108-112 | renaming one name to a fresh name, consistently in the matches and in both maps, renames it in the result and changes nothing else, for names without the canonical prefix |
| QueryKeys.ScanName | eclipselink/src/main/java/io/jmix/eclipselink/impl/entitycache/QueryKey.java:108-109 | at a match, the greedy name loop stops at the end of the name, and the scan is that placeholder followed by the scan of the rest |
| QueryKeys.FindStep | eclipselink/src/main/java/io/jmix/eclipselink/impl/entitycache/QueryKey.java:108-115 | one turn of the `find` loop moves forward and keeps both loop invariants: buffer plus pending text plus rewrite of the rest is the canonical text, and the coming updates take the map to the canonical map |
| QueryKeys.Canonicalize | eclipselink/src/main/java/io/jmix/eclipselink/impl/entitycache/QueryKey.java:103-117 | the loop and `appendTail` leave the canonical text in the buffer and the canonical map in the copy |
| QueryKeys.New | eclipselink/src/main/java/io/jmix/eclipselink/impl/entitycache/QueryKey.java:91-126 | the constructor builds exactly the key `Construct` describes |
| QueryKeys.ConstructValid | eclipselink/src/main/java/io/jmix/eclipselink/impl/entitycache/QueryKey.java:104-125 | the stored hash is the one `generateHashCode` gives for the key's fields, and the canonical map has no duplicate keys |
| QueryKeys.ConstructText | eclipselink/src/main/java/io/jmix/eclipselink/impl/entitycache/QueryKey.java:96-123 | the fields are copied. Without a named map, the text is kept verbatim and the map is absent. With one, the canonical text scans to the original cut, literals unchanged, with placeholder j renamed to `normalized_param_n` (n = placeholders before j), one name per match |
| QueryKeys.ConstructNamed | eclipselink/src/main/java/io/jmix/eclipselink/impl/entitycache/QueryKey.java:103-115 | each canonical slot holds the original value of its match's name (or `null`); matched names are gone; unmatched original keys keep their values; and there are no other keys |
| QueryKeys.ConstructIgnoresNamedOrder | eclipselink/src/main/java/io/jmix/eclipselink/impl/entitycache/QueryKey.java:102-125 | two named maps with the same bindings in different orders give keys that are equal both ways and hash alike |
| QueryKeys.ConstructIgnoresRenaming | eclipselink/src/main/java/io/jmix/eclipselink/impl/entitycache/QueryKey.java:103-117 | renaming one placeholder and its binding consistently gives the same canonical text and a key equal both ways |
| QueryKeys.GenerateMapHashCode | eclipselink/src/main/java/io/jmix/eclipselink/impl/entitycache/QueryKey.java:186-200 | the loop computes the wrapped sum, over the entries, of the key hash XOR the value hash |
| LinkedMaps.MapHashOrderInsensitive | eclipselink/src/main/java/io/jmix/eclipselink/impl/entitycache/QueryKey.java:186-200 | two maps with the same bindings have the same map hash, whatever the entry order |
| QueryKeys.AbsentNamedMapHashesAsEmpty | eclipselink/src/main/java/io/jmix/eclipselink/impl/entitycache/QueryKey.java:182 | an absent named map contributes 0 to the hash, like an empty one, but absent and empty are unequal both ways |
| QueryKeys.HashRespectsIdentity | eclipselink/src/main/java/io/jmix/eclipselink/impl/entitycache/QueryKey.java:172-184 | two constructed keys with the same text, bounds, flags and positional array, and named maps with the same bindings, have the same stored hash |
| Values.DeepEqualValuesHashAlike | eclipselink/src/main/java/io/jmix/eclipselink/impl/entitycache/QueryKey.java:180 | elements equal under `deepEquals` have the same `deepHashCode` |
| Values.ElementDeepEqualsIsEquality | eclipselink/src/main/java/io/jmix/eclipselink/impl/entitycache/QueryKey.java:163 | the element test of `Arrays.deepEquals` is equality of values |
| Values.ArraysDeepEqualsIsEquality | eclipselink/src/main/java/io/jmix/eclipselink/impl/entitycache/QueryKey.java:163 | `Arrays.deepEquals` holds exactly when the arrays are equal element by element, nested arrays included |
| QueryKeys.ValuesMatchIsEquality | eclipselink/src/main/java/io/jmix/eclipselink/impl/entitycache/QueryKey.java:208-221 | the test `mapEquals` applies to one entry (both `null`, class check, deep array compare, `equals`) holds exactly when the values are equal |
| QueryKeys.MapEqualsScan | eclipselink/src/main/java/io/jmix/eclipselink/impl/entitycache/QueryKey.java:202-224 | the loop with its early returns computes `MapEquals` |
| QueryKeys.MapEqualsMeaning | eclipselink/src/main/java/io/jmix/eclipselink/impl/entitycache/QueryKey.java:202-224 | `mapEquals` holds exactly when both maps are absent, or both are present and each entry of the first equals `get` on the second. A `null` value matches a missing key |
| QueryKeys.EqualsMeaning | eclipselink/src/main/java/io/jmix/eclipselink/impl/entitycache/QueryKey.java:145-164 | `equals` holds exactly when the stored hashes, canonical texts, bounds and flags are equal, the positional arrays are equal (or both absent), and the named maps are both absent or the first is covered by the second |
| QueryKeys.EqualKeysHaveEqualHash | eclipselink/src/main/java/io/jmix/eclipselink/impl/entitycache/QueryKey.java:151-170 | equal keys have equal `hashCode()` |
| QueryKeys.IdentityIgnoresOriginalsAndId | eclipselink/src/main/java/io/jmix/eclipselink/impl/entitycache/QueryKey.java:151-164 | the original text, the original map and the id can be changed without changing `equals` in either direction |
| QueryKeys.EqualsReflexive | eclipselink/src/main/java/io/jmix/eclipselink/impl/entitycache/QueryKey.java:145-164 | a constructed key equals itself |
| QueryKeys.SameIdentityEqual | eclipselink/src/main/java/io/jmix/eclipselink/impl/entitycache/QueryKey.java:145-164 | two constructed keys with the same identity (text, bounds, flags, positional array, named bindings) are equal both ways |
| Findings.EqualsNotSymmetric | eclipselink/src/main/java/io/jmix/eclipselink/impl/entitycache/QueryKey.java:202-224 | adding an unmentioned binding `c -> "c"` keeps the hash, and `equals` then holds one way and not the other |
| Findings.SymmetricEqualsMeaning | eclipselink/src/main/java/io/jmix/eclipselink/impl/entitycache/QueryKey.java:202-224 | the corrected equality is symmetric, and holds exactly when hashes, fields and positional arrays are equal and `get` agrees on every key of the named maps |
| Findings.SameIdentitySymmetricEquals | eclipselink/src/main/java/io/jmix/eclipselink/impl/entitycache/QueryKey.java:145-164 | keys with the same identity are equal under the corrected equality, both ways |
| Findings.CanonicalNameCollision | eclipselink/src/main/java/io/jmix/eclipselink/impl/entitycache/QueryKey.java:108-113 | `:a :normalized_param_0` with `a -> v1` and `:b :normalized_param_0` with `b -> v2` give keys equal both ways for any v1 and v2 |
| Findings.CollidingContent | eclipselink/src/main/java/io/jmix/eclipselink/impl/entitycache/QueryKey.java:108-113 | on that query the canonical map holds only `normalized_param_1`; the value of `a` is lost |
| Findings.FixedRekeyHoldsEveryMatch | eclipselink/src/main/java/io/jmix/eclipselink/impl/entitycache/QueryKey.java:108-113 | with all removals done before any put, every canonical slot holds its match's value, with no condition on the names, and other keys keep their bindings |
| Findings.FixedRekeySeparatesCollision | eclipselink/src/main/java/io/jmix/eclipselink/impl/entitycache/QueryKey.java:108-113 | on the colliding queries the corrected map keeps v1 and v2 apart |
| Findings.FixedAgreesWithRekey | eclipselink/src/main/java/io/jmix/eclipselink/impl/entitycache/QueryKey.java:104-115 | when no matched name has the canonical prefix, the corrected map has the same bindings as the code's |

## Left out

- `printDescription` (lines 132-142) is diagnostic formatting and is not part of this model.
- `getId` and the random `UuidProvider` id: the id is a plain parameter of the constructor. Identity never reads it (`IdentityIgnoresOriginalsAndId`).
- `Serializable` and the `transient` marker have no counterpart.
- `javax.persistence.Query`: the query is a record holding the parameter list (`null` or a sequence), first result and max results. `getParameters()` returns a `Set`; the model takes it as a sequence in iteration order.
- `java.util.regex`: the pattern `(:[\w_$]+)` is an explicit greedy scanner over ASCII word chars, `_` and `$`. The `Matcher`/`StringBuffer` calls become one explicit loop, split into `Canonicalize`, `FindStep` and `ScanName`.
- `appendReplacement` treats `$` and `\` in the replacement specially. The replacement `:normalized_param_i` contains neither, so the model appends it literally.
- Hashing works on Dafny characters: `String.hashCode` is computed over `char` values, and `compareTo` compares them. For text outside the Basic Multilingual Plane this differs from Java's UTF-16 code units.
- Values are `null`, `Integer`, `String` and `Object[]` only. `generateArrayHashCode` for primitive arrays (lines 229-244) and other classes' `equals`/`hashCode` are not modelled. The `(Object[])` cast at line 218 therefore always succeeds, and `getClass()` is the value's constructor.
- `Collectors.toMap` throws on a `null` value (line 64); the model binds `null` instead.
- A JPA query throws `IllegalStateException` for an unbound parameter; the model reads `null`.
- A `null` query text throws `NullPointerException`: at line 107 (`matcher`) when a named map is given, and at line 174 (`hashCode`) otherwise. The model's text is a `string` and cannot be `null`.
- The constructor stores the caller's original map (line 102) and `Object[]` (line 123) by reference. The named map that identity reads is a copy (line 104). Through the protected constructor, a caller that changes the array afterwards changes `equals` but not the stored hash. The model has no aliasing; `create` always passes a fresh map and array.
- Bound values are shared even through `create`: the map and array it builds (lines 62-67, 86) hold the query's bound objects, and the copy at line 104 is shallow. A caller that changes a bound `Object[]` after the key is built changes `equals` (lines 163, 218) but not the stored hash (line 125). The model's values are immutable, so it does not capture this.
- Positions are typed as at least 1. The source would throw at line 87 on a position below 1.
- `equals` first tests `this == o` and `getClass() != o.getClass()`, and `mapEquals` first tests `a == b`. The model has no references or subclasses. For constructed keys the reference shortcut agrees with the structural test (`EqualsReflexive`).
- Rekeying.RekeyContentCanonical: proves the slot value only when no matched name starts with `normalized_param_`. Without that condition the code can overwrite a slot (finding 2).
- Rekeying.RekeyContentDropsMatched: proved only for matched names without the canonical prefix, for the same reason.
- QueryKeys.ConstructNamed: states the canonical map only when no matched name has the canonical prefix, for the same reason.
- Rekeying.RekeyContentRename: needs the new name to be fresh and neither name to have the canonical prefix. With `x = normalized_param_0` the code's loop differs (finding 2): names `[a, normalized_param_0]` over `{a: v, normalized_param_0: w}` end with `{normalized_param_1: w}`, and renaming x to a fresh `z` ends with `{normalized_param_0: v, normalized_param_1: w}`.
- QueryKeys.ConstructIgnoresRenaming: needs the new name to be fresh in the map and the text, and neither name to have the canonical prefix.
- Findings.FixedAgreesWithRekey: compares the two re-keyings only where no matched name has the canonical prefix. That is where the code is right.

## Findings

| source | as written | input that shows it | evidently intended | confidence | as-written member | corrected member |
|---|---|---|---|---|---|---|
| eclipselink/src/main/java/io/jmix/eclipselink/impl/entitycache/QueryKey.java:202-224 | `mapEquals(a, b)` checks only the entries of `a` against `b.get(key)`, so `equals` is not symmetric | any query whose text does not mention `c`, once with named map M and once with M plus `c -> "c"`. The extra entry hashes to `"c".hashCode() ^ "c".hashCode() = 0`, so the stored hashes agree. The first key equals the second, but not the reverse | equality that holds both ways, with `get` agreeing on every key of either map, as `Object.equals` requires | high (proved on the model, not executed) | Findings.EqualsNotSymmetric | Findings.SymmetricEqualsMeaning |
| eclipselink/src/main/java/io/jmix/eclipselink/impl/entitycache/QueryKey.java:108-113 | `remove(parameterName)` runs after earlier `put`s. A placeholder already named `normalized_param_k` deletes slot k written by an earlier match | `:a :normalized_param_0` with `{a: v1, normalized_param_0: w}`, and `:b :normalized_param_0` with `{b: v2, normalized_param_0: w}`. Both give the map `{normalized_param_1: w}`, so the keys are equal for any v1 and v2 | every canonical slot holds the value of its match, so differently bound queries get different keys | high (proved on the model, not executed) | Findings.CanonicalNameCollision | Findings.FixedRekeyHoldsEveryMatch |
