# Suffix tree contract, modelled in Dafny

`SuffixTree<O>` from concurrent-trees stores string keys with non-null values.
Besides exact lookup it answers two kinds of query over the stored keys:

- the keys that **end with** a given suffix;
- the keys that **contain** a given fragment.

Each query comes in three forms: the keys, the values of those keys, and
(key, value) pairs. Both queries are *inclusive*: a key equal to the suffix or
fragment is reported too.

This project models that contract as a sequential state machine:

- `SuffixTrees.SuffixTree` is a class whose one field, `entries: map<Key, V>`,
  is the association of keys with values.
- `Put`, `PutIfAbsent` and `Remove` are methods with `modifies this`. Their
  contracts state the returned value, the new map and the value now stored
  under the key. They also state how the two key queries (keys ending with a
  suffix, keys containing a fragment) change. The value and pair queries
  afterwards follow from the new map through those functions' own contracts.
- The read-only operations are functions that read `entries`.

Files:

- `matching.dfy` (module `Matching`) defines the two matching relations in two
  readings each:
  - declaratively, by concatenation: `EndsWith(k, s)` means `k == front + s`
    for some `front`, and `Contains(k, f)` means `k == front + f + back`;
  - by searching the key suffix by suffix: `IsSuffixOf` looks for an exact
    match and `OccursIn` for a prefix match. This is how an index of all
    suffixes of all keys answers the queries.

  Lemmas show that the two readings agree on every input, in both directions.
- `images.dfy` (module `Images`) turns a set of matched keys into their values:
  - `Image` gives a set, where duplicate values collapse;
  - `Bag` gives a multiset with one element per key.

  It also holds the cardinality lemmas for both.
- `suffix_tree.dfy` (module `SuffixTrees`) holds the class, the `Option` and
  `KeyValuePair` datatypes, and the lemmas about the queries.
- `scenarios.dfy` (module `Scenarios`) holds client methods. They show what a
  caller can conclude from the specifications alone: `putIfAbsent` after
  `put`, removing twice, and small concrete trees. In one of those trees,
  `"cabana"` is among the keys containing `"ban"`, because
  `"cabana" == "ca" + "ban" + "a"`.

Each query function's body uses the searching reading. Its `ensures` states the
declarative reading, so each function's contract is proved from the
equivalence lemmas. Each query's contract also states how big its result is:

- the value set is no larger than the key set;
- there are as many pairs as keys;
- the fragment value collection has one element per key.

"Ends with" and "contains" are read literally, including for the empty query.
The empty suffix ends every key and the empty fragment occurs in every key,
the empty key included, so both empty queries return every stored key
(`EmptyQueriesMatchAllKeys`). An index built only from the non-empty suffixes
of each key would answer `getKeysEndingWith("")` with no keys. The model keeps
the literal reading of the interface's wording.

## Model

| member | source | states |
|---|---|---|
| SuffixTrees.SuffixTree.Put | concurrent-trees/trunk/src/main/java/com/googlecode/concurrenttrees/suffix/SuffixTree.java:13-23 | returns the previous value of `key` (`None` if absent); afterwards `key` maps to `value` and every other association is unchanged; the keys ending with each suffix, and the keys containing each fragment, gain `key` exactly when `key` matches and are otherwise unchanged |
| SuffixTrees.SuffixTree.PutIfAbsent | concurrent-trees/trunk/src/main/java/com/googlecode/concurrenttrees/suffix/SuffixTree.java:25-36 | returns the existing value, and then the map is unchanged; otherwise stores `value` and returns `None`; either way `key` afterwards maps to the existing value if there was one, else to `value`; the keys ending with each suffix, and the keys containing each fragment, gain `key` exactly when it was absent and matches, and are otherwise unchanged |
| SuffixTrees.SuffixTree.Remove | concurrent-trees/trunk/src/main/java/com/googlecode/concurrenttrees/suffix/SuffixTree.java:38-46 | returns true exactly when `key` had a value; afterwards `key` has none and other keys are unchanged; the keys ending with each suffix, and the keys containing each fragment, lose exactly `key` |
| SuffixTrees.SuffixTree.GetValueForExactKey | concurrent-trees/trunk/src/main/java/com/googlecode/concurrenttrees/suffix/SuffixTree.java:48-55 | `Some` of the associated value when `key` is stored, `None` otherwise; reads the state and changes nothing |
| SuffixTrees.SuffixTree.GetKeysEndingWith | concurrent-trees/trunk/src/main/java/com/googlecode/concurrenttrees/suffix/SuffixTree.java:57-66 | the keys found by the suffix-by-suffix search are exactly the stored keys that end with `suffix` |
| SuffixTrees.SuffixTree.GetValuesForKeysEndingWith | concurrent-trees/trunk/src/main/java/com/googlecode/concurrenttrees/suffix/SuffixTree.java:68-81 | a value is in the set exactly when some stored key ending with `suffix` maps to it; the set has no more elements than there are matching keys |
| SuffixTrees.SuffixTree.GetKeyValuePairsForKeysEndingWith | concurrent-trees/trunk/src/main/java/com/googlecode/concurrenttrees/suffix/SuffixTree.java:83-93 | a pair is reported exactly when its key is stored, ends with `suffix`, and its value is that key's value; there are as many pairs as matching keys |
| SuffixTrees.SuffixTree.GetKeysContaining | concurrent-trees/trunk/src/main/java/com/googlecode/concurrenttrees/suffix/SuffixTree.java:95-104 | the keys found by prefix-matching `fragment` against every suffix are exactly the stored keys that contain `fragment` |
| SuffixTrees.SuffixTree.GetValuesForKeysContaining | concurrent-trees/trunk/src/main/java/com/googlecode/concurrenttrees/suffix/SuffixTree.java:106-115 | a value occurs in the collection exactly when some stored key containing `fragment` maps to it; the collection has one element per matching key |
| SuffixTrees.SuffixTree.GetKeyValuePairsForKeysContaining | concurrent-trees/trunk/src/main/java/com/googlecode/concurrenttrees/suffix/SuffixTree.java:117-127 | a pair is reported exactly when its key is stored, contains `fragment`, and its value is that key's value; there are as many pairs as matching keys |
| SuffixTrees.PairsOfKeys | concurrent-trees/trunk/src/main/java/com/googlecode/concurrenttrees/suffix/SuffixTree.java:84-85 | pairs each given key with its value: a pair is present exactly when its key is given and its value is that key's value; one pair per key |
| SuffixTrees.PairsOfKeysSize | concurrent-trees/trunk/src/main/java/com/googlecode/concurrenttrees/suffix/SuffixTree.java:118-119 | pairing keys with their values loses no key: there are as many pairs as keys |
| SuffixTrees.SuffixQueriesInclusive | concurrent-trees/trunk/src/main/java/com/googlecode/concurrenttrees/suffix/SuffixTree.java:57-93 | inclusive rule for suffixes: a stored key is among the keys ending with itself, its value among their values, and its pair among their pairs |
| SuffixTrees.FragmentQueriesInclusive | concurrent-trees/trunk/src/main/java/com/googlecode/concurrenttrees/suffix/SuffixTree.java:95-127 | inclusive rule for fragments: a stored key is among the keys containing itself, its value in their value collection, and its pair among their pairs |
| SuffixTrees.ExactLookupAgreesWithPairs | concurrent-trees/trunk/src/main/java/com/googlecode/concurrenttrees/suffix/SuffixTree.java:49-55 | exact lookup gives `v` for `key` if and only if the pair (`key`, `v`) is reported for the suffix `key`, and if and only if it is reported for the fragment `key` |
| SuffixTrees.SuffixMatchesAreFragmentMatches | concurrent-trees/trunk/src/main/java/com/googlecode/concurrenttrees/suffix/SuffixTree.java:58-104 | every key ending with `suffix` is among the keys containing it |
| SuffixTrees.LongerSuffixNarrows | concurrent-trees/trunk/src/main/java/com/googlecode/concurrenttrees/suffix/SuffixTree.java:58-66 | when `longer` ends with `suffix`, the keys ending with `longer` are a subset of those ending with `suffix` |
| SuffixTrees.LargerFragmentNarrows | concurrent-trees/trunk/src/main/java/com/googlecode/concurrenttrees/suffix/SuffixTree.java:96-104 | when `larger` contains `fragment`, the keys containing `larger` are a subset of those containing `fragment` |
| SuffixTrees.EmptyQueriesMatchAllKeys | concurrent-trees/trunk/src/main/java/com/googlecode/concurrenttrees/suffix/SuffixTree.java:58-104 | the empty suffix and the empty fragment each match exactly the stored keys |
| SuffixTrees.SuffixValuesCollapseDuplicates | concurrent-trees/trunk/src/main/java/com/googlecode/concurrenttrees/suffix/SuffixTree.java:74-76 | no duplicates in the suffix value set: if two distinct matching keys share a value, fewer values than keys are reported |
| SuffixTrees.FragmentValuesKeepDuplicates | concurrent-trees/trunk/src/main/java/com/googlecode/concurrenttrees/suffix/SuffixTree.java:106-115 | in the fragment value collection, each value occurs once per matching key that maps to it |
| SuffixTrees.PairsCoverMatchedKeys | concurrent-trees/trunk/src/main/java/com/googlecode/concurrenttrees/suffix/SuffixTree.java:83-93 | the keys of the reported pairs are exactly the matched keys, for both suffix and fragment queries |
| Matching.IsSuffixOfIffEndsWith | concurrent-trees/trunk/src/main/java/com/googlecode/concurrenttrees/suffix/SuffixTree.java:58-64 | the suffix-by-suffix search finds `suffix` in `k` if and only if `k` ends with `suffix` |
| Matching.OccursInIffContains | concurrent-trees/trunk/src/main/java/com/googlecode/concurrenttrees/suffix/SuffixTree.java:96-102 | prefix-matching `fragment` against the suffixes of `k` succeeds if and only if `k` contains `fragment` |
| Matching.EndsWithItself | concurrent-trees/trunk/src/main/java/com/googlecode/concurrenttrees/suffix/SuffixTree.java:60-61 | every key ends with itself |
| Matching.ContainsItself | concurrent-trees/trunk/src/main/java/com/googlecode/concurrenttrees/suffix/SuffixTree.java:98-99 | every key contains itself |
| Matching.EndsWithImpliesContains | concurrent-trees/trunk/src/main/java/com/googlecode/concurrenttrees/suffix/SuffixTree.java:58-104 | a key that ends with a suffix contains it |
| Matching.EndsWithTransitive | concurrent-trees/trunk/src/main/java/com/googlecode/concurrenttrees/suffix/SuffixTree.java:58 | a key ending with `s` ends with every suffix of `s` |
| Matching.ContainsTransitive | concurrent-trees/trunk/src/main/java/com/googlecode/concurrenttrees/suffix/SuffixTree.java:96 | a key containing `g` contains every fragment of `g` |
| Matching.EmptyMatchesEverything | concurrent-trees/trunk/src/main/java/com/googlecode/concurrenttrees/suffix/SuffixTree.java:58-104 | every key ends with and contains the empty sequence |
| Matching.EndsWithIffLastCharacters | concurrent-trees/trunk/src/main/java/com/googlecode/concurrenttrees/suffix/SuffixTree.java:58 | a key ends with `s` if and only if its last characters, as many as `s` has, spell `s` |
| Images.ImageWithout | concurrent-trees/trunk/src/main/java/com/googlecode/concurrenttrees/suffix/SuffixTree.java:69-76 | the value set of a key set is the value set without one key, plus that key's value |
| Images.ImageNoLarger | concurrent-trees/trunk/src/main/java/com/googlecode/concurrenttrees/suffix/SuffixTree.java:74-76 | collapsing duplicates never gives more values than keys |
| Images.ImageCollapsesDuplicates | concurrent-trees/trunk/src/main/java/com/googlecode/concurrenttrees/suffix/SuffixTree.java:74-76 | two distinct keys with one value make the value set strictly smaller than the key set |
| Images.BagMultiplicity | concurrent-trees/trunk/src/main/java/com/googlecode/concurrenttrees/suffix/SuffixTree.java:106-115 | each value occurs in the collection as often as keys map to it |
| Images.BagSize | concurrent-trees/trunk/src/main/java/com/googlecode/concurrenttrees/suffix/SuffixTree.java:106-115 | the collection has one element per key |
| Images.BagSupport | concurrent-trees/trunk/src/main/java/com/googlecode/concurrenttrees/suffix/SuffixTree.java:106-115 | the collection holds exactly the values of the value set, possibly repeated |
| Scenarios.PutThenPutIfAbsent | concurrent-trees/trunk/src/main/java/com/googlecode/concurrenttrees/suffix/SuffixTree.java:25-36 | `putIfAbsent(k, v2)` after `put(k, v1)` returns `v1`, and `k` still maps to `v1` |
| Scenarios.RemoveTwice | concurrent-trees/trunk/src/main/java/com/googlecode/concurrenttrees/suffix/SuffixTree.java:38-46 | the first `remove` reports whether the key was stored; the second returns false; the key ends up unassociated |
| Scenarios.SuffixQueriesOnBanana | concurrent-trees/trunk/src/main/java/com/googlecode/concurrenttrees/suffix/SuffixTree.java:57-66 | with only "banana" stored, the keys ending with "ana" and with "nana" are {"banana"}, and those ending with "xyz" are {} |
| Scenarios.FragmentQueriesOnBananaAndCabana | concurrent-trees/trunk/src/main/java/com/googlecode/concurrenttrees/suffix/SuffixTree.java:95-104 | with "banana" and "cabana" stored, both contain "ana" and both contain "ban"; after removing "banana", only "cabana" contains "ana" |
| Scenarios.SharedSuffixAndValue | concurrent-trees/trunk/src/main/java/com/googlecode/concurrenttrees/suffix/SuffixTree.java:68-93 | "ana" and "banana", both stored with 7: the keys ending with "ana" are both keys, the value set is {7} (reported once), and there is one pair per key |

## Left out

- Atomicity and concurrency: the interface says `put` and `putIfAbsent` are performed atomically (SuffixTree.java:17, 29). Each operation is modelled as one sequential step on the map, and concurrent interleavings are not modelled.
- The radix-tree and suffix-index implementation (node splitting and merging, per-suffix insertion, subtree enumeration) is not part of this model. The query functions search each key suffix by suffix instead.
- `KeyValuePair` (SuffixTree.java:3) is not part of this model. It becomes a plain datatype, and its `equals`/`hashCode` are not modelled.
- Null arguments and the exceptions they raise are not modelled. Values have no null, and a null result is `None`.
- Keys are `seq<char>` compared by value. `CharSequence` implementations other than plain character sequences are not modelled.
- Keys, suffixes and fragments are sequences of Unicode scalar values. A Java `CharSequence` is a sequence of UTF-16 code units. So a key containing an unpaired surrogate cannot be written in the model, and a character outside the Basic Multilingual Plane counts as one element here where Java counts two. For well-formed text, "ends with" and "contains" give the same answers in both representations.
- Values are compared with Dafny's equality, not a user-defined `equals`. The value type is restricted to non-reference types (`V(==,!new)`), because the value-set contracts quantify over values.
- SuffixTrees.SuffixTree.GetValuesForKeysContaining: the interface returns only a `Collection` and leaves the number of copies open. The model fixes one element per matching key. It is a ghost function, because it picks keys from a set one at a time, which is not executable.
