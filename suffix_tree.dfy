/**
 * The contract of a suffix tree: a store that associates character-sequence
 * keys with values and, beyond exact lookup, answers two queries over the stored
 * keys: the keys ending with a given suffix and the keys containing a given
 * fragment, each also as the keys' values and as key/value pairs.
 *
 * The tree's observable state is its set of associations, the field `entries`.
 * Each operation is one sequential step on that state. A value is never null, so
 * the value type has no null and a "null" result is `None`.
 */
module SuffixTrees {
  import opened Matching
  import opened Images

  /** A value that may be absent; `None` stands for the interface's null result. */
  datatype Option<T> = None | Some(value: T)

  /** A key paired with the value it is associated with. */
  datatype KeyValuePair<V> = KeyValuePair(key: Key, value: V)

  class SuffixTree<V(==,!new)> {
    /** The association of keys with values. */
    var entries: map<Key, V>

    /** A new tree associates no key with any value. */
    constructor ()
      ensures entries == map[]
    {
      entries := map[];
    }

    /** Associates `value` with `key`, replacing any previous value, and returns
        the previous value if there was one. */
    method Put(key: Key, value: V) returns (previous: Option<V>)
      modifies this
      ensures previous == old(GetValueForExactKey(key))
      ensures entries == old(entries)[key := value]
      ensures GetValueForExactKey(key) == Some(value)
      ensures forall suffix :: GetKeysEndingWith(suffix) ==
                (if EndsWith(key, suffix) then old(GetKeysEndingWith(suffix)) + {key} else old(GetKeysEndingWith(suffix)))
      ensures forall fragment :: GetKeysContaining(fragment) ==
                (if Contains(key, fragment) then old(GetKeysContaining(fragment)) + {key} else old(GetKeysContaining(fragment)))
    {
      previous := if key in entries then Some(entries[key]) else None;
      entries := entries[key := value];
    }

    /** Associates `value` with `key` only if no value is associated with it yet.
        Returns the existing value, which is then left in place, or `None` when
        the new value was stored. */
    method PutIfAbsent(key: Key, value: V) returns (existing: Option<V>)
      modifies this
      ensures existing == old(GetValueForExactKey(key))
      ensures entries == if existing.Some? then old(entries) else old(entries)[key := value]
      ensures GetValueForExactKey(key) == if existing.Some? then existing else Some(value)
      ensures forall suffix :: GetKeysEndingWith(suffix) ==
                (if existing.None? && EndsWith(key, suffix) then old(GetKeysEndingWith(suffix)) + {key} else old(GetKeysEndingWith(suffix)))
      ensures forall fragment :: GetKeysContaining(fragment) ==
                (if existing.None? && Contains(key, fragment) then old(GetKeysContaining(fragment)) + {key} else old(GetKeysContaining(fragment)))
    {
      if key in entries {
        existing := Some(entries[key]);
      } else {
        existing := None;
        entries := entries[key := value];
      }
    }

    /** Removes the value associated with `key`, if any; reports whether one was
        removed. Does nothing when no value is associated with `key`. */
    method Remove(key: Key) returns (removed: bool)
      modifies this
      ensures removed == old(GetValueForExactKey(key)).Some?
      ensures entries == old(entries) - {key}
      ensures GetValueForExactKey(key) == None
      ensures forall suffix :: GetKeysEndingWith(suffix) == old(GetKeysEndingWith(suffix)) - {key}
      ensures forall fragment :: GetKeysContaining(fragment) == old(GetKeysContaining(fragment)) - {key}
    {
      removed := key in entries;
      entries := entries - {key};
    }

    /** The value associated with `key`, or `None` if there is none. */
    function GetValueForExactKey(key: Key): (r: Option<V>)
      reads this
      ensures r.Some? <==> key in entries
      ensures r.Some? ==> r.value == entries[key]
    {
      if key in entries then Some(entries[key]) else None
    }

    /** The stored keys that end with `suffix`, inclusive of a key equal to it.
        Found by matching `suffix` exactly against each suffix of each key. */
    function GetKeysEndingWith(suffix: Key): (keys: set<Key>)
      reads this
      ensures keys <= entries.Keys
      ensures forall k :: k in keys <==> k in entries && EndsWith(k, suffix)
    {
      assert forall k :: IsSuffixOf(suffix, k) <==> EndsWith(k, suffix) by {
        forall k ensures IsSuffixOf(suffix, k) <==> EndsWith(k, suffix) {
          IsSuffixOfIffEndsWith(suffix, k);
        }
      }
      set k | k in entries && IsSuffixOf(suffix, k)
    }

    /** The values of the keys that end with `suffix`, each value once however
        many of those keys it is associated with. */
    function GetValuesForKeysEndingWith(suffix: Key): (values: set<V>)
      reads this
      ensures forall v :: v in values <==> exists k :: k in entries && EndsWith(k, suffix) && entries[k] == v
      ensures |values| <= |GetKeysEndingWith(suffix)|
    {
      ImageNoLarger(entries, GetKeysEndingWith(suffix));
      Image(entries, GetKeysEndingWith(suffix))
    }

    /** One pair per key ending with `suffix`, holding that key and its value. */
    function GetKeyValuePairsForKeysEndingWith(suffix: Key): (pairs: set<KeyValuePair<V>>)
      reads this
      ensures forall p :: p in pairs <==> p.key in entries && EndsWith(p.key, suffix) && p.value == entries[p.key]
      ensures |pairs| == |GetKeysEndingWith(suffix)|
    {
      PairsOfKeys(entries, GetKeysEndingWith(suffix))
    }

    /** The stored keys that contain `fragment`, inclusive of a key equal to it.
        Found by matching `fragment` as a prefix of each suffix of each key. */
    function GetKeysContaining(fragment: Key): (keys: set<Key>)
      reads this
      ensures keys <= entries.Keys
      ensures forall k :: k in keys <==> k in entries && Contains(k, fragment)
    {
      assert forall k :: OccursIn(fragment, k) <==> Contains(k, fragment) by {
        forall k ensures OccursIn(fragment, k) <==> Contains(k, fragment) {
          OccursInIffContains(fragment, k);
        }
      }
      set k | k in entries && OccursIn(fragment, k)
    }

    /** The values of the keys that contain `fragment`, as a collection with one
        element per such key: a value shared by several keys is repeated. */
    ghost function GetValuesForKeysContaining(fragment: Key): (values: multiset<V>)
      reads this
      ensures forall v :: v in values <==> exists k :: k in entries && Contains(k, fragment) && entries[k] == v
      ensures |values| == |GetKeysContaining(fragment)|
    {
      var keys := GetKeysContaining(fragment);
      BagSize(entries, keys);
      assert forall v :: v in Bag(entries, keys) <==> v in Image(entries, keys) by {
        forall v ensures v in Bag(entries, keys) <==> v in Image(entries, keys) {
          BagSupport(entries, keys, v);
        }
      }
      Bag(entries, keys)
    }

    /** One pair per key containing `fragment`, holding that key and its value. */
    function GetKeyValuePairsForKeysContaining(fragment: Key): (pairs: set<KeyValuePair<V>>)
      reads this
      ensures forall p :: p in pairs <==> p.key in entries && Contains(p.key, fragment) && p.value == entries[p.key]
      ensures |pairs| == |GetKeysContaining(fragment)|
    {
      PairsOfKeys(entries, GetKeysContaining(fragment))
    }
  }

  /** The pair of each key in `ks` with its value in `m`. */
  function PairsOfKeys<V(==,!new)>(m: map<Key, V>, ks: set<Key>): (pairs: set<KeyValuePair<V>>)
    requires ks <= m.Keys
    ensures forall p :: p in pairs <==> p.key in ks && p.value == m[p.key]
    ensures |pairs| == |ks|
  {
    PairsOfKeysSize(m, ks);
    set k | k in ks :: KeyValuePair(k, m[k])
  }

  /** Pairing keys with their values loses no key: there are as many pairs as keys. */
  lemma {:induction false} PairsOfKeysSize<V>(m: map<Key, V>, ks: set<Key>)
    requires ks <= m.Keys
    ensures |set k | k in ks :: KeyValuePair(k, m[k])| == |ks|
    decreases ks
  {
    if ks != {} {
      var k :| k in ks;
      PairsOfKeysSize(m, ks - {k});
      var rest := set j | j in ks - {k} :: KeyValuePair(j, m[j]);
      assert (set j | j in ks :: KeyValuePair(j, m[j])) == rest + {KeyValuePair(k, m[k])};
      assert KeyValuePair(k, m[k]) !in rest;
    }
  }

  /** Inclusive suffix queries: a stored key is among the keys ending with itself,
      its value among their values and its pair among their pairs. */
  lemma SuffixQueriesInclusive<V(!new)>(t: SuffixTree<V>, key: Key)
    requires key in t.entries
    ensures key in t.GetKeysEndingWith(key)
    ensures t.entries[key] in t.GetValuesForKeysEndingWith(key)
    ensures KeyValuePair(key, t.entries[key]) in t.GetKeyValuePairsForKeysEndingWith(key)
  {
    EndsWithItself(key);
  }

  /** Inclusive fragment queries: a stored key is among the keys containing itself,
      its value among their values and its pair among their pairs. */
  lemma FragmentQueriesInclusive<V(!new)>(t: SuffixTree<V>, key: Key)
    requires key in t.entries
    ensures key in t.GetKeysContaining(key)
    ensures t.entries[key] in t.GetValuesForKeysContaining(key)
    ensures KeyValuePair(key, t.entries[key]) in t.GetKeyValuePairsForKeysContaining(key)
  {
    ContainsItself(key);
  }

  /** Exact lookup and the pair queries agree: `key` is associated with `v` exactly
      when the pair (key, v) is reported for the suffix `key`, and exactly when it
      is reported for the fragment `key`. */
  lemma ExactLookupAgreesWithPairs<V(!new)>(t: SuffixTree<V>, key: Key, v: V)
    ensures t.GetValueForExactKey(key) == Some(v) <==> KeyValuePair(key, v) in t.GetKeyValuePairsForKeysEndingWith(key)
    ensures t.GetValueForExactKey(key) == Some(v) <==> KeyValuePair(key, v) in t.GetKeyValuePairsForKeysContaining(key)
  {
    // Both searches match `key` against itself at their first step.
  }

  /** Every key ending with a suffix also contains it as a fragment. */
  lemma SuffixMatchesAreFragmentMatches<V(!new)>(t: SuffixTree<V>, suffix: Key)
    ensures t.GetKeysEndingWith(suffix) <= t.GetKeysContaining(suffix)
  {
    forall k | k in t.GetKeysEndingWith(suffix)
      ensures k in t.GetKeysContaining(suffix)
    {
      EndsWithImpliesContains(k, suffix);
    }
  }

  /** Asking for a longer suffix can only narrow the keys found. */
  lemma LongerSuffixNarrows<V(!new)>(t: SuffixTree<V>, suffix: Key, longer: Key)
    requires EndsWith(longer, suffix)
    ensures t.GetKeysEndingWith(longer) <= t.GetKeysEndingWith(suffix)
  {
    forall k | k in t.GetKeysEndingWith(longer)
      ensures k in t.GetKeysEndingWith(suffix)
    {
      EndsWithTransitive(k, longer, suffix);
    }
  }

  /** Asking for a larger fragment can only narrow the keys found. */
  lemma LargerFragmentNarrows<V(!new)>(t: SuffixTree<V>, fragment: Key, larger: Key)
    requires Contains(larger, fragment)
    ensures t.GetKeysContaining(larger) <= t.GetKeysContaining(fragment)
  {
    forall k | k in t.GetKeysContaining(larger)
      ensures k in t.GetKeysContaining(fragment)
    {
      ContainsTransitive(k, larger, fragment);
    }
  }

  /** The empty suffix and the empty fragment match every stored key. */
  lemma EmptyQueriesMatchAllKeys<V(!new)>(t: SuffixTree<V>)
    ensures t.GetKeysEndingWith([]) == t.entries.Keys
    ensures t.GetKeysContaining([]) == t.entries.Keys
  {
    forall k | k in t.entries
      ensures k in t.GetKeysEndingWith([]) && k in t.GetKeysContaining([])
    {
      EmptyMatchesEverything(k);
    }
  }

  /** The suffix value set holds no duplicates: when two different matching keys
      share a value, fewer values than keys are reported. */
  lemma SuffixValuesCollapseDuplicates<V(!new)>(t: SuffixTree<V>, suffix: Key, k1: Key, k2: Key)
    requires k1 in t.GetKeysEndingWith(suffix) && k2 in t.GetKeysEndingWith(suffix)
    requires k1 != k2 && t.entries[k1] == t.entries[k2]
    ensures |t.GetValuesForKeysEndingWith(suffix)| < |t.GetKeysEndingWith(suffix)|
  {
    ImageCollapsesDuplicates(t.entries, t.GetKeysEndingWith(suffix), k1, k2);
  }

  /** The fragment value collection repeats a value once per matching key that
      holds it. */
  lemma FragmentValuesKeepDuplicates<V(!new)>(t: SuffixTree<V>, fragment: Key, v: V)
    ensures t.GetValuesForKeysContaining(fragment)[v] ==
            |set k | k in t.GetKeysContaining(fragment) && t.entries[k] == v|
  {
    BagMultiplicity(t.entries, t.GetKeysContaining(fragment), v);
  }

  /** The pair queries report exactly the matched keys, each with one value. */
  lemma PairsCoverMatchedKeys<V(!new)>(t: SuffixTree<V>, query: Key)
    ensures (set p | p in t.GetKeyValuePairsForKeysEndingWith(query) :: p.key) == t.GetKeysEndingWith(query)
    ensures (set p | p in t.GetKeyValuePairsForKeysContaining(query) :: p.key) == t.GetKeysContaining(query)
  {
    var ending := t.GetKeyValuePairsForKeysEndingWith(query);
    forall k | k in t.GetKeysEndingWith(query)
      ensures k in (set p | p in ending :: p.key)
    {
      assert KeyValuePair(k, t.entries[k]) in ending;
    }
    var containing := t.GetKeyValuePairsForKeysContaining(query);
    forall k | k in t.GetKeysContaining(query)
      ensures k in (set p | p in containing :: p.key)
    {
      assert KeyValuePair(k, t.entries[k]) in containing;
    }
  }
}
