/**
 * Clients of the suffix tree contract: what a caller can conclude from the
 * operations' specifications alone, for sequences of calls and for small
 * concrete trees.
 */
module Scenarios {
  import opened Matching
  import opened SuffixTrees

  /** `putIfAbsent` after `put` keeps the first value and reports it. */
  method PutThenPutIfAbsent<V(==,!new)>(t: SuffixTree<V>, key: Key, first: V, second: V)
    returns (existing: Option<V>)
    modifies t
    ensures existing == Some(first)
    ensures t.GetValueForExactKey(key) == Some(first)
    ensures t.entries == old(t.entries)[key := first]
  {
    var _ := t.Put(key, first);
    existing := t.PutIfAbsent(key, second);
  }

  /** Removing a key twice: the first call reports whether it was stored, the
      second finds nothing and changes nothing. */
  method RemoveTwice<V(==,!new)>(t: SuffixTree<V>, key: Key) returns (first: bool, second: bool)
    modifies t
    ensures first == (key in old(t.entries))
    ensures !second
    ensures t.entries == old(t.entries) - {key}
  {
    first := t.Remove(key);
    second := t.Remove(key);
  }

  /** Suffix queries over a tree holding only "banana". */
  method SuffixQueriesOnBanana() returns (ana: set<Key>, nana: set<Key>, xyz: set<Key>)
    ensures ana == {"banana"} && nana == {"banana"} && xyz == {}
  {
    var t := new SuffixTree<int>();
    var _ := t.Put("banana", 1);
    assert "banana" == "ban" + "ana" == "ba" + "nana";
    EndsWithIffLastCharacters("banana", "xyz");
    ana := t.GetKeysEndingWith("ana");
    nana := t.GetKeysEndingWith("nana");
    xyz := t.GetKeysEndingWith("xyz");
  }

  /** Fragment queries over "banana" and "cabana", then with "banana" removed. */
  method FragmentQueriesOnBananaAndCabana() returns (ana: set<Key>, ban: set<Key>, anaAfterRemove: set<Key>)
    ensures ana == {"banana", "cabana"}
    ensures ban == {"banana", "cabana"}
    ensures anaAfterRemove == {"cabana"}
  {
    var t := new SuffixTree<int>();
    var previous := t.Put("banana", 1);
    previous := t.Put("cabana", 2);
    assert t.entries.Keys == {"banana", "cabana"};
    assert "banana" == [] + "ban" + "ana" == "b" + "ana" + "na";
    assert "cabana" == "cab" + "ana" + [] == "ca" + "ban" + "a";
    ana := t.GetKeysContaining("ana");
    assert ana == {"banana", "cabana"};
    ban := t.GetKeysContaining("ban");
    var removed := t.Remove("banana");
    anaAfterRemove := t.GetKeysContaining("ana");
  }

  /** A suffix shared by two keys reports both; their common value is reported once. */
  method SharedSuffixAndValue() returns (keys: set<Key>, values: set<int>, pairs: set<KeyValuePair<int>>)
    ensures keys == {"ana", "banana"}
    ensures values == {7}
    ensures pairs == {KeyValuePair("ana", 7), KeyValuePair("banana", 7)}
  {
    var t := new SuffixTree<int>();
    var previous := t.Put("ana", 7);
    previous := t.Put("banana", 7);
    assert "ana" == [] + "ana";
    assert "banana" == "ban" + "ana";
    keys := t.GetKeysEndingWith("ana");
    values := t.GetValuesForKeysEndingWith("ana");
    pairs := t.GetKeyValuePairsForKeysEndingWith("ana");
  }
}
