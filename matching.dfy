/**
 * What it means for a stored key to match a suffix query or a fragment query.
 *
 * Two readings of each relation are given. The declarative one says what the
 * interface promises ("the key ends with the suffix", "the key contains the
 * fragment") in terms of concatenation. The searching one walks the key suffix
 * by suffix, dropping one leading character at a time, which is how an index of
 * all suffixes of all keys answers the query: a suffix query is an exact match
 * against one of the key's suffixes, a fragment query a prefix match against one
 * of them. The lemmas show that the two readings agree on every input.
 */
module Matching {

  /** Keys, suffixes and fragments are character sequences. */
  type Key = seq<char>

  /** `k` ends with `suffix`: something followed by `suffix` spells `k`. */
  ghost predicate EndsWith(k: Key, suffix: Key) {
    exists front :: k == front + suffix
  }

  /** `k` contains `fragment` as a contiguous piece. */
  ghost predicate Contains(k: Key, fragment: Key) {
    exists front, back :: k == front + fragment + back
  }

  /** `p` is a prefix of `s`. */
  predicate IsPrefixOf(p: Key, s: Key) {
    |p| <= |s| && s[..|p|] == p
  }

  /** Searching reading of "ends with": `suffix` is `k` itself or one of the
      suffixes of `k` with its first character dropped. */
  predicate IsSuffixOf(suffix: Key, k: Key)
    decreases |k|
  {
    k == suffix || (|k| > 0 && IsSuffixOf(suffix, k[1..]))
  }

  /** Searching reading of "contains": `fragment` is a prefix of `k` or occurs in
      `k` with its first character dropped. */
  predicate OccursIn(fragment: Key, k: Key)
    decreases |k|
  {
    IsPrefixOf(fragment, k) || (|k| > 0 && OccursIn(fragment, k[1..]))
  }

  /** The suffix search finds exactly the keys that end with the suffix. */
  lemma {:induction false} IsSuffixOfIffEndsWith(suffix: Key, k: Key)
    ensures IsSuffixOf(suffix, k) <==> EndsWith(k, suffix)
    decreases |k|
  {
    if k == suffix {
      assert k == [] + suffix;
    } else if |k| > 0 {
      IsSuffixOfIffEndsWith(suffix, k[1..]);
      if EndsWith(k[1..], suffix) {
        var front :| k[1..] == front + suffix;
        assert k == ([k[0]] + front) + suffix;
      }
      if EndsWith(k, suffix) {
        var front :| k == front + suffix;
        assert front != [];
        assert k[1..] == front[1..] + suffix;
      }
    }
  }

  /** The fragment search finds exactly the keys that contain the fragment. */
  lemma {:induction false} OccursInIffContains(fragment: Key, k: Key)
    ensures OccursIn(fragment, k) <==> Contains(k, fragment)
    decreases |k|
  {
    if IsPrefixOf(fragment, k) {
      assert k == [] + fragment + k[|fragment|..];
    } else if |k| > 0 {
      OccursInIffContains(fragment, k[1..]);
      if Contains(k[1..], fragment) {
        var front, back :| k[1..] == front + fragment + back;
        assert k == ([k[0]] + front) + fragment + back;
      }
      if Contains(k, fragment) {
        var front, back :| k == front + fragment + back;
        if front != [] {
          assert k[1..] == front[1..] + fragment + back;
        }
      }
    }
  }

  /** Every key ends with itself: the "inclusive" rule for suffix queries. */
  lemma EndsWithItself(k: Key)
    ensures EndsWith(k, k)
  {
    assert k == [] + k;
  }

  /** Every key contains itself: the "inclusive" rule for fragment queries. */
  lemma ContainsItself(k: Key)
    ensures Contains(k, k)
  {
    assert k == [] + k + [];
  }

  /** A key that ends with a suffix contains it. */
  lemma EndsWithImpliesContains(k: Key, suffix: Key)
    requires EndsWith(k, suffix)
    ensures Contains(k, suffix)
  {
    var front :| k == front + suffix;
    assert k == front + suffix + [];
  }

  /** Ending with is transitive: a key that ends with `s` ends with every suffix of `s`. */
  lemma EndsWithTransitive(k: Key, s: Key, t: Key)
    requires EndsWith(k, s) && EndsWith(s, t)
    ensures EndsWith(k, t)
  {
    var f1 :| k == f1 + s;
    var f2 :| s == f2 + t;
    assert k == (f1 + f2) + t;
  }

  /** Containment is transitive: a key that contains `g` contains every fragment of `g`. */
  lemma ContainsTransitive(k: Key, g: Key, f: Key)
    requires Contains(k, g) && Contains(g, f)
    ensures Contains(k, f)
  {
    var a, b :| k == a + g + b;
    var c, d :| g == c + f + d;
    assert k == (a + c) + f + (d + b);
  }

  /** The empty suffix ends every key and the empty fragment occurs in every key. */
  lemma EmptyMatchesEverything(k: Key)
    ensures EndsWith(k, []) && Contains(k, [])
  {
    assert k == k + [];
    assert k == k + [] + [];
  }

  /** Ending with a suffix is the same as the key's last |suffix| characters being that suffix. */
  lemma EndsWithIffLastCharacters(k: Key, suffix: Key)
    ensures EndsWith(k, suffix) <==> |suffix| <= |k| && k[|k| - |suffix|..] == suffix
  {
    if |suffix| <= |k| && k[|k| - |suffix|..] == suffix {
      assert k == k[..|k| - |suffix|] + suffix;
    }
  }
}
