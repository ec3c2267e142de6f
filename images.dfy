/**
 * Turning a set of matched keys into the values they are associated with: as a
 * set (duplicates collapse) or as a multiset (one element per key).
 */
module Images {

  /** The values that the keys `ks` are associated with in `m`, each value once. */
  function Image<K, V>(m: map<K, V>, ks: set<K>): (vs: set<V>)
    requires ks <= m.Keys
  {
    set k | k in ks :: m[k]
  }

  /** The values that the keys `ks` are associated with in `m`, one element per key. */
  ghost function Bag<K, V>(m: map<K, V>, ks: set<K>): multiset<V>
    requires ks <= m.Keys
    decreases ks
  {
    if ks == {} then multiset{} else
      var k :| k in ks;
      multiset{m[k]} + Bag(m, ks - {k})
  }

  /** Removing one key from the key set removes its value from the image unless
      another remaining key still maps to it. */
  lemma ImageWithout<K, V>(m: map<K, V>, ks: set<K>, k: K)
    requires ks <= m.Keys && k in ks
    ensures Image(m, ks) == Image(m, ks - {k}) + {m[k]}
  {
  }

  /** Collapsing duplicates never makes the value set larger than the key set. */
  lemma {:induction false} ImageNoLarger<K, V>(m: map<K, V>, ks: set<K>)
    requires ks <= m.Keys
    ensures |Image(m, ks)| <= |ks|
    decreases ks
  {
    if ks != {} {
      var k :| k in ks;
      ImageWithout(m, ks, k);
      ImageNoLarger(m, ks - {k});
    }
  }

  /** Two distinct keys with the same value are reported once: the value set is
      strictly smaller than the key set. */
  lemma ImageCollapsesDuplicates<K, V>(m: map<K, V>, ks: set<K>, k1: K, k2: K)
    requires ks <= m.Keys && k1 in ks && k2 in ks && k1 != k2 && m[k1] == m[k2]
    ensures |Image(m, ks)| < |ks|
  {
    ImageWithout(m, ks, k1);
    assert m[k1] in Image(m, ks - {k1});
    assert Image(m, ks) == Image(m, ks - {k1});
    ImageNoLarger(m, ks - {k1});
  }

  /** Each value occurs in the bag as often as keys map to it. */
  lemma {:induction false} BagMultiplicity<K, V>(m: map<K, V>, ks: set<K>, v: V)
    requires ks <= m.Keys
    ensures Bag(m, ks)[v] == |set k | k in ks && m[k] == v|
    decreases ks
  {
    if ks != {} {
      var k :| k in ks && Bag(m, ks) == multiset{m[k]} + Bag(m, ks - {k});
      BagMultiplicity(m, ks - {k}, v);
      var rest := set j | j in ks - {k} && m[j] == v;
      if m[k] == v {
        assert (set j | j in ks && m[j] == v) == rest + {k};
      } else {
        assert (set j | j in ks && m[j] == v) == rest;
      }
    }
  }

  /** The bag holds one element per key. */
  lemma {:induction false} BagSize<K, V>(m: map<K, V>, ks: set<K>)
    requires ks <= m.Keys
    ensures |Bag(m, ks)| == |ks|
    decreases ks
  {
    if ks != {} {
      var k :| k in ks && Bag(m, ks) == multiset{m[k]} + Bag(m, ks - {k});
      BagSize(m, ks - {k});
    }
  }

  /** The bag holds exactly the values of the image, possibly repeated. */
  lemma BagSupport<K, V>(m: map<K, V>, ks: set<K>, v: V)
    requires ks <= m.Keys
    ensures v in Bag(m, ks) <==> v in Image(m, ks)
  {
  }
}
