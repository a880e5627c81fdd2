/**
  Sequences of (key, value) pairs, the form in which the model reports what a
  container's iterate function hands to its callback, one pair per call.
 */
module Pairs {

  /** The map obtained by storing the pairs one after another, later pairs winning. */
  function ToMap<K(==), V>(s: seq<(K, V)>): map<K, V> {
    if s == [] then map[] else ToMap(s[..|s| - 1])[s[|s| - 1].0 := s[|s| - 1].1]
  }

  /** The keys that occur in the pairs. */
  function KeysOf<K, V>(s: seq<(K, V)>): set<K> {
    set i | 0 <= i < |s| :: s[i].0
  }

  /** No key occurs twice. */
  predicate DistinctKeys<K(==), V>(s: seq<(K, V)>) {
    forall i, j :: 0 <= i < j < |s| ==> s[i].0 != s[j].0
  }

  lemma {:induction false} ToMapKeys<K, V>(s: seq<(K, V)>)
    ensures ToMap(s).Keys == KeysOf(s)
  {
    if s != [] {
      var p := s[..|s| - 1];
      ToMapKeys(p);
      assert KeysOf(s) == KeysOf(p) + {s[|s| - 1].0} by {
        forall k | k in KeysOf(s) ensures k in KeysOf(p) + {s[|s| - 1].0} {
          var i :| 0 <= i < |s| && s[i].0 == k;
          if i < |s| - 1 {
            assert p[i] == s[i];
          }
        }
        forall k | k in KeysOf(p) ensures k in KeysOf(s) {
          var i :| 0 <= i < |p| && p[i].0 == k;
          assert s[i] == p[i];
        }
      }
    }
  }

  lemma {:induction false} ToMapAppend<K, V>(a: seq<(K, V)>, b: seq<(K, V)>)
    ensures ToMap(a + b) == ToMap(a) + ToMap(b)
  {
    if b == [] {
      assert a + b == a;
    } else {
      var b' := b[..|b| - 1];
      assert (a + b)[..|a + b| - 1] == a + b';
      ToMapAppend(a, b');
    }
  }

  /** The pairs of a left walk, an entry and a right walk, as a map. */
  lemma JoinToMap<K, V>(l: seq<(K, V)>, k: K, v: V, r: seq<(K, V)>)
    ensures ToMap(l + [(k, v)] + r) == ToMap(l) + map[k := v] + ToMap(r)
  {
    ToMapAppend(l, [(k, v)]);
    ToMapAppend(l + [(k, v)], r);
    assert [(k, v)][..0] == [];
  }

  /** Updating a key of the left operand of `+` that the right one lacks. */
  lemma UpdateBefore<K, V>(a: map<K, V>, b: map<K, V>, x: K, v: V)
    requires x !in b
    ensures a[x := v] + b == (a + b)[x := v]
  {
  }

  /** Updating a key of the right operand of `+`. */
  lemma UpdateAfter<K, V>(a: map<K, V>, b: map<K, V>, x: K, v: V)
    ensures a + b[x := v] == (a + b)[x := v]
  {
  }

  /** With distinct keys, every pair is in the map as given. */
  lemma {:induction false} ToMapAt<K, V>(s: seq<(K, V)>, i: int)
    requires DistinctKeys(s)
    requires 0 <= i < |s|
    ensures s[i].0 in ToMap(s) && ToMap(s)[s[i].0] == s[i].1
  {
    if i < |s| - 1 {
      var p := s[..|s| - 1];
      assert p[i] == s[i];
      ToMapAt(p, i);
    }
  }

  /** With distinct keys, the key of pair i is not among the pairs before it. */
  lemma NewKey<K, V>(s: seq<(K, V)>, i: int)
    requires DistinctKeys(s) && 0 <= i < |s|
    ensures s[i].0 !in ToMap(s[..i])
  {
    ToMapKeys(s[..i]);
    forall k | k in KeysOf(s[..i]) ensures k != s[i].0 {
      var j :| 0 <= j < i && s[..i][j].0 == k;
      assert s[..i][j] == s[j];
    }
  }

  /** With distinct keys, the map has one entry per pair. */
  lemma {:induction false} ToMapSize<K, V>(s: seq<(K, V)>)
    requires DistinctKeys(s)
    ensures |ToMap(s)| == |s|
  {
    if s != [] {
      var p := s[..|s| - 1];
      ToMapSize(p);
      ToMapKeys(p);
      assert s[|s| - 1].0 !in KeysOf(p);
    }
  }

  /** Two pair sequences with the same keys in the same places have the same key set. */
  lemma SameKeys<K, V, W>(s: seq<(K, V)>, t: seq<(K, W)>)
    requires |s| == |t| && forall k :: 0 <= k < |s| ==> s[k].0 == t[k].0
    ensures KeysOf(s) == KeysOf(t)
  {
    forall key | key in KeysOf(s) ensures key in KeysOf(t) {
      var k :| 0 <= k < |s| && s[k].0 == key;
      assert t[k].0 == key;
    }
    forall key | key in KeysOf(t) ensures key in KeysOf(s) {
      var k :| 0 <= k < |t| && t[k].0 == key;
      assert s[k].0 == key;
    }
  }
}
