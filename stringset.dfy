/**
  The CS50 "set" module: a map from strings to items, stored as an unbalanced
  binary search tree ordered by strcmp whose entries are linked together in
  place. An insert never overwrites: a key that is present keeps its item.

  Keys are string values, so the copy set_entry_new makes of the caller's key
  is implicit: nothing the caller does later can change a stored key.
  As in the counters module, each entry's ghost `T` is the shape of its
  subtree and `Repr` the entries it is made of.
 */
module StringSets {
  import opened Wrappers
  import opened Text
  import opened Pairs

  /** What set_find reports for a key of a map: its item, or NULL when absent. */
  function Lookup<V>(m: map<string, V>, k: string): Option<V> {
    if k in m then Some(m[k]) else None
  }

  /** Keys strictly ascending in strcmp order. */
  predicate Ascending<V>(s: seq<(string, V)>) {
    forall i, j :: 0 <= i < j < |s| ==> Less(s[i].0, s[j].0)
  }

  lemma AscendingDistinct<V>(s: seq<(string, V)>)
    requires Ascending(s)
    ensures DistinctKeys(s)
  {
    forall i, j | 0 <= i < j < |s|
      ensures s[i].0 != s[j].0
    {
      LessAsymmetric(s[i].0, s[j].0);
    }
  }

  // ---------------------------------------------------------------------
  // The tree as a value

  /** The shape of a subtree of entries: each node has a key and an item. */
  datatype Tree<V> = Leaf | Node(left: Tree<V>, key: string, item: V, right: Tree<V>)

  /** The map a subtree stands for. */
  function MapOf<V>(t: Tree<V>): map<string, V> {
    match t
    case Leaf => map[]
    case Node(l, k, v, r) => MapOf(l) + map[k := v] + MapOf(r)
  }

  /**
    The ordering insert_new_entry keeps: at every entry, the keys on the left
    sort before its key under strcmp, and the keys on the right after it.
   */
  predicate Ordered<V>(t: Tree<V>) {
    match t
    case Leaf => true
    case Node(l, k, _, r) =>
      Ordered(l) && Ordered(r) &&
      (forall x :: x in MapOf(l) ==> Less(x, k)) &&
      (forall x :: x in MapOf(r) ==> Less(k, x))
  }

  /** A key equal to, before or after an ordered node's is found there, on the left or on the right. */
  lemma LookupAt<V>(t: Tree<V>, x: string)
    requires Ordered(t) && t.Node?
    ensures x == t.key ==> Lookup(MapOf(t), x) == Some(t.item)
    ensures Less(x, t.key) ==> Lookup(MapOf(t), x) == Lookup(MapOf(t.left), x)
    ensures Less(t.key, x) ==> Lookup(MapOf(t), x) == Lookup(MapOf(t.right), x)
  {
    var Node(l, k, v, r) := t;
    if x == k {
      LessIrreflexive(x);
      assert x !in MapOf(r);
    } else if Less(x, k) {
      LessAsymmetric(x, k);
      assert x !in MapOf(r);
    } else if Less(k, x) {
      LessAsymmetric(k, x);
      assert x !in MapOf(l);
    }
  }

  /**
    The tree insert_new_entry leaves: the search for k runs down as in
    set_find_entry, and a new single entry for k takes the empty place where
    it ends; when the search finds k, the tree is unchanged.
   */
  function InsertT<V>(t: Tree<V>, k: string, v: V): Tree<V> {
    match t
    case Leaf => Node(Leaf, k, v, Leaf)
    case Node(l, x, w, r) =>
      var c := Strcmp(k, x);
      if c == 0 then t
      else if c > 0 then Node(l, x, w, InsertT(r, k, v))
      else Node(InsertT(l, k, v), x, w, r)
  }

  /**
    On an ordered tree, inserting an absent key adds exactly that key and
    keeps the order; inserting a present key changes nothing.
   */
  lemma {:induction false} InsertTSpec<V>(t: Tree<V>, k: string, v: V)
    requires Ordered(t)
    ensures Ordered(InsertT(t, k, v))
    ensures k in MapOf(t) ==> InsertT(t, k, v) == t
    ensures k !in MapOf(t) ==> MapOf(InsertT(t, k, v)) == MapOf(t)[k := v]
  {
    match t
    case Leaf =>
      Single(k, v);
    case Node(l, x, w, r) =>
      LookupAt(t, k);
      var c := Strcmp(k, x);
      if c > 0 {
        InsertTSpec(r, k, v);
        if k !in MapOf(t) {
          var r' := InsertT(r, k, v);
          forall y | y in MapOf(r')
            ensures Less(x, y)
          {
            assert y == k || y in MapOf(r);
          }
          UpdateAfter(MapOf(l) + map[x := w], MapOf(r), k, v);
        }
      } else if c < 0 {
        InsertTSpec(l, k, v);
        if k !in MapOf(t) {
          var l' := InsertT(l, k, v);
          assert k !in MapOf(r) by {
            LessAsymmetric(k, x);
          }
          forall y | y in MapOf(l')
            ensures Less(y, x)
          {
            assert y == k || y in MapOf(l);
          }
          UpdateBefore(MapOf(l), map[x := w], k, v);
          UpdateBefore(MapOf(l) + map[x := w], MapOf(r), k, v);
        }
      }
  }

  /** A single entry stands for one key. */
  lemma Single<V>(k: string, v: V)
    ensures Ordered(Node(Leaf, k, v, Leaf))
    ensures MapOf(Node(Leaf, k, v, Leaf)) == map[k := v]
  {
    assert MapOf(Node(Leaf, k, v, Leaf)) == map[] + map[k := v] + map[];
  }

  /** Keys before, the entry, keys after: the joined walk ascends. */
  lemma JoinAscending<V>(l: seq<(string, V)>, k: string, v: V, r: seq<(string, V)>)
    requires Ascending(l) && Ascending(r)
    requires forall x :: x in KeysOf(l) ==> Less(x, k)
    requires forall x :: x in KeysOf(r) ==> Less(k, x)
    ensures Ascending(l + [(k, v)] + r)
  {
    var s := l + [(k, v)] + r;
    forall i, j | 0 <= i < j < |s|
      ensures Less(s[i].0, s[j].0)
    {
      if i < |l| {
        assert l[i].0 in KeysOf(l);
      }
      if j > |l| {
        assert r[j - |l| - 1].0 in KeysOf(r);
      }
      if i < |l| && j > |l| {
        LessTransitive(s[i].0, k, s[j].0);
      }
    }
  }

  /** The pairs of an entry, then a left walk, then a right walk, with no key shared. */
  lemma PreOrderToMap<V>(k: string, v: V, l: seq<(string, V)>, r: seq<(string, V)>)
    requires DistinctKeys(l) && DistinctKeys(r)
    requires k !in KeysOf(l) && k !in KeysOf(r) && KeysOf(l) !! KeysOf(r)
    ensures DistinctKeys([(k, v)] + l + r)
    ensures ToMap([(k, v)] + l + r) == ToMap(l) + map[k := v] + ToMap(r)
  {
    PreOrderDistinct(k, v, l, r);
    PreOrderMap(k, v, l, r);
  }

  /** Where each pair of the entry-left-right walk comes from. */
  lemma PreOrderAt<V>(k: string, v: V, l: seq<(string, V)>, r: seq<(string, V)>, i: int)
    requires 0 <= i < 1 + |l| + |r|
    ensures ([(k, v)] + l + r)[i] == if i == 0 then (k, v) else if i <= |l| then l[i - 1] else r[i - |l| - 1]
  {
  }

  lemma PreOrderDistinct<V>(k: string, v: V, l: seq<(string, V)>, r: seq<(string, V)>)
    requires DistinctKeys(l) && DistinctKeys(r)
    requires k !in KeysOf(l) && k !in KeysOf(r) && KeysOf(l) !! KeysOf(r)
    ensures DistinctKeys([(k, v)] + l + r)
  {
    var s := [(k, v)] + l + r;
    forall i, j | 0 <= i < j < |s|
      ensures s[i].0 != s[j].0
    {
      PreOrderAt(k, v, l, r, i);
      PreOrderAt(k, v, l, r, j);
      if 0 < i <= |l| < j {
        assert l[i - 1].0 in KeysOf(l);
        assert r[j - |l| - 1].0 in KeysOf(r);
      } else if i == 0 && j <= |l| {
        assert l[j - 1].0 in KeysOf(l);
      } else if i == 0 {
        assert r[j - |l| - 1].0 in KeysOf(r);
      }
    }
  }

  lemma PreOrderMap<V>(k: string, v: V, l: seq<(string, V)>, r: seq<(string, V)>)
    requires k !in KeysOf(l)
    ensures ToMap([(k, v)] + l + r) == ToMap(l) + map[k := v] + ToMap(r)
  {
    ToMapAppend([(k, v)], l);
    ToMapAppend([(k, v)] + l, r);
    assert [(k, v)][..0] == [];
    ToMapKeys(l);
    assert ToMap([(k, v)]) + ToMap(l) == ToMap(l) + map[k := v];
  }

  // ---------------------------------------------------------------------
  // Entries

  /** One node of the tree: set_entry. */
  class SetEntry<V> {
    var key: string
    var item: V
    var left: SetEntry?<V>
    var right: SetEntry?<V>
    ghost var T: Tree<V>
    ghost var Repr: set<SetEntry<V>>

    /** The entries form a tree whose shape is recorded in T. */
    ghost predicate Valid()
      reads this, Repr
      decreases Repr
    {
      this in Repr &&
      (left != null ==>
        left in Repr && left.Repr <= Repr && this !in left.Repr && left.Valid()) &&
      (right != null ==>
        right in Repr && right.Repr <= Repr && this !in right.Repr && right.Valid()) &&
      (left != null && right != null ==> left.Repr !! right.Repr) &&
      T == Node(LeftTree(), key, item, RightTree())
    }

    ghost function LeftTree(): Tree<V>
      reads this, left
    {
      if left == null then Leaf else left.T
    }

    ghost function RightTree(): Tree<V>
      reads this, right
    {
      if right == null then Leaf else right.T
    }

    /** set_entry_new: an entry linked to nothing, holding the key and item. */
    constructor (k: string, v: V)
      ensures Valid() && fresh(Repr) && Repr == {this}
      ensures left == null && right == null
      ensures key == k && item == v && MapOf(T) == map[k := v] && Ordered(T)
    {
      key := k;
      item := v;
      left := null;
      right := null;
      T := Node(Leaf, k, v, Leaf);
      Repr := {this};
      Single(k, v);
    }

    /** set_find_entry: the item stored under k in this subtree, or None. */
    function Find(k: string): (r: Option<V>)
      requires Valid() && Ordered(T)
      reads this, Repr
      ensures r == Lookup(MapOf(T), k)
      decreases Repr
    {
      var c := Strcmp(k, key);
      LookupAt(T, k);
      if c == 0 then Some(item)
      else if c > 0 then (if right == null then None else right.Find(k))
      else (if left == null then None else left.Find(k))
    }

    /**
      insert_new_entry: a key already present makes the insert fail and
      leaves everything as it was; otherwise a new entry for it is linked in
      where the search for it ended.
     */
    method Insert(k: string, v: V) returns (ok: bool)
      requires Valid()
      modifies Repr
      ensures Valid() && fresh(Repr - old(Repr))
      ensures T == InsertT(old(T), k, v)
      ensures ok <==> old(T) != T
      decreases Repr, 1
    {
      ghost var l, r := LeftTree(), RightTree();
      var c := Strcmp(k, key);
      if c == 0 {
        ok := false;
      } else if c > 0 {
        ok := InsertRight(k, v);
        assert InsertT(Node(l, key, item, r), k, v) == Node(l, key, item, InsertT(r, k, v));
      } else {
        ok := InsertLeft(k, v);
        assert InsertT(Node(l, key, item, r), k, v) == Node(InsertT(l, k, v), key, item, r);
      }
    }

    /** The insertion goes on in the right subtree, or links a new entry there. */
    method InsertRight(k: string, v: V) returns (ok: bool)
      requires Valid() && Strcmp(k, key) > 0
      modifies Repr
      ensures Valid() && fresh(Repr - old(Repr)) && key == old(key) && item == old(item)
      ensures T == Node(old(LeftTree()), key, item, InsertT(old(RightTree()), k, v))
      ensures ok <==> old(RightTree()) != RightTree()
      decreases Repr, 0
    {
      if right != null {
        ok := right.Insert(k, v);
        Repr, T := Repr + right.Repr, Node(LeftTree(), key, item, right.T);
      } else {
        var n := new SetEntry(k, v);
        right := n;
        Repr, T := Repr + {n}, Node(LeftTree(), key, item, n.T);
        ok := true;
      }
    }

    /** The insertion goes on in the left subtree, or links a new entry there. */
    method InsertLeft(k: string, v: V) returns (ok: bool)
      requires Valid() && Strcmp(k, key) < 0
      modifies Repr
      ensures Valid() && fresh(Repr - old(Repr)) && key == old(key) && item == old(item)
      ensures T == Node(InsertT(old(LeftTree()), k, v), key, item, old(RightTree()))
      ensures ok <==> old(LeftTree()) != LeftTree()
      decreases Repr, 0
    {
      if left != null {
        ok := left.Insert(k, v);
        Repr, T := Repr + left.Repr, Node(left.T, key, item, RightTree());
      } else {
        var n := new SetEntry(k, v);
        left := n;
        Repr, T := Repr + {n}, Node(n.T, key, item, RightTree());
        ok := true;
      }
    }

    /**
      entry_iterate: the (key, item) pairs the callback receives, left subtree
      first, then this entry, then the right subtree.
     */
    function Walk(): (s: seq<(string, V)>)
      requires Valid() && Ordered(T)
      reads this, Repr
      ensures Ascending(s) && ToMap(s) == MapOf(T)
      decreases Repr
    {
      var l := if left == null then [] else left.Walk();
      var r := if right == null then [] else right.Walk();
      ToMapKeys(l);
      ToMapKeys(r);
      JoinToMap(l, key, item, r);
      JoinAscending(l, key, item, r);
      l + [(key, item)] + r
    }

    /**
      set_entry_delete: the (key, item) pairs whose item is handed to
      itemdelete, this entry first, then the left subtree, then the right.
     */
    function DeleteOrder(): (s: seq<(string, V)>)
      requires Valid() && Ordered(T)
      reads this, Repr
      ensures DistinctKeys(s) && ToMap(s) == MapOf(T)
      decreases Repr
    {
      var l := if left == null then [] else left.DeleteOrder();
      var r := if right == null then [] else right.DeleteOrder();
      ToMapKeys(l);
      ToMapKeys(r);
      assert key !in KeysOf(l) && key !in KeysOf(r) && KeysOf(l) !! KeysOf(r) by {
        LessIrreflexive(key);
        forall x | x in KeysOf(l) && x in KeysOf(r)
          ensures false
        {
          LessTransitive(x, key, x);
          LessIrreflexive(x);
        }
      }
      PreOrderToMap(key, item, l, r);
      [(key, item)] + l + r
    }
  }

  // ---------------------------------------------------------------------
  // The set handle

  /** set_t: the handle holding the tree's root, NULL when empty. */
  class StringSet<V> {
    var root: SetEntry?<V>
    ghost var Contents: map<string, V>
    ghost var Repr: set<object>

    ghost predicate Valid()
      reads this, Repr
    {
      this in Repr &&
      (root == null ==> Contents == map[]) &&
      (root != null ==>
        root in Repr && root.Repr <= Repr && root.Valid() && Ordered(root.T) &&
        Contents == MapOf(root.T))
    }

    /** set_new: an empty set. */
    constructor ()
      ensures Valid() && fresh(Repr) && Contents == map[]
    {
      root := null;
      Contents := map[];
      Repr := {this};
    }

    /**
      set_insert: true, with the key now mapped to the item, when the key was
      absent; false, with nothing changed, when it was already present.
     */
    method Insert(key: string, item: V) returns (ok: bool)
      requires Valid()
      modifies Repr
      ensures Valid() && fresh(Repr - old(Repr))
      ensures ok <==> key !in old(Contents)
      ensures ok ==> Contents == old(Contents)[key := item]
      ensures !ok ==> Contents == old(Contents)
    {
      if root == null {
        root := new SetEntry(key, item);
        ok := true;
      } else {
        InsertTSpec(root.T, key, item);
        ok := root.Insert(key, item);
      }
      Repr, Contents := Repr + root.Repr, MapOf(root.T);
    }

    /** set_find: the key's item, or None for an empty set or an absent key. */
    function Find(key: string): (r: Option<V>)
      requires Valid()
      reads this, Repr
      ensures r == Lookup(Contents, key)
    {
      if root == null then None else root.Find(key)
    }

    /**
      set_iterate: the (key, item) pairs the callback receives, every entry
      exactly once, keys ascending in strcmp order.
     */
    function Iterate(): (s: seq<(string, V)>)
      requires Valid()
      reads this, Repr
      ensures Ascending(s) && DistinctKeys(s)
      ensures ToMap(s) == Contents && |s| == |Contents|
    {
      var s := if root == null then [] else root.Walk();
      AscendingDistinct(s);
      ToMapSize(s);
      s
    }

    /**
      set_delete: the (key, item) pairs whose item is handed to itemdelete,
      every entry exactly once (when no itemdelete is given, nothing is).
     */
    function DeleteOrder(): (s: seq<(string, V)>)
      requires Valid()
      reads this, Repr
      ensures DistinctKeys(s) && ToMap(s) == Contents && |s| == |Contents|
    {
      var s := if root == null then [] else root.DeleteOrder();
      ToMapSize(s);
      s
    }
  }

  /**
    Inserting a key twice keeps the first item: the second insert fails and
    find still returns the first.
   */
  method InsertTwice<V>(key: string, first: V, second: V) returns (ok1: bool, ok2: bool, found: Option<V>)
    ensures ok1 && !ok2 && found == Some(first)
  {
    var s := new StringSet<V>();
    ok1 := s.Insert(key, first);
    ok2 := s.Insert(key, second);
    found := s.Find(key);
  }
}
