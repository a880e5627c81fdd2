/**
  The CS50 "counters" module: a set of non-negative integer keys, each with a
  count, stored as an unbalanced binary search tree of entries that the
  module links together and updates in place.

  Every entry owns the entries below it. Its ghost field `T` is the shape of
  its subtree as a value, and `Repr` the entries the subtree is made of; the
  map a subtree stands for is `MapOf(T)`.
 */
module Counters {
  import opened Pairs

  /** What counters_get reports for a key of a map: its count, or 0 when absent. */
  function Count(m: map<int, int>, k: int): int {
    if k in m then m[k] else 0
  }

  /** The map after a successful counters_add(k). */
  function Increment(m: map<int, int>, k: int): map<int, int> {
    m[k := Count(m, k) + 1]
  }

  /** counters_add applied to each key in turn; negative keys are refused. */
  function AddAll(m: map<int, int>, keys: seq<int>): map<int, int> {
    if keys == [] then m
    else
      var last := keys[|keys| - 1];
      var before := AddAll(m, keys[..|keys| - 1]);
      if last < 0 then before else Increment(before, last)
  }

  /**
    After any sequence of counters_add calls on a new counters, each
    non-negative key's count is the number of times it was added.
   */
  lemma {:induction false} AddAllCounts(keys: seq<int>, k: int)
    requires k >= 0
    ensures Count(AddAll(map[], keys), k) == multiset(keys)[k]
  {
    if keys != [] {
      var init := keys[..|keys| - 1];
      AddAllCounts(init, k);
      assert keys == init + [keys[|keys| - 1]];
    }
  }

  /** Keys strictly ascending: every key once, in order. */
  predicate Increasing(s: seq<(int, int)>) {
    forall i, j :: 0 <= i < j < |s| ==> s[i].0 < s[j].0
  }

  /** A walk whose keys ascend never repeats a key. */
  lemma IncreasingDistinct(s: seq<(int, int)>)
    requires Increasing(s)
    ensures DistinctKeys(s)
  {
  }

  // ---------------------------------------------------------------------
  // The tree as a value

  /** The shape of a subtree of entries: each node has a key and a count. */
  datatype Tree = Leaf | Node(left: Tree, key: int, count: int, right: Tree)

  /** The map a subtree stands for. */
  function MapOf(t: Tree): map<int, int> {
    match t
    case Leaf => map[]
    case Node(l, k, c, r) => MapOf(l) + map[k := c] + MapOf(r)
  }

  /**
    The search-tree ordering the module keeps: at every entry, the keys on
    the left are smaller and the keys on the right larger.
   */
  predicate Ordered(t: Tree) {
    match t
    case Leaf => true
    case Node(l, k, _, r) =>
      Ordered(l) && Ordered(r) &&
      (forall x :: x in MapOf(l) ==> x < k) &&
      (forall x :: x in MapOf(r) ==> k < x)
  }

  /** A key at, below or above an ordered node is found at, left of or right of it. */
  lemma CountAt(t: Tree, x: int)
    requires Ordered(t) && t.Node?
    ensures x == t.key ==> Count(MapOf(t), x) == t.count
    ensures x < t.key ==> Count(MapOf(t), x) == Count(MapOf(t.left), x)
    ensures t.key < x ==> Count(MapOf(t), x) == Count(MapOf(t.right), x)
  {
  }

  /**
    Updating one key below the left of an ordered node updates the whole
    subtree's map the same way and keeps it ordered.
   */
  lemma UpdateLeft(l: Tree, l': Tree, k: int, c: int, r: Tree, x: int, v: int)
    requires Ordered(Node(l, k, c, r)) && Ordered(l') && x < k
    requires MapOf(l') == MapOf(l)[x := v]
    ensures Ordered(Node(l', k, c, r))
    ensures MapOf(Node(l', k, c, r)) == MapOf(Node(l, k, c, r))[x := v]
  {
    assert x !in MapOf(r);
    forall y | y in MapOf(l')
      ensures y < k
    {
      assert y == x || y in MapOf(l);
    }
    UpdateBefore(MapOf(l), map[k := c], x, v);
    UpdateBefore(MapOf(l) + map[k := c], MapOf(r), x, v);
  }

  lemma UpdateRight(l: Tree, k: int, c: int, r: Tree, r': Tree, x: int, v: int)
    requires Ordered(Node(l, k, c, r)) && Ordered(r') && k < x
    requires MapOf(r') == MapOf(r)[x := v]
    ensures Ordered(Node(l, k, c, r'))
    ensures MapOf(Node(l, k, c, r')) == MapOf(Node(l, k, c, r))[x := v]
  {
    forall y | y in MapOf(r')
      ensures k < y
    {
      assert y == x || y in MapOf(r);
    }
    UpdateAfter(MapOf(l) + map[k := c], MapOf(r), x, v);
  }

  lemma UpdateHere(l: Tree, k: int, c: int, r: Tree, v: int)
    requires Ordered(Node(l, k, c, r))
    ensures Ordered(Node(l, k, v, r))
    ensures MapOf(Node(l, k, v, r)) == MapOf(Node(l, k, c, r))[k := v]
  {
    assert k !in MapOf(r);
  }

  /** A single entry stands for one key. */
  lemma Single(k: int, c: int)
    ensures Ordered(Node(Leaf, k, c, Leaf))
    ensures MapOf(Node(Leaf, k, c, Leaf)) == map[k := c]
  {
    assert MapOf(Node(Leaf, k, c, Leaf)) == map[] + map[k := c] + map[];
  }

  /** Smaller keys, the entry, larger keys: the joined walk ascends. */
  lemma JoinIncreasing(l: seq<(int, int)>, k: int, c: int, r: seq<(int, int)>)
    requires Increasing(l) && Increasing(r)
    requires forall x :: x in KeysOf(l) ==> x < k
    requires forall x :: x in KeysOf(r) ==> k < x
    ensures Increasing(l + [(k, c)] + r)
  {
    var s := l + [(k, c)] + r;
    forall i, j | 0 <= i < j < |s|
      ensures s[i].0 < s[j].0
    {
      if i < |l| {
        assert l[i].0 in KeysOf(l);
      }
      if j > |l| {
        assert r[j - |l| - 1].0 in KeysOf(r);
      }
    }
  }

  // ---------------------------------------------------------------------
  // Entries

  /** One node of the tree: counters_entry. */
  class Entry {
    var key: int
    var count: int
    var left: Entry?
    var right: Entry?
    ghost var T: Tree
    ghost var Repr: set<Entry>

    /**
      The entries form a tree (each subtree owns its entries, and the two
      subtrees share none) whose shape is recorded in T.
     */
    ghost predicate Valid()
      reads this, Repr
      decreases Repr
    {
      this in Repr &&
      (left != null ==>
        left in Repr && left.Repr <= Repr && this !in left.Repr && left.Valid()) &&
      (right != null ==>
        right in Repr && right.Repr <= Repr && this !in right.Repr && right.Valid()) &&
      (left != null && right != null ==> left.Repr !! right.Repr) &&
      T == Node(LeftTree(), key, count, RightTree())
    }

    ghost function LeftTree(): Tree
      reads this, left
    {
      if left == null then Leaf else left.T
    }

    ghost function RightTree(): Tree
      reads this, right
    {
      if right == null then Leaf else right.T
    }

    /** An entry linked to nothing. */
    ghost predicate Lone()
      reads this, Repr
    {
      Valid() && Repr == {this} && left == null && right == null
    }

    /** counters_entry_new: a single entry whose count starts at 1. */
    constructor (k: int)
      ensures Lone() && fresh(Repr)
      ensures key == k && count == 1
    {
      key := k;
      count := 1;
      left := null;
      right := null;
      T := Node(Leaf, k, 1, Leaf);
      Repr := {this};
    }

    /** counters_get_entry: the count stored for k in this subtree, or 0. */
    function Get(k: int): (r: int)
      requires Valid() && Ordered(T)
      reads this, Repr
      ensures r == Count(MapOf(T), k)
      decreases Repr
    {
      CountAt(T, k);
      if k == key then count
      else if k < key then (if left == null then 0 else left.Get(k))
      else (if right == null then 0 else right.Get(k))
    }

    /**
      add_new_entry: increments k's count when k is present, and otherwise
      links in a new entry for k whose count is 1. The result is k's count
      afterwards.
     */
    method AddNew(k: int) returns (r: int)
      requires Valid() && Ordered(T)
      modifies Repr
      ensures Valid() && Ordered(T)
      ensures r == Count(old(MapOf(T)), k) + 1
      ensures MapOf(T) == old(MapOf(T))[k := r]
      ensures fresh(Repr - old(Repr))
      decreases Repr, 1
    {
      if key == k {
        ghost var l, c, rt := LeftTree(), count, RightTree();
        CountAt(T, key);
        UpdateHere(l, key, c, rt, c + 1);
        count := count + 1;
        r := count;
        T := Node(l, key, count, rt);
        CountAt(T, key);
      } else if k < key {
        if left != null {
          r := AddLeft(k);
        } else {
          var n := NewEntry(k, 1);
          AttachLeft(n);
          r := n.count;
          CountAt(T, k);
        }
      } else {
        if right != null {
          r := AddRight(k);
        } else {
          var n := NewEntry(k, 1);
          AttachRight(n);
          r := n.count;
          CountAt(T, k);
        }
      }
    }

    /** add_new_entry's recursive call into the left subtree. */
    method AddLeft(k: int) returns (r: int)
      requires Valid() && Ordered(T) && k < key && left != null
      modifies Repr
      ensures Valid() && Ordered(T)
      ensures r == Count(old(MapOf(T)), k) + 1
      ensures MapOf(T) == old(MapOf(T))[k := r]
      ensures fresh(Repr - old(Repr))
      decreases Repr, 0
    {
      ghost var l, rt := left.T, RightTree();
      CountAt(T, k);
      r := left.AddNew(k);
      UpdateLeft(l, left.T, key, count, rt, k, r);
      Repr, T := Repr + left.Repr, Node(left.T, key, count, rt);
    }

    /** add_new_entry's recursive call into the right subtree. */
    method AddRight(k: int) returns (r: int)
      requires Valid() && Ordered(T) && key < k && right != null
      modifies Repr
      ensures Valid() && Ordered(T)
      ensures r == Count(old(MapOf(T)), k) + 1
      ensures MapOf(T) == old(MapOf(T))[k := r]
      ensures fresh(Repr - old(Repr))
      decreases Repr, 0
    {
      ghost var l, rt := LeftTree(), right.T;
      CountAt(T, k);
      r := right.AddNew(k);
      UpdateRight(l, key, count, rt, right.T, k, r);
      Repr, T := Repr + right.Repr, Node(l, key, count, right.T);
    }

    /** Links the lone entry n as the missing left child. */
    method AttachLeft(n: Entry)
      requires Valid() && Ordered(T) && n.Lone() && n !in Repr && n.key < key && left == null
      modifies this
      ensures Valid() && Ordered(T)
      ensures MapOf(T) == old(MapOf(T))[n.key := n.count]
      ensures Count(old(MapOf(T)), n.key) == 0
      ensures Repr == old(Repr) + {n}
    {
      ghost var rt := RightTree();
      CountAt(T, n.key);
      Single(n.key, n.count);
      UpdateLeft(Leaf, n.T, key, count, rt, n.key, n.count);
      left := n;
      Repr, T := Repr + {n}, Node(n.T, key, count, rt);
    }

    /** Links the lone entry n as the missing right child. */
    method AttachRight(n: Entry)
      requires Valid() && Ordered(T) && n.Lone() && n !in Repr && key < n.key && right == null
      modifies this
      ensures Valid() && Ordered(T)
      ensures MapOf(T) == old(MapOf(T))[n.key := n.count]
      ensures Count(old(MapOf(T)), n.key) == 0
      ensures Repr == old(Repr) + {n}
    {
      ghost var l := LeftTree();
      CountAt(T, n.key);
      Single(n.key, n.count);
      UpdateRight(l, key, count, Leaf, n.T, n.key, n.count);
      right := n;
      Repr, T := Repr + {n}, Node(l, key, count, n.T);
    }

    /**
      counters_set_entry: sets k's count to c, linking in a new entry when k
      is absent. Allocation failure ends the program, so it always succeeds.
     */
    method SetEntry(k: int, c: int) returns (ok: bool)
      requires Valid() && Ordered(T)
      modifies Repr
      ensures Valid() && Ordered(T) && ok
      ensures MapOf(T) == old(MapOf(T))[k := c]
      ensures fresh(Repr - old(Repr))
      decreases Repr, 1
    {
      if key == k {
        ghost var l, cnt, rt := LeftTree(), count, RightTree();
        UpdateHere(l, key, cnt, rt, c);
        count := c;
        T := Node(l, key, count, rt);
      } else if k < key {
        if left != null {
          ok := SetLeft(k, c);
        } else {
          var n := NewEntry(k, c);
          AttachLeft(n);
        }
      } else {
        if right != null {
          ok := SetRight(k, c);
        } else {
          var n := NewEntry(k, c);
          AttachRight(n);
        }
      }
      ok := true;
    }

    /** counters_set_entry's recursive call into the left subtree. */
    method SetLeft(k: int, c: int) returns (ok: bool)
      requires Valid() && Ordered(T) && k < key && left != null
      modifies Repr
      ensures Valid() && Ordered(T) && ok
      ensures MapOf(T) == old(MapOf(T))[k := c]
      ensures fresh(Repr - old(Repr))
      decreases Repr, 0
    {
      ghost var l, rt := left.T, RightTree();
      ok := left.SetEntry(k, c);
      UpdateLeft(l, left.T, key, count, rt, k, c);
      Repr, T := Repr + left.Repr, Node(left.T, key, count, rt);
    }

    /** counters_set_entry's recursive call into the right subtree. */
    method SetRight(k: int, c: int) returns (ok: bool)
      requires Valid() && Ordered(T) && key < k && right != null
      modifies Repr
      ensures Valid() && Ordered(T) && ok
      ensures MapOf(T) == old(MapOf(T))[k := c]
      ensures fresh(Repr - old(Repr))
      decreases Repr, 0
    {
      ghost var l, rt := LeftTree(), right.T;
      ok := right.SetEntry(k, c);
      UpdateRight(l, key, count, rt, right.T, k, c);
      Repr, T := Repr + right.Repr, Node(l, key, count, right.T);
    }

    /**
      entry_iterate: the (key, count) pairs the callback receives, left
      subtree first, then this entry, then the right subtree.
     */
    function Walk(): (s: seq<(int, int)>)
      requires Valid() && Ordered(T)
      reads this, Repr
      ensures Increasing(s) && ToMap(s) == MapOf(T)
      decreases Repr
    {
      var l := if left == null then [] else left.Walk();
      var r := if right == null then [] else right.Walk();
      ToMapKeys(l);
      ToMapKeys(r);
      JoinToMap(l, key, count, r);
      JoinIncreasing(l, key, count, r);
      l + [(key, count)] + r
    }
  }

  /**
    counters_entry_new followed by the caller's assignment of the count, as
    counters_set and counters_set_entry do for a key they must create.
   */
  method NewEntry(k: int, c: int) returns (n: Entry)
    ensures n.Lone() && fresh(n.Repr)
    ensures n.key == k && n.count == c && MapOf(n.T) == map[k := c]
  {
    n := new Entry(k);
    n.count := c;
    n.T := Node(Leaf, k, c, Leaf);
    Single(k, c);
  }

  // ---------------------------------------------------------------------
  // The counters handle

  /** counters_t: the handle holding the tree's root, NULL when empty. */
  class Counters {
    var root: Entry?
    ghost var Contents: map<int, int>
    ghost var Repr: set<object>

    /**
      The root's tree is ordered and stands for Contents, and, as add and set
      refuse anything else, no key or count is negative.
     */
    ghost predicate Valid()
      reads this, Repr
    {
      this in Repr &&
      (root == null ==> Contents == map[]) &&
      (root != null ==>
        root in Repr && root.Repr <= Repr && root.Valid() && Ordered(root.T) &&
        Contents == MapOf(root.T)) &&
      forall k :: k in Contents ==> k >= 0 && Contents[k] >= 0
    }

    /** counters_new: an empty counters. */
    constructor ()
      ensures Valid() && fresh(Repr)
      ensures Contents == map[]
    {
      root := null;
      Contents := map[];
      Repr := {this};
    }

    /**
      counters_add: a negative key is refused with result 0 and no change;
      otherwise the key's count goes up by one (an absent key starts at 1)
      and the new count is returned.
     */
    method Add(key: int) returns (r: int)
      requires Valid()
      modifies Repr
      ensures Valid() && fresh(Repr - old(Repr))
      ensures key < 0 ==> r == 0 && Contents == old(Contents)
      ensures key >= 0 ==> Contents == Increment(old(Contents), key) && r == Contents[key] && r >= 1
    {
      if key < 0 {
        return 0;
      }
      if root == null {
        root := new Entry(key);
        r := 1;
        Single(key, 1);
      } else {
        r := root.AddNew(key);
      }
      Adopt();
    }

    /**
      counters_set: a negative key or count is refused with false and no
      change; otherwise the key's count becomes exactly `count`, creating the
      key if absent, and every other key keeps its count.
     */
    method Set(key: int, count: int) returns (ok: bool)
      requires Valid()
      modifies Repr
      ensures Valid() && fresh(Repr - old(Repr))
      ensures ok <==> key >= 0 && count >= 0
      ensures ok ==> Contents == old(Contents)[key := count]
      ensures !ok ==> Contents == old(Contents)
    {
      if key < 0 || count < 0 {
        return false;
      }
      if root == null {
        root := NewEntry(key, count);
        ok := true;
      } else {
        ok := root.SetEntry(key, count);
      }
      Adopt();
    }

    /** After an update of the root's tree, the counters stand for that tree again. */
    method Adopt()
      requires root != null && root.Valid() && Ordered(root.T)
      requires forall k :: k in MapOf(root.T) ==> k >= 0 && MapOf(root.T)[k] >= 0
      modifies this
      ensures Valid() && root == old(root)
      ensures Repr == old(Repr) + root.Repr + {this} && Contents == MapOf(root.T)
    {
      Repr, Contents := Repr + root.Repr + {this}, MapOf(root.T);
    }

    /**
      counters_get: the key's count; 0 for a negative key, an empty counters
      or an absent key.
     */
    function Get(key: int): (r: int)
      requires Valid()
      reads this, Repr
      ensures r == Count(Contents, key) && r >= 0
      ensures key < 0 ==> r == 0
    {
      if key < 0 || root == null then 0 else root.Get(key)
    }

    /**
      counters_iterate: the (key, count) pairs the callback receives, every
      entry exactly once, keys ascending.
     */
    function Iterate(): (s: seq<(int, int)>)
      requires Valid()
      reads this, Repr
      ensures Increasing(s) && DistinctKeys(s)
      ensures ToMap(s) == Contents && |s| == |Contents|
    {
      var s := if root == null then [] else root.Walk();
      IncreasingDistinct(s);
      ToMapSize(s);
      s
    }
  }

  /** Counters none of whose objects changed are as valid, and hold the same, as before. */
  twostate lemma CountersStay(c: Counters)
    requires old(c.Valid())
    requires forall o: object :: o in old(c.Repr) ==> unchanged(o)
    ensures c.Valid() && c.Contents == old(c.Contents) && c.Repr == old(c.Repr)
  {
  }

  /**
    counters_set(k, 0) makes an entry that the walk visits even though
    counters_get still reports 0 for it, as for an absent key.
   */
  method SetZero(key: int) returns (got: int, walk: seq<(int, int)>)
    requires key >= 0
    ensures got == 0 && walk == [(key, 0)]
  {
    var c := new Counters();
    var ok := c.Set(key, 0);
    got := c.Get(key);
    walk := c.Iterate();
    ToMapKeys(walk);
    assert |walk| == 1;
    assert walk[0].0 in KeysOf(walk);
  }

  /** Adding the same key twice gives counts 1 then 2. */
  method AddTwice(key: int) returns (first: int, second: int)
    requires key >= 0
    ensures first == 1 && second == 2
  {
    var c := new Counters();
    first := c.Add(key);
    second := c.Add(key);
  }
}
