/**
  The CS50 "hashtable" module: a map from strings to items kept in a fixed
  array of slots, each slot NULL until the first key that hashes to it
  arrives and then a set (the StringSets module) of the keys in that slot.

  The hash function (hash_jenkins) is a parameter of the model: any function
  that sends a key and a table size n > 0 to a slot in [0, n).
 */
module Hashtables {
  import opened Wrappers
  import opened Text
  import opened Pairs
  import opened StringSets

  /** hash_jenkins: for every key and size n > 0, some slot in [0, n). */
  type HashFn = f: (string, int) -> int | forall s, n :: 0 < n ==> 0 <= f(s, n) < n
    witness (s: string, n: int) => 0

  /** The map the slots stand for together. */
  function Union<V>(b: seq<map<string, V>>): map<string, V> {
    if b == [] then map[] else Union(b[..|b| - 1]) + b[|b| - 1]
  }

  /** Every key sits in the slot its hash names. */
  ghost predicate Hashed<V>(b: seq<map<string, V>>, hash: HashFn) {
    forall i, k :: 0 <= i < |b| && k in b[i] ==> hash(k, |b|) == i
  }

  /** The keys of the first n slots are exactly the keys that hash below n, found in their own slot. */
  lemma {:induction false} UnionPrefix<V>(b: seq<map<string, V>>, hash: HashFn, n: nat, k: string)
    requires Hashed(b, hash) && 0 < |b| && n <= |b|
    ensures var h := hash(k, |b|);
      Lookup(Union(b[..n]), k) == if h < n then Lookup(b[h], k) else None
  {
    if n > 0 {
      assert b[..n][..n - 1] == b[..n - 1];
      UnionPrefix(b, hash, n - 1, k);
      if k in b[n - 1] {
        assert hash(k, |b|) == n - 1;
      }
    }
  }

  /** In a table whose keys are hashed, a key is found in its own slot and nowhere else. */
  lemma UnionLookup<V>(b: seq<map<string, V>>, hash: HashFn, k: string)
    requires Hashed(b, hash) && |b| > 0
    ensures Lookup(Union(b), k) == Lookup(b[hash(k, |b|)], k)
  {
    UnionPrefix(b, hash, |b|, k);
    assert b[..|b|] == b;
  }

  /** Adding a key to its own slot adds it to the whole table. */
  lemma UnionAdd<V>(b: seq<map<string, V>>, hash: HashFn, k: string, v: V)
    requires Hashed(b, hash) && |b| > 0
    ensures var h := hash(k, |b|);
      Hashed(b[h := b[h][k := v]], hash) &&
      Union(b[h := b[h][k := v]]) == Union(b)[k := v]
  {
    var h := hash(k, |b|);
    var b' := b[h := b[h][k := v]];
    assert Hashed(b', hash);
    forall x | x in Union(b') || x in Union(b)[k := v]
      ensures x in Union(b') && x in Union(b)[k := v] && Union(b')[x] == Union(b)[k := v][x]
    {
      UnionLookup(b, hash, x);
      UnionLookup(b', hash, x);
    }
  }

  /** The keys of a pair sequence all hash below n. */
  predicate HashedBelow<V>(s: seq<(string, V)>, hash: HashFn, size: int, n: int) {
    forall m :: 0 <= m < |s| ==> hash(s[m].0, size) < n
  }

  /** The pairs stand for the first n slots, each key once. */
  ghost predicate Covers<V>(b: seq<map<string, V>>, hash: HashFn, n: nat, s: seq<(string, V)>)
    requires n <= |b|
  {
    ToMap(s) == Union(b[..n]) && DistinctKeys(s) && HashedBelow(s, hash, |b|, n)
  }

  /** Keys come slot by slot. */
  predicate SlotOrdered<V>(s: seq<(string, V)>, hash: HashFn, size: int) {
    forall a, c :: 0 <= a < c < |s| ==> hash(s[a].0, size) <= hash(s[c].0, size)
  }

  /** Keys come slot by slot and, within a slot, in strcmp order. */
  predicate TableOrdered<V>(s: seq<(string, V)>, hash: HashFn, size: int) {
    forall a, c :: 0 <= a < c < |s| ==> TableBefore(hash, size, s[a].0, s[c].0)
  }

  /**
    Appending what slot i holds to the pairs of the slots before it gives the
    pairs of the slots up to i, in slot order.
   */
  lemma AppendSlot<V>(b: seq<map<string, V>>, hash: HashFn, i: nat, s: seq<(string, V)>, t: seq<(string, V)>)
    requires Hashed(b, hash) && i < |b| && Covers(b, hash, i, s)
    requires ToMap(t) == b[i] && DistinctKeys(t)
    ensures Covers(b, hash, i + 1, s + t)
    ensures SlotOrdered(s, hash, |b|) ==> SlotOrdered(s + t, hash, |b|)
    ensures TableOrdered(s, hash, |b|) && Ascending(t) ==> TableOrdered(s + t, hash, |b|)
  {
    ToMapAppend(s, t);
    assert b[..i + 1][..i] == b[..i];
    ToMapKeys(t);
    forall m | 0 <= m < |t|
      ensures hash(t[m].0, |b|) == i
    {
      assert t[m].0 in KeysOf(t);
    }
  }

  /**
    The order hashtable_iterate visits keys in: by slot, and within a slot in
    strcmp order.
   */
  predicate TableBefore(hash: HashFn, n: int, a: string, b: string) {
    hash(a, n) < hash(b, n) || (hash(a, n) == hash(b, n) && Less(a, b))
  }

  /** One completed set_insert call: the set, its arguments and its result. */
  datatype SetInsert<V> = SetInsert(target: StringSet<V>, key: string, item: V, added: bool)

  /** hashtable_t: the slot array and its size. */
  class Hashtable<V> {
    const size: int
    const hash: HashFn
    const table: array<StringSet?<V>>
    ghost var Buckets: seq<map<string, V>>
    ghost var Parts: seq<set<object>>
    ghost var Contents: map<string, V>
    ghost var Repr: set<object>

    /**
      Each non-NULL slot holds a set of its own, whose objects Parts records
      and whose keys Buckets records (nothing for a NULL slot); no two slots
      share an object, every key sits in the slot its hash names, and
      Contents is all slots together.
     */
    ghost predicate Valid()
      reads this, Repr
    {
      this in Repr && table in Repr &&
      0 < size == table.Length == |Buckets| == |Parts| &&
      (forall i :: 0 <= i < size ==> SlotValid(i)) &&
      (forall i, j :: 0 <= i < size && 0 <= j < size && i != j ==> Parts[i] !! Parts[j]) &&
      Hashed(Buckets, hash) &&
      Contents == Union(Buckets)
    }

    /**
      Slot i is NULL and stands for no keys, or holds a valid set of its own
      whose keys Buckets records.
     */
    ghost predicate SlotValid(i: int)
      requires 0 <= i < table.Length == |Buckets| == |Parts|
      reads this, Repr
    {
      table in Repr &&
      if table[i] == null then Buckets[i] == map[] && Parts[i] == {}
      else
        table[i] in Repr && table[i].Repr == Parts[i] <= Repr &&
        this !in table[i].Repr && table !in table[i].Repr &&
        table[i].Valid() && Buckets[i] == table[i].Contents
    }

    /** The slot hashtable_insert and hashtable_find use for a key. */
    function Slot(key: string): (i: int)
      reads this
      requires 0 < size
      ensures 0 <= i < size
    {
      hash(key, size)
    }

    /** The allocation half of hashtable_new: every slot NULL. */
    constructor (n: int, h: HashFn)
      requires n > 0
      ensures Valid() && fresh(Repr)
      ensures size == n && hash == h && Contents == map[]
      ensures forall i :: 0 <= i < n ==> table[i] == null
    {
      size := n;
      hash := h;
      table := new StringSet?<V>[n](_ => null);
      Buckets := seq(n, _ => map[]);
      Parts := seq(n, _ => {});
      Contents := map[];
      Repr := {this, table};
      new;
      EmptyUnion(Buckets);
    }

    /**
      hashtable_insert: the key goes to the set in its slot, created if the
      slot was NULL; no other slot changes. As for set_insert, true when the
      key was absent and false, changing nothing, when it was present.
     */
    method Insert(key: string, item: V) returns (ok: bool)
      requires Valid()
      modifies Repr
      ensures Valid() && fresh(Repr - old(Repr))
      ensures ok <==> key !in old(Contents)
      ensures ok ==> Contents == old(Contents)[key := item]
      ensures !ok ==> Contents == old(Contents)
      ensures table[Slot(key)] != null
      ensures forall j :: 0 <= j < size && j != Slot(key) ==>
        table[j] == old(table[j]) && Buckets[j] == old(Buckets[j])
    {
      var i := hash(key, size);
      if table[i] == null {
        assert SlotValid(i);
        var s := new StringSet<V>();
        table[i] := s;
        Repr := Repr + s.Repr;
        Parts := Parts[i := s.Repr];
        SlotFilled(i);
      }
      assert SlotValid(i);
      ok := InsertInSlot(i, key, item);
    }

    /** set_insert into the set of the key's own slot, which exists. */
    method InsertInSlot(i: int, key: string, item: V) returns (ok: bool)
      requires Valid() && i == Slot(key) && table[i] != null
      modifies table[i].Repr, this
      ensures Valid() && fresh(Repr - old(Repr))
      ensures ok <==> key !in old(Contents)
      ensures ok ==> Contents == old(Contents)[key := item]
      ensures !ok ==> Contents == old(Contents)
      ensures Buckets == old(Buckets)[i := Buckets[i]] && unchanged(table)
    {
      assert SlotValid(i);
      var s := table[i];
      ok := s.Insert(key, item);
      assert this !in s.Repr && s as object != this;
      ghost var parts := s.Repr;
      Repr, Buckets, Parts, Contents :=
        Repr + s.Repr, Buckets[i := s.Contents], Parts[i := s.Repr], Union(Buckets[i := s.Contents]);
      assert s.Repr == parts;
      SlotChanged(SetInsert(s, key, item, ok));
    }

    /**
      When the set_insert call c, into the set in its key's slot, left that
      set valid with only fresh objects added, and nothing outside the set
      changed, the table is valid again once its ghost state records the set
      anew, and it gained or kept the key as the set did.
     */
    twostate lemma SlotChanged(c: SetInsert<V>)
      requires old(Valid()) && c.target == old(table[Slot(c.key)])
      requires forall o: object :: o in old(Repr) && o !in old(c.target.Repr) && o != this ==> unchanged(o)
      requires Sound(c.target) && fresh(c.target.Repr - old(c.target.Repr))
      requires c.added <==> c.key !in old(c.target.Contents)
      requires c.added ==> c.target.Contents == old(c.target.Contents)[c.key := c.item]
      requires !c.added ==> c.target.Contents == old(c.target.Contents)
      requires Repr == old(Repr) + c.target.Repr
      requires Buckets == old(Buckets)[Slot(c.key) := c.target.Contents]
      requires Parts == old(Parts)[Slot(c.key) := c.target.Repr]
      requires Contents == Union(Buckets)
      ensures Valid()
      ensures c.added <==> c.key !in old(Contents)
      ensures c.added ==> Contents == old(Contents)[c.key := c.item]
      ensures !c.added ==> Contents == old(Contents)
    {
      var i := Slot(c.key);
      assert old(SlotValid(i)) && table in old(Repr);
      forall j | 0 <= j < size && j != i
        ensures SlotValid(j)
      {
        assert old(SlotValid(j));
        if table[j] != null {
          SetStays(table[j]);
        }
      }
      assert SlotValid(i);
      UnionLookup(old(Buckets), hash, c.key);
      if c.added {
        UnionAdd(old(Buckets), hash, c.key, c.item);
      } else {
        assert Buckets == old(Buckets);
      }
    }

    /**
      When slot i was NULL and now holds a new, empty, valid set, and nothing
      else changed, the table is valid again once its ghost state records
      the new set.
     */
    twostate lemma SlotFilled(i: int)
      requires old(Valid()) && 0 <= i < size
      requires old(table[i]) == null && table[i] != null
      requires forall j :: 0 <= j < size && j != i ==> table[j] == old(table[j])
      requires forall o: object :: o in old(Repr) && o != this && o != table ==> unchanged(o)
      requires Sound(table[i]) && fresh(table[i].Repr) && table[i].Contents == map[]
      requires Repr == old(Repr) + table[i].Repr
      requires Parts == old(Parts)[i := table[i].Repr]
      requires Buckets == old(Buckets) && Contents == old(Contents)
      ensures Valid()
    {
      assert old(SlotValid(i)) && table in old(Repr);
      forall j | 0 <= j < size && j != i
        ensures SlotValid(j)
      {
        assert old(SlotValid(j));
        if table[j] != null {
          SetStays(table[j]);
        }
      }
      assert SlotValid(i);
    }

    /**
      hashtable_new: NULL for a size that is not positive, otherwise a table
      of that many NULL slots.
     */
    static method New(n: int, h: HashFn) returns (ht: Hashtable?<V>)
      ensures n <= 0 ==> ht == null
      ensures n > 0 ==>
        ht != null && ht.Valid() && fresh(ht.Repr) && ht.size == n && ht.hash == h && ht.Contents == map[]
    {
      if n <= 0 {
        return null;
      }
      ht := new Hashtable(n, h);
    }

    /**
      hashtable_iterate: the (key, item) pairs the callback receives, slot by
      slot and, within a slot, in strcmp order; every entry exactly once.
     */
    method Iterate() returns (s: seq<(string, V)>)
      requires Valid()
      ensures DistinctKeys(s) && ToMap(s) == Contents && |s| == |Contents|
      ensures TableOrdered(s, hash, size)
    {
      s := [];
      for i := 0 to size
        invariant Covers(Buckets, hash, i, s) && TableOrdered(s, hash, size)
      {
        assert SlotValid(i);
        var t := if table[i] == null then [] else table[i].Iterate();
        AppendSlot(Buckets, hash, i, s, t);
        s := s + t;
      }
      assert Buckets[..size] == Buckets;
      ToMapSize(s);
    }

    /**
      hashtable_delete: the (key, item) pairs whose item is handed to
      itemdelete, slot by slot, every entry exactly once.
     */
    method DeleteOrder() returns (d: seq<(string, V)>)
      requires Valid()
      ensures DistinctKeys(d) && ToMap(d) == Contents && |d| == |Contents|
      ensures SlotOrdered(d, hash, size)
    {
      d := [];
      for i := 0 to size
        invariant Covers(Buckets, hash, i, d) && SlotOrdered(d, hash, size)
      {
        assert SlotValid(i);
        var t := if table[i] == null then [] else table[i].DeleteOrder();
        AppendSlot(Buckets, hash, i, d, t);
        d := d + t;
      }
      assert Buckets[..size] == Buckets;
      ToMapSize(d);
    }

    /** hashtable_find: the key's item, or None when its slot is NULL or lacks the key. */
    function Find(key: string): (r: Option<V>)
      requires Valid()
      reads this, Repr
      ensures r == Lookup(Contents, key)
    {
      var s := table[hash(key, size)];
      assert SlotValid(hash(key, size));
      UnionLookup(Buckets, hash, key);
      if s == null then None else s.Find(key)
    }
  }

  /** A slot's set is valid (stated once, so that callers show it as a whole). */
  ghost predicate Sound<V>(s: StringSet<V>)
    reads s, s.Repr
  {
    s.Valid()
  }

  /** A set none of whose objects changed is as valid, and holds the same, as before. */
  twostate lemma SetStays<V>(s: StringSet<V>)
    requires old(s.Valid())
    requires forall o: object :: o in old(s.Repr) ==> unchanged(o)
    ensures s.Valid() && s.Contents == old(s.Contents) && s.Repr == old(s.Repr)
  {
  }

  lemma EmptyUnion<V>(b: seq<map<string, V>>)
    requires forall i :: 0 <= i < |b| ==> b[i] == map[]
    ensures Union(b) == map[]
  {
  }
}
