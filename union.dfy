/**
  The "union" module of the querier (common/union.c): an accumulator
  counters that query evaluation combines other counters into, by
  conjunction (AND: the documents both sides share, scored by the smaller
  count) or by disjunction (OR: the documents of either side, scored by the
  sum of the counts).

  A NULL counters (an unindexed word) is `null` here and behaves as an empty
  one, since counters_iterate and counters_get treat NULL so.
 */
module Unions {
  import opened Pairs
  import opened Counters

  function Min(a: int, b: int): int {
    if b < a then b else a
  }

  /**
    union_conjunction on the accumulator `acc`: an id of `other` whose
    accumulated count is positive keeps the smaller of its two counts; every
    other id is dropped.
   */
  function Conj(acc: map<int, int>, other: map<int, int>): map<int, int> {
    map id | id in other && Count(acc, id) > 0 :: Min(Count(acc, id), other[id])
  }

  /**
    union_disjunction on the accumulator `acc`: every id of `other` gets the
    sum of its accumulated count (0 when absent) and its count in `other`;
    ids only in the accumulator keep their counts.
   */
  function Disj(acc: map<int, int>, other: map<int, int>): map<int, int> {
    map id | id in acc.Keys + other.Keys :: Count(acc, id) + Count(other, id)
  }

  /** No id and no count is negative, as counters guarantee. */
  predicate NonNegative(m: map<int, int>) {
    forall id :: id in m ==> id >= 0 && m[id] >= 0
  }

  /**
    In counts, conjunction is the minimum: counters_get on the result
    gives the smaller of the two sides' counts, an absent id counting 0.
   */
  lemma ConjCount(acc: map<int, int>, other: map<int, int>, id: int)
    requires NonNegative(acc) && NonNegative(other)
    ensures Count(Conj(acc, other), id) == Min(Count(acc, id), Count(other, id))
  {
  }

  /** With positive counts, conjunction keeps exactly the ids both sides hold. */
  lemma ConjKeys(acc: map<int, int>, other: map<int, int>)
    requires forall id :: id in acc ==> acc[id] > 0
    ensures Conj(acc, other).Keys == acc.Keys * other.Keys
  {
  }

  /** Conjunction never adds an id the accumulator lacks, nor one `other` lacks. */
  lemma ConjShrinks(acc: map<int, int>, other: map<int, int>)
    ensures Conj(acc, other).Keys <= acc.Keys * other.Keys
  {
  }

  /** Conjunction with an absent (or empty) counters leaves nothing. */
  lemma ConjEmpty(acc: map<int, int>)
    ensures Conj(acc, map[]) == map[]
  {
  }

  /**
    In counts, disjunction is the sum: counters_get on the result gives the
    sum of the two sides' counts, and the ids are those of either side.
   */
  lemma DisjCount(acc: map<int, int>, other: map<int, int>, id: int)
    ensures Count(Disj(acc, other), id) == Count(acc, id) + Count(other, id)
    ensures Disj(acc, other).Keys == acc.Keys + other.Keys
  {
  }

  /** Disjunction with an absent (or empty) counters changes nothing. */
  lemma DisjEmpty(acc: map<int, int>)
    ensures Disj(acc, map[]) == acc
  {
    assert forall id :: id in acc ==> Count(acc, id) == acc[id];
  }

  /** Disjunction into an empty accumulator copies the other counters. */
  lemma DisjIntoEmpty(other: map<int, int>)
    ensures Disj(map[], other) == other
  {
    assert forall id :: id in other ==> Count(other, id) == other[id];
  }

  /** Both operations keep ids and counts non-negative. */
  lemma PreserveNonNegative(acc: map<int, int>, other: map<int, int>)
    requires NonNegative(acc) && NonNegative(other)
    ensures NonNegative(Conj(acc, other)) && NonNegative(Disj(acc, other))
  {
  }

  /**
    One call of the disjunct callback: the id gets its accumulated count
    plus the visited count. Visiting a new id this way extends a
    disjunction by that id.
   */
  lemma DisjStep(acc: map<int, int>, seen: map<int, int>, id: int, count: int)
    requires id !in seen
    ensures Disj(acc, seen)[id := Count(acc, id) + count] == Disj(acc, seen[id := count])
  {
    var l := Disj(acc, seen)[id := Count(acc, id) + count];
    var r := Disj(acc, seen[id := count]);
    assert forall x :: x in l <==> x in r;
    forall x | x in l
      ensures l[x] == r[x]
    {
      if x != id {
        assert Count(seen, x) == Count(seen[id := count], x);
      }
    }
  }

  /**
    What union_conjunction has built once the ids still in `bag` are all
    that is left to drain.
   */
  function ConjSoFar(acc: map<int, int>, other: map<int, int>, bag: set<int>): map<int, int> {
    map id | id in other && id !in bag && Count(acc, id) > 0 :: Min(Count(acc, id), other[id])
  }

  /** Nothing is built before the bag is drained, and all of it after. */
  lemma ConjSoFarEnds(acc: map<int, int>, other: map<int, int>)
    ensures ConjSoFar(acc, other, other.Keys) == map[]
    ensures ConjSoFar(acc, other, {}) == Conj(acc, other)
  {
  }

  /** Draining one id from the bag adds it when its accumulated count is positive. */
  lemma ConjSoFarStep(acc: map<int, int>, other: map<int, int>, bag: set<int>, id: int)
    requires id in bag && id in other
    ensures ConjSoFar(acc, other, bag - {id}) ==
      if Count(acc, id) > 0 then ConjSoFar(acc, other, bag)[id := Min(Count(acc, id), other[id])]
      else ConjSoFar(acc, other, bag)
  {
  }

  /**
    The bag union_conjunction fills through counters_iterate: the ids of
    `other`.
   */
  method BagOf(other: Counters) returns (bag: set<int>)
    requires other.Valid()
    ensures bag == other.Contents.Keys
  {
    var walk := other.Iterate();
    ToMapKeys(walk);
    bag := KeysOf(walk);
  }

  /**
    Halfway through union_conjunction: `conj` holds what draining every id
    of `other` outside `bag` has built, and `acc` and `other` are as they
    were.
   */
  ghost predicate Draining(conj: Counters, acc: Counters, other: Counters, A: set<object>, O: set<object>,
                           accMap: map<int, int>, otherMap: map<int, int>, bag: set<int>)
    reads conj, conj.Repr, acc, A, other, O
  {
    conj.Valid() && conj.Repr !! A && conj.Repr !! O &&
    acc.Repr == A && acc.Valid() && acc.Contents == accMap &&
    other.Repr == O && other.Valid() && other.Contents == otherMap &&
    bag <= otherMap.Keys && conj.Contents == ConjSoFar(accMap, otherMap, bag)
  }

  /**
    One id drained from the bag: when its count in `acc` is positive, it
    goes into `conj` with the smaller of its two counts (on a tie, the
    accumulated one). Neither `acc` nor `other` changes.
   */
  method Drain(conj: Counters, acc: Counters, other: Counters, id: int, ghost A: set<object>, ghost O: set<object>,
               ghost accMap: map<int, int>, ghost otherMap: map<int, int>, ghost bag: set<int>)
    requires id in bag && Draining(conj, acc, other, A, O, accMap, otherMap, bag)
    modifies conj.Repr
    ensures fresh(conj.Repr - old(conj.Repr)) && Draining(conj, acc, other, A, O, accMap, otherMap, bag - {id})
  {
    ConjSoFarStep(accMap, otherMap, bag, id);
    var unionCount := acc.Get(id);
    if unionCount > 0 {
      var counterCount := other.Get(id);
      label Before:
      var ok := conj.Set(id, Min(unionCount, counterCount));
      CountersStay@Before(acc);
      CountersStay@Before(other);
    }
  }

  /**
    The loop of union_conjunction: ids are drained from the bag in no
    particular order, and an id whose count in `acc` is positive goes into
    a new counters with the smaller of its two counts. Iterating a NULL
    counters fills no bag.
   */
  method Intersect(acc: Counters, other: Counters?) returns (conj: Counters)
    requires acc.Valid()
    requires other != null ==> other.Valid() && other.Repr !! acc.Repr
    ensures conj.Valid() && fresh(conj.Repr)
    ensures conj.Contents == Conj(acc.Contents, if other == null then map[] else other.Contents)
  {
    conj := new Counters();
    if other == null {
      ConjEmpty(acc.Contents);
      return;
    }
    ghost var accMap, otherMap, A, O := acc.Contents, other.Contents, acc.Repr, other.Repr;
    var bag := BagOf(other);
    ConjSoFarEnds(accMap, otherMap);
    while bag != {}
      invariant fresh(conj.Repr) && Draining(conj, acc, other, A, O, accMap, otherMap, bag)
      decreases bag
    {
      var id :| id in bag;
      Drain(conj, acc, other, id, A, O, accMap, otherMap, bag);
      bag := bag - {id};
    }
  }

  /**
    Halfway through union_disjunction: the first `i` pairs `other` visits
    have been added into `acc`, and `other` is as it was.
   */
  ghost predicate Merging(acc: Counters, other: Counters, O: set<object>, start: map<int, int>,
                          walk: seq<(int, int)>, i: int)
    reads acc, acc.Repr, other, O
  {
    acc.Valid() && acc.Repr !! O && other.Repr == O && other.Valid() &&
    DistinctKeys(walk) && ToMap(walk) == other.Contents && 0 <= i <= |walk| && acc.Contents == Added(start, walk, i)
  }

  /** The counts after the callback has run on the first `i` pairs of the walk. */
  function Added(start: map<int, int>, walk: seq<(int, int)>, i: int): map<int, int>
    requires 0 <= i <= |walk|
  {
    if i == 0 then start
    else
      var sofar := Added(start, walk, i - 1);
      var (id, count) := walk[i - 1];
      sofar[id := Count(sofar, id) + count]
  }

  /**
    Adding pair `i` of a walk with distinct keys to the disjunction of the
    pairs before it: the pair's id gets its count so far plus the pair's.
   */
  lemma MergeStep(start: map<int, int>, walk: seq<(int, int)>, i: int, sofar: map<int, int>)
    requires DistinctKeys(walk) && 0 <= i < |walk|
    requires sofar == Disj(start, ToMap(walk[..i]))
    ensures Disj(start, ToMap(walk[..i + 1])) == sofar[walk[i].0 := Count(sofar, walk[i].0) + walk[i].1]
  {
    var (id, count) := walk[i];
    var seen := ToMap(walk[..i]);
    NewKey(walk, i);
    assert walk[..i + 1][..i] == walk[..i];
    DisjCount(start, seen, id);
    DisjStep(start, seen, id, count);
  }

  /** With distinct keys, adding the pairs one by one is the disjunction with their map. */
  lemma {:induction false} AddedAll(start: map<int, int>, walk: seq<(int, int)>, i: int)
    requires DistinctKeys(walk) && 0 <= i <= |walk|
    ensures Added(start, walk, i) == Disj(start, ToMap(walk[..i]))
  {
    if i == 0 {
      assert walk[..0] == [];
      DisjEmpty(start);
    } else {
      AddedAll(start, walk, i - 1);
      MergeStep(start, walk, i - 1, Added(start, walk, i - 1));
    }
  }

  /** Once the whole walk is added, the counts are the disjunction with the walk's map. */
  lemma AddedWalk(start: map<int, int>, walk: seq<(int, int)>)
    requires DistinctKeys(walk)
    ensures Added(start, walk, |walk|) == Disj(start, ToMap(walk))
  {
    AddedAll(start, walk, |walk|);
    assert walk[..|walk|] == walk;
  }

  /**
    The body of the disjunct callback: `id`'s count in `acc` goes up by
    `count`, and `other` does not change.
   */
  method Bump(acc: Counters, other: Counters, id: int, count: int)
    requires acc.Valid() && other.Valid() && acc.Repr !! other.Repr
    requires id >= 0 && count >= 0
    modifies acc.Repr
    ensures acc.Valid() && fresh(acc.Repr - old(acc.Repr))
    ensures acc.Contents == old(acc.Contents)[id := Count(old(acc.Contents), id) + count]
    ensures other.Valid() && other.Contents == old(other.Contents) && other.Repr == old(other.Repr)
    ensures acc.Repr !! other.Repr
  {
    var current := acc.Get(id);
    label Before:
    var ok := acc.Set(id, current + count);
    CountersStay@Before(other);
  }

  /** One call of the disjunct callback: pair `i` of the walk is added in. */
  method Merge(acc: Counters, other: Counters, ghost O: set<object>, ghost start: map<int, int>,
               walk: seq<(int, int)>, i: int)
    requires Merging(acc, other, O, start, walk, i) && i < |walk|
    modifies acc.Repr
    ensures fresh(acc.Repr - old(acc.Repr)) && Merging(acc, other, O, start, walk, i + 1)
  {
    ToMapAt(walk, i);
    Bump(acc, other, walk[i].0, walk[i].1);
  }

  /** The callback on every pair of the walk, in order. */
  method MergeAll(acc: Counters, other: Counters, ghost O: set<object>, ghost start: map<int, int>,
                  walk: seq<(int, int)>)
    requires Merging(acc, other, O, start, walk, 0)
    modifies acc.Repr
    ensures fresh(acc.Repr - old(acc.Repr)) && Merging(acc, other, O, start, walk, |walk|)
  {
    for i := 0 to |walk|
      invariant fresh(acc.Repr - old(acc.Repr)) && Merging(acc, other, O, start, walk, i)
    {
      Merge(acc, other, O, start, walk, i);
    }
  }

  /**
    The loop of union_disjunction: the pairs of `other`, in the order
    counters_iterate visits them, are added into `acc` one by one.
   */
  method Merged(acc: Counters, other: Counters)
    requires acc.Valid() && other.Valid() && acc.Repr !! other.Repr
    modifies acc.Repr
    ensures acc.Valid() && fresh(acc.Repr - old(acc.Repr))
    ensures acc.Contents == Disj(old(acc.Contents), other.Contents)
  {
    var walk := other.Iterate();
    ghost var start := acc.Contents;
    MergeAll(acc, other, other.Repr, start, walk);
    AddedWalk(start, walk);
  }

  /** union_t: the wrapper around the accumulator counters. */
  class Union {
    var counter: Counters
    ghost var Repr: set<object>

    ghost predicate Valid()
      reads this, Repr
    {
      this in Repr && counter in Repr && counter.Repr <= Repr && this !in counter.Repr &&
      counter.Valid()
    }

    /** The accumulated counts. */
    ghost function Acc(): map<int, int>
      reads this, counter
    {
      counter.Contents
    }

    /** union_new: a union holding an empty counters. */
    constructor ()
      ensures Valid() && fresh(Repr) && Acc() == map[]
    {
      var c := new Counters();
      counter := c;
      Repr := {this} + c.Repr;
    }

    /**
      union_conjunction: a new counters receives, for every id of `other`
      (drained from a bag, so in no particular order) whose accumulated
      count is positive, the smaller of the two counts; it then replaces the
      accumulator. `other` itself is left as it was.
     */
    method Conjunction(other: Counters?)
      requires Valid()
      requires other != null ==> other.Valid() && other.Repr !! Repr
      modifies this
      ensures Valid() && fresh(Repr - {this})
      ensures Acc() == Conj(old(Acc()), if other == null then map[] else other.Contents)
    {
      var conj := Intersect(counter, other);
      counter := conj;
      Repr := {this} + conj.Repr;
    }

    /**
      union_disjunction: for every (id, count) of `other`, in the order
      counters_iterate visits them, the accumulator's count for id becomes
      its current count plus `count`.
     */
    method Disjunction(other: Counters?)
      requires Valid()
      requires other != null ==> other.Valid() && other.Repr !! Repr
      modifies Repr
      ensures Valid() && fresh(Repr - old(Repr)) && counter == old(counter)
      ensures Acc() == Disj(old(Acc()), if other == null then map[] else other.Contents)
    {
      if other == null {
        DisjEmpty(Acc());
        return;
      }
      Merged(counter, other);
      Repr := Repr + counter.Repr;
    }

    /**
      union_getCounter: the accumulator itself, not a copy; the caller that
      goes on to free only the wrapper (union_pointerDelete) keeps it.
     */
    function GetCounter(): (c: Counters)
      requires Valid()
      reads this, Repr
      ensures c == counter && c.Valid() && c.Contents == Acc() && c.Repr <= Repr
    {
      counter
    }
  }
}
