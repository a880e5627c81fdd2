/**
  What a query means (querier/querier.c): the words of a query fall into
  runs separated by "or"; within a run every word but an explicit "and" is
  looked up, the first one's counts are copied into an empty accumulator
  and each later one is combined with it by conjunction; the runs' results
  are then added together by disjunction. So "and" binds tighter than "or",
  and, on a well-formed query, a document scores the sum over the runs of
  the smallest count among the run's words.
 */
module Queries {
  import opened Counters
  import opened Unions
  import opened Index
  import opened Word

  /** Every id and count in the index is non-negative, as counters keep them. */
  predicate NonNegWords(w: WordMap) {
    forall word :: word in w ==> NonNegative(w[word])
  }

  /** Every id is non-negative and every count positive, as indexing pages leaves them. */
  predicate Positive(m: map<int, int>) {
    forall id :: id in m ==> id >= 0 && m[id] > 0
  }

  predicate PositiveWords(w: WordMap) {
    forall word :: word in w ==> Positive(w[word])
  }

  // ---------------------------------------------------------------------
  // conjunctAndSequence

  /**
    The accumulator after conjunctAndSequence has read `run` from its start:
    an explicit "and" is skipped, the word at the start is added to the
    empty accumulator by disjunction, and every later word is combined with
    it by conjunction. A word the index lacks counts as an empty counters.
   */
  function AndScore(w: WordMap, run: seq<string>): map<int, int>
    decreases |run|
  {
    if run == [] then map[]
    else
      var acc := AndScore(w, run[..|run| - 1]);
      var t := run[|run| - 1];
      if t == "and" then acc
      else if |run| == 1 then Disj(acc, Counted(w, t))
      else Conj(acc, Counted(w, t))
  }

  /** The words of a run that are looked up: all but the explicit "and"s, in order. */
  function Conjuncts(run: seq<string>): (ws: seq<string>)
    ensures |ws| <= |run|
    ensures forall i :: 0 <= i < |ws| ==> ws[i] != "and" && ws[i] in run
    ensures forall t :: t in run && t != "and" ==> t in ws
    decreases |run|
  {
    if run == [] then []
    else
      var t := run[|run| - 1];
      assert run == run[..|run| - 1] + [t];
      Conjuncts(run[..|run| - 1]) + (if t == "and" then [] else [t])
  }

  /** The smallest of the words' counts for document `d` (0 for no words). */
  function MinCount(w: WordMap, ws: seq<string>, d: int): int
    decreases |ws|
  {
    if ws == [] then 0
    else if |ws| == 1 then Count(Counted(w, ws[0]), d)
    else Min(MinCount(w, ws[..|ws| - 1], d), Count(Counted(w, ws[|ws| - 1]), d))
  }

  /** Every word of `ws` is indexed for document `d`. */
  predicate AllHave(w: WordMap, ws: seq<string>, d: int) {
    forall i :: 0 <= i < |ws| ==> d in Counted(w, ws[i])
  }

  /** A run conjunctAndSequence is meant for: it starts with a word, not "and". */
  predicate Good(run: seq<string>) {
    run != [] && run[0] != "and"
  }

  /** An explicit "and" changes nothing; a word is added or combined. */
  lemma AndNext(w: WordMap, run: seq<string>, t: string)
    ensures AndScore(w, run + [t]) ==
      if t == "and" then AndScore(w, run)
      else if run == [] then Disj(AndScore(w, run), Counted(w, t))
      else Conj(AndScore(w, run), Counted(w, t))
  {
    assert (run + [t])[..|run|] == run;
  }

  /** Scores of a run stay non-negative. */
  lemma {:induction false} AndNonNegative(w: WordMap, run: seq<string>)
    requires NonNegWords(w)
    ensures NonNegative(AndScore(w, run))
    decreases |run|
  {
    if run != [] {
      AndNonNegative(w, run[..|run| - 1]);
      PreserveNonNegative(AndScore(w, run[..|run| - 1]), Counted(w, run[|run| - 1]));
    }
  }

  /**
    On a run that starts with a word, a document's score is the smallest
    of its counts under the run's words: "and" is the minimum.
   */
  lemma {:induction false} AndCount(w: WordMap, run: seq<string>, d: int)
    requires NonNegWords(w) && Good(run)
    ensures Conjuncts(run) != []
    ensures Count(AndScore(w, run), d) == MinCount(w, Conjuncts(run), d)
    decreases |run|
  {
    var r := run[..|run| - 1];
    var t := run[|run| - 1];
    assert run == r + [t];
    if |run| == 1 {
      assert Conjuncts(run) == [t];
      DisjCount(AndScore(w, r), Counted(w, t), d);
    } else {
      assert r[0] == run[0];
      AndCount(w, r, d);
      if t != "and" {
        var ws := Conjuncts(r);
        assert Conjuncts(run) == ws + [t];
        assert (ws + [t])[..|ws|] == ws;
        AndNonNegative(w, r);
        ConjCount(AndScore(w, r), Counted(w, t), d);
      } else {
        assert Conjuncts(run) == Conjuncts(r);
      }
    }
  }

  /** Conjunction of positive counts is positive and keeps the ids both sides hold. */
  lemma ConjMatches(acc: map<int, int>, other: map<int, int>, d: int)
    requires Positive(acc) && Positive(other)
    ensures Positive(Conj(acc, other))
    ensures d in Conj(acc, other) <==> d in acc && d in other
  {
  }

  /** Every word of ws + [t] is indexed for d when every word of ws is and t is. */
  lemma AllHaveLast(w: WordMap, ws: seq<string>, t: string, d: int)
    ensures AllHave(w, ws + [t], d) <==> AllHave(w, ws, d) && d in Counted(w, t)
  {
    if AllHave(w, ws + [t], d) {
      forall i | 0 <= i < |ws|
        ensures d in Counted(w, ws[i])
      {
        assert (ws + [t])[i] == ws[i];
      }
      assert (ws + [t])[|ws|] == t;
    }
  }

  /**
    With positive counts, a document matches a run that starts with a word
    exactly when every looked-up word of the run is indexed for it, and
    its score there is positive.
   */
  lemma {:induction false} AndMatches(w: WordMap, run: seq<string>, d: int)
    requires PositiveWords(w) && Good(run)
    ensures Positive(AndScore(w, run))
    ensures d in AndScore(w, run) <==> AllHave(w, Conjuncts(run), d)
    decreases |run|
  {
    var r := run[..|run| - 1];
    var t := run[|run| - 1];
    assert run == r + [t];
    AndNext(w, r, t);
    ConjunctsNext(r, t);
    CountedPositive(w, t);
    if r == [] {
      assert Conjuncts(r) == [];
      DisjIntoEmpty(Counted(w, t));
      AllHaveLast(w, [], t, d);
    } else {
      assert r[0] == run[0];
      AndMatches(w, r, d);
      if t != "and" {
        AllHaveLast(w, Conjuncts(r), t, d);
        ConjMatches(AndScore(w, r), Counted(w, t), d);
      } else {
        assert Conjuncts(r) + [] == Conjuncts(r);
      }
    }
  }

  /**
    A word the index lacks empties its run: looked up first it adds nothing
    to the empty accumulator, looked up later it leaves no id in common, and
    once the accumulator is empty every later conjunction keeps it empty.
   */
  lemma {:induction false} Unindexed(w: WordMap, run: seq<string>, t: string)
    requires t in run && t !in w && t != "and"
    ensures AndScore(w, run) == map[]
    decreases |run|
  {
    var front, u := run[..|run| - 1], run[|run| - 1];
    assert run == front + [u];
    if t in front {
      Unindexed(w, front, t);
    } else {
      assert u == t && Counted(w, t) == map[];
      if front == [] {
        assert AndScore(w, front) == map[];
      }
    }
  }

  /** One more token: an "and" adds no looked-up word, any other token adds itself. */
  lemma ConjunctsNext(r: seq<string>, t: string)
    ensures Conjuncts(r + [t]) == Conjuncts(r) + if t == "and" then [] else [t]
  {
    assert (r + [t])[..|r|] == r;
  }

  /** A word's counts in an index of positive counts are positive (none when it is absent). */
  lemma CountedPositive(w: WordMap, t: string)
    requires PositiveWords(w)
    ensures Positive(Counted(w, t))
  {
  }

  // ---------------------------------------------------------------------
  // disjunctOrSequence

  /**
    The runs of a query: the pieces between the "or"s, in order. A query
    starting or ending with "or", or holding two in a row, has empty pieces.
   */
  function Split(ts: seq<string>): (pieces: seq<seq<string>>)
    ensures |pieces| >= 1
    decreases |ts|
  {
    if ts == [] then [[]]
    else
      var s := Split(ts[..|ts| - 1]);
      var t := ts[|ts| - 1];
      if t == "or" then s + [[]] else s[..|s| - 1] + [s[|s| - 1] + [t]]
  }

  /** The pieces put back together with an "or" between each two. */
  function JoinOr(pieces: seq<seq<string>>): seq<string>
    requires pieces != []
    decreases |pieces|
  {
    if |pieces| == 1 then pieces[0]
    else JoinOr(pieces[..|pieces| - 1]) + ["or"] + pieces[|pieces| - 1]
  }

  /** Closing a piece with "or" adds "or" to the joined query. */
  lemma JoinClosed(s: seq<seq<string>>)
    requires s != []
    ensures JoinOr(s + [[]]) == JoinOr(s) + ["or"]
  {
    assert (s + [[]])[..|s|] == s;
  }

  /** Joining one more piece puts an "or" before it. */
  lemma JoinLast(front: seq<seq<string>>, p: seq<string>)
    requires front != []
    ensures JoinOr(front + [p]) == JoinOr(front) + ["or"] + p
  {
    assert (front + [p])[..|front|] == front;
  }

  /** Extending the last piece by a word extends the joined query by it. */
  lemma JoinExtended(front: seq<seq<string>>, last: seq<string>, t: string)
    ensures JoinOr(front + [last + [t]]) == JoinOr(front + [last]) + [t]
  {
    if front == [] {
      assert front + [last + [t]] == [last + [t]];
      assert front + [last] == [last];
    } else {
      JoinLast(front, last);
      JoinLast(front, last + [t]);
      var x := JoinOr(front);
      assert x + ["or"] + (last + [t]) == (x + ["or"] + last) + [t];
    }
  }

  /** Splitting at the "or"s loses nothing: the pieces join back into the query. */
  lemma {:induction false} SplitJoin(ts: seq<string>)
    ensures JoinOr(Split(ts)) == ts
    decreases |ts|
  {
    if ts != [] {
      var p := ts[..|ts| - 1];
      var t := ts[|ts| - 1];
      SplitJoin(p);
      assert ts == p + [t];
      if t == "or" {
        JoinClosed(Split(p));
      } else {
        var s := Split(p);
        assert s == s[..|s| - 1] + [s[|s| - 1]];
        JoinExtended(s[..|s| - 1], s[|s| - 1], t);
      }
    }
  }

  /** No piece holds an "or". */
  lemma {:induction false} SplitNoOr(ts: seq<string>)
    ensures forall i :: 0 <= i < |Split(ts)| ==> "or" !in Split(ts)[i]
    decreases |ts|
  {
    if ts != [] {
      var p := ts[..|ts| - 1];
      var t := ts[|ts| - 1];
      var s := Split(p);
      SplitNoOr(p);
      if t != "or" {
        var s' := s[..|s| - 1] + [s[|s| - 1] + [t]];
        forall i | 0 <= i < |s'|
          ensures "or" !in s'[i]
        {
          if i < |s| - 1 {
            assert s'[i] == s[i];
          }
        }
      } else {
        forall i | 0 <= i < |s| + 1
          ensures "or" !in (s + [[]])[i]
        {
          if i < |s| {
            assert (s + [[]])[i] == s[i];
          }
        }
      }
    }
  }

  /** What disjunctOrSequence accumulates: the runs' scores, added up from an empty union. */
  function SumRuns(w: WordMap, pieces: seq<seq<string>>): map<int, int>
    decreases |pieces|
  {
    if pieces == [] then map[]
    else Disj(SumRuns(w, pieces[..|pieces| - 1]), AndScore(w, pieces[|pieces| - 1]))
  }

  /** The scores of a query. */
  function OrScore(w: WordMap, ts: seq<string>): map<int, int> {
    SumRuns(w, Split(ts))
  }

  /** The sum over the runs of the smallest count among each run's words. */
  function SumMins(w: WordMap, pieces: seq<seq<string>>, d: int): int
    decreases |pieces|
  {
    if pieces == [] then 0
    else SumMins(w, pieces[..|pieces| - 1], d) + MinCount(w, Conjuncts(pieces[|pieces| - 1]), d)
  }

  /** Some run has every looked-up word indexed for document `d`. */
  predicate SomeRunHas(w: WordMap, pieces: seq<seq<string>>, d: int) {
    exists i :: 0 <= i < |pieces| && AllHave(w, Conjuncts(pieces[i]), d)
  }

  /** Nothing read yet, or an "or" read last: the current piece is still empty. */
  lemma {:induction false} SplitEndsEmpty(a: seq<string>)
    requires a == [] || a[|a| - 1] == "or"
    ensures Split(a)[|Split(a)| - 1] == []
  {
    if a != [] {
      assert a == a[..|a| - 1] + ["or"];
    }
  }

  /** A run with no "or" in it fills the empty piece at the end. */
  lemma {:induction false} SplitRun(a: seq<string>, r: seq<string>)
    requires a == [] || a[|a| - 1] == "or"
    requires "or" !in r
    ensures Split(a + r) == Split(a)[..|Split(a)| - 1] + [r]
    decreases |r|
  {
    SplitEndsEmpty(a);
    var s := Split(a);
    if r == [] {
      assert a + r == a;
      assert s == s[..|s| - 1] + [[]];
    } else {
      var r' := r[..|r| - 1];
      var t := r[|r| - 1];
      assert "or" !in r' by {
        forall i | 0 <= i < |r'|
          ensures r'[i] != "or"
        {
          assert r'[i] == r[i];
        }
      }
      SplitRun(a, r');
      assert t != "or" by {
        assert r[|r| - 1] in r;
      }
      LastOff(a, r);
      SplitSnoc(a + r', t);
      var front := s[..|s| - 1];
      assert Split(a + r') == front + [r'];
      LastOff(front, [r']);
    }
  }

  /** Taking the last element off a non-empty tail. */
  lemma LastOff<T>(a: seq<T>, r: seq<T>)
    requires r != []
    ensures a + r == (a + r[..|r| - 1]) + [r[|r| - 1]]
    ensures r[..|r| - 1] + [r[|r| - 1]] == r
    ensures (a + r)[..|a|] == a
  {
    assert r[..|r| - 1] + [r[|r| - 1]] == r;
  }

  /** The empty query scores nothing. */
  lemma OrEmpty(w: WordMap)
    ensures OrScore(w, []) == map[]
  {
    assert Split([]) == [[]];
    assert Split([])[..0] == [];
    DisjIntoEmpty(map[]);
  }

  /** Skipping an "or" changes nothing: it only opens an empty run. */
  lemma OrSkip(w: WordMap, a: seq<string>)
    ensures OrScore(w, a + ["or"]) == OrScore(w, a)
  {
    var s := Split(a);
    assert (a + ["or"])[..|a|] == a;
    assert Split(a + ["or"]) == s + [[]];
    assert (s + [[]])[..|s|] == s;
    DisjEmpty(OrScore(w, a));
  }

  /** One more run adds its scores by disjunction. */
  lemma SumRunsLast(w: WordMap, front: seq<seq<string>>, p: seq<string>)
    ensures SumRuns(w, front + [p]) == Disj(SumRuns(w, front), AndScore(w, p))
  {
    assert (front + [p])[..|front|] == front;
  }

  /**
    One pass of disjunctOrSequence's loop: after an "or" (or at the start),
    the run that follows is added to the scores by disjunction.
   */
  lemma OrStep(w: WordMap, a: seq<string>, r: seq<string>)
    requires a == [] || a[|a| - 1] == "or"
    requires "or" !in r
    ensures OrScore(w, a + r) == Disj(OrScore(w, a), AndScore(w, r))
  {
    SplitEndsEmpty(a);
    SplitRun(a, r);
    var s := Split(a);
    var front := s[..|s| - 1];
    assert s == front + [[]];
    SumRunsLast(w, front, []);
    SumRunsLast(w, front, r);
    DisjEmpty(SumRuns(w, front));
  }

  /** Inside a well-formed query no two operators are adjacent. */
  lemma NoAdjacent(ts: seq<string>, i: int)
    requires ValidSyntax(ts) && 0 < i < |ts|
    ensures !(IsOperator(ts[i - 1]) && IsOperator(ts[i]))
  {
    assert !AdjacentAt(ts, i);
  }

  /** Split one word further on. */
  lemma SplitSnoc(p: seq<string>, t: string)
    ensures Split(p + [t]) ==
      var s := Split(p);
      if t == "or" then s + [[]] else s[..|s| - 1] + [s[|s| - 1] + [t]]
  {
    assert (p + [t])[..|p|] == p;
  }

  /**
    Runs read so far on a well-formed query: every run before the current
    one starts with a word, and the current one is empty exactly when the
    last token read closed a run (or nothing was read), and otherwise
    starts with a word.
   */
  predicate Runs(s: seq<seq<string>>, closed: bool) {
    |s| >= 1 && (forall i :: 0 <= i < |s| - 1 ==> Good(s[i])) &&
    (s[|s| - 1] == [] <==> closed) && (!closed ==> Good(s[|s| - 1]))
  }

  /** An "or" after a word closes the current run and opens an empty one. */
  lemma RunsOr(s: seq<seq<string>>)
    requires Runs(s, false)
    ensures Runs(s + [[]], true)
  {
    forall i | 0 <= i < |s + [[]]| - 1
      ensures Good((s + [[]])[i])
    {
      assert (s + [[]])[i] == s[i];
    }
  }

  /** A word extends the current run; after a closed run it must not be "and". */
  lemma RunsWord(s: seq<seq<string>>, closed: bool, t: string)
    requires Runs(s, closed) && t != "or" && (closed ==> t != "and")
    ensures Runs(s[..|s| - 1] + [s[|s| - 1] + [t]], false)
  {
    var s' := s[..|s| - 1] + [s[|s| - 1] + [t]];
    forall i | 0 <= i < |s'| - 1
      ensures Good(s'[i])
    {
      assert s'[i] == s[i];
    }
    assert s'[|s'| - 1] == s[|s| - 1] + [t];
  }

  /** On a well-formed query, the runs of every prefix are as Runs describes. */
  lemma {:induction false} SplitGood(ts: seq<string>, k: int)
    requires ValidSyntax(ts) && 0 <= k <= |ts|
    ensures Runs(Split(ts[..k]), k == 0 || ts[k - 1] == "or")
    decreases k
  {
    if k > 0 {
      SplitGood(ts, k - 1);
      var p := ts[..k - 1];
      var t := ts[k - 1];
      assert ts[..k] == p + [t];
      SplitSnoc(p, t);
      var closed := k - 1 == 0 || ts[k - 2] == "or";
      if k - 1 > 0 {
        NoAdjacent(ts, k - 1);
      } else {
        assert !IsOperator(ts[0]);
      }
      if t == "or" {
        RunsOr(Split(p));
      } else {
        RunsWord(Split(p), closed, t);
      }
    }
  }

  /** Summed counts: a document's score over the runs is the sum of its run scores. */
  lemma {:induction false} SumRunsCount(w: WordMap, pieces: seq<seq<string>>, d: int)
    requires NonNegWords(w) && forall i :: 0 <= i < |pieces| ==> Good(pieces[i])
    ensures Count(SumRuns(w, pieces), d) == SumMins(w, pieces, d)
    decreases |pieces|
  {
    if pieces != [] {
      var front := pieces[..|pieces| - 1];
      var last := pieces[|pieces| - 1];
      assert forall i :: 0 <= i < |front| ==> front[i] == pieces[i];
      SumRunsCount(w, front, d);
      AndCount(w, last, d);
      DisjCount(SumRuns(w, front), AndScore(w, last), d);
    }
  }

  /** Summed keys: a document is scored when some run matches it. */
  lemma {:induction false} SumRunsMatch(w: WordMap, pieces: seq<seq<string>>, d: int)
    requires PositiveWords(w) && forall i :: 0 <= i < |pieces| ==> Good(pieces[i])
    ensures d in SumRuns(w, pieces) <==> SomeRunHas(w, pieces, d)
    decreases |pieces|
  {
    if pieces != [] {
      var front := pieces[..|pieces| - 1];
      var last := pieces[|pieces| - 1];
      assert forall i :: 0 <= i < |front| ==> front[i] == pieces[i];
      SumRunsMatch(w, front, d);
      AndMatches(w, last, d);
      DisjCount(SumRuns(w, front), AndScore(w, last), d);
      if SomeRunHas(w, pieces, d) {
        var i :| 0 <= i < |pieces| && AllHave(w, Conjuncts(pieces[i]), d);
        if i < |front| {
          assert AllHave(w, Conjuncts(front[i]), d);
        }
      }
      if SomeRunHas(w, front, d) {
        var i :| 0 <= i < |front| && AllHave(w, Conjuncts(front[i]), d);
        assert AllHave(w, Conjuncts(pieces[i]), d);
      }
    }
  }

  /** A well-formed, non-empty query splits into runs that each start with a word. */
  lemma GoodRuns(ts: seq<string>)
    requires ValidSyntax(ts) && ts != []
    ensures forall i :: 0 <= i < |Split(ts)| ==> Good(Split(ts)[i])
  {
    SplitGood(ts, |ts|);
    assert ts[..|ts|] == ts;
    assert ts[|ts| - 1] != "or";
  }

  /**
    Precedence: on a well-formed query a document scores, summed over the
    runs between the "or"s, the smallest of its counts under each run's
    words: "and" binds tighter than "or".
   */
  lemma Precedence(w: WordMap, ts: seq<string>, d: int)
    requires NonNegWords(w) && ValidSyntax(ts) && ts != []
    ensures Count(OrScore(w, ts), d) == SumMins(w, Split(ts), d)
  {
    GoodRuns(ts);
    SumRunsCount(w, Split(ts), d);
  }

  /**
    With positive counts, a document is among a well-formed query's results
    exactly when, in some run, every looked-up word is indexed for it.
   */
  lemma Matches(w: WordMap, ts: seq<string>, d: int)
    requires PositiveWords(w) && ValidSyntax(ts) && ts != []
    ensures d in OrScore(w, ts) <==> SomeRunHas(w, Split(ts), d)
  {
    GoodRuns(ts);
    SumRunsMatch(w, Split(ts), d);
  }

  // ---------------------------------------------------------------------
  // Worked queries

  /**
    A small index: "cat" in documents 1 (3 times) and 2 (once), "dog" in 1
    (twice) and 3 (5 times), "bird" in 2 (4 times).
   */
  function Sample(): WordMap {
    map["cat" := map[1 := 3, 2 := 1], "dog" := map[1 := 2, 3 := 5], "bird" := map[2 := 4]]
  }

  /** A query without "or" is a single run. */
  lemma OneRun(w: WordMap, r: seq<string>)
    requires "or" !in r
    ensures OrScore(w, r) == AndScore(w, r)
  {
    OrStep(w, [], r);
    assert [] + r == r;
    OrEmpty(w);
    DisjIntoEmpty(AndScore(w, r));
  }

  /** The first word of a run is copied in. */
  lemma FirstWord(w: WordMap, t: string)
    requires t != "and"
    ensures AndScore(w, [t]) == Counted(w, t)
  {
    AndNext(w, [], t);
    assert [] + [t] == [t];
    DisjIntoEmpty(Counted(w, t));
  }

  /** The counts of "cat" conjoined with those of "dog". */
  lemma CatAndDog()
    ensures Conj(map[1 := 3, 2 := 1], map[1 := 2, 3 := 5]) == map[1 := 2]
  {
    var both := Conj(map[1 := 3, 2 := 1], map[1 := 2, 3 := 5]);
    ConjKeys(map[1 := 3, 2 := 1], map[1 := 2, 3 := 5]);
    assert map[1 := 3, 2 := 1].Keys * map[1 := 2, 3 := 5].Keys == {1};
  }

  /** "bird" and "dog" share no document. */
  lemma BirdAndDog()
    ensures Conj(map[2 := 4], map[1 := 2, 3 := 5]) == map[]
  {
    ConjKeys(map[2 := 4], map[1 := 2, 3 := 5]);
    assert map[2 := 4].Keys * map[1 := 2, 3 := 5].Keys == {};
  }

  /** The counts of "cat" added to those of "bird". */
  lemma CatOrBird()
    ensures Disj(map[1 := 3, 2 := 1], map[2 := 4]) == map[1 := 3, 2 := 5]
  {
    DisjCount(map[1 := 3, 2 := 1], map[2 := 4], 1);
    assert map[1 := 3, 2 := 1].Keys + map[2 := 4].Keys == {1, 2};
  }

  /** The counts of "cat and dog" added to those of "bird". */
  lemma CatAndDogPlusBird()
    ensures Disj(map[1 := 2], map[2 := 4]) == map[1 := 2, 2 := 4]
  {
    DisjCount(map[1 := 2], map[2 := 4], 1);
    DisjCount(map[1 := 2], map[2 := 4], 2);
    assert map[1 := 2].Keys + map[2 := 4].Keys == {1, 2};
  }

  /** "cat or bird" conjoined with "dog", the reading the source does not use. */
  lemma CatOrBirdAndDog()
    ensures Conj(map[1 := 3, 2 := 5], map[1 := 2, 3 := 5]) == map[1 := 2]
  {
    ConjKeys(map[1 := 3, 2 := 5], map[1 := 2, 3 := 5]);
    assert map[1 := 3, 2 := 5].Keys * map[1 := 2, 3 := 5].Keys == {1};
  }

  /** "cat and dog": only document 1 has both, scored by the smaller count. */
  lemma AndExample()
    ensures OrScore(Sample(), ["cat", "and", "dog"]) == map[1 := 2]
  {
    var w := Sample();
    FirstWord(w, "cat");
    AndNext(w, ["cat"], "and");
    assert ["cat"] + ["and"] == ["cat", "and"];
    AndNext(w, ["cat", "and"], "dog");
    assert ["cat", "and"] + ["dog"] == ["cat", "and", "dog"];
    OneRun(w, ["cat", "and", "dog"]);
    CatAndDog();
  }

  /** "cat or bird": every document of either word, scored by the sum. */
  lemma OrExample()
    ensures OrScore(Sample(), ["cat", "or", "bird"]) == map[1 := 3, 2 := 5]
  {
    var w := Sample();
    FirstWord(w, "cat");
    FirstWord(w, "bird");
    OneRun(w, ["cat"]);
    OrSkip(w, ["cat"]);
    assert ["cat"] + ["or"] == ["cat", "or"];
    OrStep(w, ["cat", "or"], ["bird"]);
    assert ["cat", "or"] + ["bird"] == ["cat", "or", "bird"];
    CatOrBird();
  }

  /**
    "cat or bird and dog" reads as "cat or (bird and dog)", not as
    "(cat or bird) and dog", which would score only document 1, by 2.
   */
  lemma PrecedenceExample()
    ensures OrScore(Sample(), ["cat", "or", "bird", "and", "dog"]) == map[1 := 3, 2 := 1]
    ensures Conj(Disj(Counted(Sample(), "cat"), Counted(Sample(), "bird")), Counted(Sample(), "dog")) == map[1 := 2]
  {
    var w := Sample();
    FirstWord(w, "cat");
    FirstWord(w, "bird");
    OneRun(w, ["cat"]);
    OrSkip(w, ["cat"]);
    assert ["cat"] + ["or"] == ["cat", "or"];
    AndNext(w, ["bird"], "and");
    assert ["bird"] + ["and"] == ["bird", "and"];
    AndNext(w, ["bird", "and"], "dog");
    assert ["bird", "and"] + ["dog"] == ["bird", "and", "dog"];
    BirdAndDog();
    DisjEmpty(map[1 := 3, 2 := 1]);
    assert "or" !in ["bird", "and", "dog"];
    OrStep(w, ["cat", "or"], ["bird", "and", "dog"]);
    assert ["cat", "or"] + ["bird", "and", "dog"] == ["cat", "or", "bird", "and", "dog"];
    CatOrBird();
    CatOrBirdAndDog();
  }

  /**
    "cat and dog or bird" reads as "(cat and dog) or bird": document 1 keeps
    the smaller of its "cat" and "dog" counts, document 2 gets its "bird"
    count, and so ranks above document 1.
   */
  lemma AndThenOrExample()
    ensures OrScore(Sample(), ["cat", "and", "dog", "or", "bird"]) == map[1 := 2, 2 := 4]
  {
    var w := Sample();
    var a := ["cat", "and", "dog", "or"];
    AndThenOr();
    FirstWord(w, "bird");
    OrStep(w, a, ["bird"]);
    CatAndDogPlusBird();
    assert OrScore(w, a + ["bird"]) == map[1 := 2, 2 := 4];
    assert a + ["bird"] == ["cat", "and", "dog", "or", "bird"];
  }

  /** "cat and dog or" scores as "cat and dog". */
  lemma AndThenOr()
    ensures OrScore(Sample(), ["cat", "and", "dog", "or"]) == map[1 := 2]
  {
    AndExample();
    OrSkip(Sample(), ["cat", "and", "dog"]);
    assert ["cat", "and", "dog"] + ["or"] == ["cat", "and", "dog", "or"];
  }
}
