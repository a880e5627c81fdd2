/**
  The scoreboard of the querier (common/scoreboard.c): the (docID, score)
  pairs of a counters are copied into a NULL-terminated array of entries,
  sorted by score, highest first, and then read back through a cursor.

  An entry (scoreEntry_t) is never changed once made, so it is a value here,
  and a slot of the array holds `Some(entry)` or, for NULL, `None`.
 */
module Scoreboards {
  import opened Wrappers
  import opened Pairs
  import opened Counters

  /** scoreEntry_t: a document and its score. */
  datatype ScoreEntry = ScoreEntry(id: int, score: int)

  /** One printed line: "Score %3d | Doc %3d: %s". */
  datatype Row = Row(score: int, id: int, url: string)

  /** What scoreboard_print prints: "No matches found", or the count and the rows. */
  datatype Report = NoMatches | Ranked(count: int, rows: seq<Row>)

  /** The entries addToBoard makes from the pairs counters_iterate visits. */
  function Entries(walk: seq<(int, int)>): (r: seq<Option<ScoreEntry>>)
    ensures |r| == |walk|
    ensures forall k :: 0 <= k < |walk| ==> r[k] == Some(ScoreEntry(walk[k].0, walk[k].1))
  {
    if walk == [] then [] else Entries(walk[..|walk| - 1]) + [Some(ScoreEntry(walk[|walk| - 1].0, walk[|walk| - 1].1))]
  }

  /** Every slot holds an entry. */
  predicate Filled(s: seq<Option<ScoreEntry>>) {
    forall k :: 0 <= k < |s| ==> s[k].Some?
  }

  /** Every slot holds an entry, and no score is above an earlier one: what sortFunc asks of qsort. */
  predicate SortedDown(s: seq<Option<ScoreEntry>>) {
    Filled(s) && forall i, j :: 0 <= i < j < |s| ==> s[i].value.score >= s[j].value.score
  }

  // ---------------------------------------------------------------------
  // Sorting: qsort with sortFunc

  /**
    The position of a highest score among a[lo..hi]; on a tie, the first.
    Reading only.
   */
  method HighestFrom(a: array<Option<ScoreEntry>>, lo: int, hi: int) returns (m: int)
    requires 0 <= lo < hi <= a.Length && Filled(a[..hi])
    ensures lo <= m < hi
    ensures forall k :: lo <= k < hi ==> a[k].value.score <= a[m].value.score
  {
    m := lo;
    for k := lo + 1 to hi
      invariant lo <= m < hi
      invariant forall j :: lo <= j < k ==> a[j].value.score <= a[m].value.score
    {
      if a[k].value.score > a[m].value.score {
        m := k;
      }
    }
  }

  /** The state of the sort after `i` rounds: a sorted prefix, none of whose scores is below the rest. */
  ghost predicate SortedUpTo(s: seq<Option<ScoreEntry>>, i: int) {
    Filled(s) && 0 <= i <= |s| && SortedDown(s[..i]) &&
    forall p, q :: 0 <= p < i <= q < |s| ==> s[p].value.score >= s[q].value.score
  }

  /** Swapping a highest entry of the rest to the front of the rest extends the sorted prefix. */
  lemma SortStep(s: seq<Option<ScoreEntry>>, i: int, m: int)
    requires SortedUpTo(s, i) && i <= m < |s|
    requires forall k :: i <= k < |s| ==> s[k].value.score <= s[m].value.score
    ensures SortedUpTo(s[i := s[m]][m := s[i]], i + 1)
    ensures multiset(s[i := s[m]][m := s[i]]) == multiset(s)
  {
    var t := s[i := s[m]][m := s[i]];
    assert t[..i + 1] == s[..i] + [s[m]];
  }

  /**
    The sort of scoreboard_new: board[0..n) ends up ordered by score,
    highest first, as a permutation of what it held; the slots from n on
    are not touched. The order among equal scores is left open, as qsort
    leaves it.
   */
  method SortByScore(a: array<Option<ScoreEntry>>, n: int)
    requires 0 <= n <= a.Length && Filled(a[..n])
    modifies a
    ensures SortedDown(a[..n])
    ensures multiset(a[..n]) == multiset(old(a[..n]))
    ensures a[n..] == old(a[n..])
  {
    for i := 0 to n
      invariant SortedUpTo(a[..n], i)
      invariant multiset(a[..n]) == multiset(old(a[..n]))
      invariant a[n..] == old(a[n..])
    {
      var m := HighestFrom(a, i, n);
      ghost var s := a[..];
      SortStep(s[..n], i, m);
      a[i], a[m] := a[m], a[i];
      SwapPrefix(s, a[..], n, i, m);
    }
    assert a[..n][..n] == a[..n];
  }

  /** Swapping two slots below `n` swaps them in the prefix and leaves the suffix alone. */
  lemma SwapPrefix(s: seq<Option<ScoreEntry>>, t: seq<Option<ScoreEntry>>, n: int, i: int, m: int)
    requires 0 <= i < n && 0 <= m < n && n <= |s| && t == s[i := s[m]][m := s[i]]
    ensures t[..n] == s[..n][i := s[m]][m := s[i]] && t[n..] == s[n..]
  {
  }

  // ---------------------------------------------------------------------
  // Filling: counters_iterate with addToBoard

  /**
    The array after counters_iterate has called addToBoard on the first `k`
    pairs: those pairs' entries, in visiting order, then NULLs.
   */
  ghost predicate FilledUpTo(b: seq<Option<ScoreEntry>>, walk: seq<(int, int)>, k: int) {
    0 <= k <= |walk| && k <= |b| && b[..k] == Entries(walk[..k]) &&
    forall j :: k <= j < |b| ==> b[j].None?
  }

  /** One call of addToBoard: the slot under the cursor is NULL, so the next entry goes there. */
  lemma FillStep(b: seq<Option<ScoreEntry>>, walk: seq<(int, int)>, k: int)
    requires FilledUpTo(b, walk, k) && k < |walk| && k < |b|
    ensures FilledUpTo(b[k := Some(ScoreEntry(walk[k].0, walk[k].1))], walk, k + 1)
  {
    var b' := b[k := Some(ScoreEntry(walk[k].0, walk[k].1))];
    assert walk[..k + 1][..k] == walk[..k];
    assert b'[..k + 1] == b[..k] + [b'[k]];
  }

  /**
    The slots hold exactly the pairs of `m`: every slot an entry whose score
    is its document's count in `m`, and every pair of `m` in some slot.
   */
  ghost predicate Holds(s: seq<Option<ScoreEntry>>, m: map<int, int>) {
    (forall k :: 0 <= k < |s| ==> s[k].Some? && s[k].value.id in m && s[k].value.score == m[s[k].value.id]) &&
    (forall id :: id in m ==> Some(ScoreEntry(id, m[id])) in s)
  }

  /** The entries made from a walk of `m` hold exactly the pairs of `m`. */
  lemma WalkHolds(walk: seq<(int, int)>, m: map<int, int>)
    requires DistinctKeys(walk) && ToMap(walk) == m
    ensures Holds(Entries(walk), m)
  {
    var e := Entries(walk);
    forall k | 0 <= k < |e|
      ensures e[k].value.id in m && e[k].value.score == m[e[k].value.id]
    {
      ToMapAt(walk, k);
    }
    forall id | id in m
      ensures Some(ScoreEntry(id, m[id])) in e
    {
      ToMapKeys(walk);
      var k :| 0 <= k < |walk| && walk[k].0 == id;
      ToMapAt(walk, k);
      assert e[k] == Some(ScoreEntry(id, m[id]));
    }
  }

  /** Rearranging the slots keeps what they hold. */
  lemma HoldsPermuted(s: seq<Option<ScoreEntry>>, t: seq<Option<ScoreEntry>>, m: map<int, int>)
    requires multiset(s) == multiset(t) && Holds(t, m)
    ensures Holds(s, m)
  {
    forall k | 0 <= k < |s|
      ensures s[k].Some? && s[k].value.id in m && s[k].value.score == m[s[k].value.id]
    {
      assert s[k] in multiset(t);
      var j :| 0 <= j < |t| && t[j] == s[k];
    }
    forall id | id in m
      ensures Some(ScoreEntry(id, m[id])) in s
    {
      assert Some(ScoreEntry(id, m[id])) in multiset(s);
    }
  }

  /**
    counters_iterate(scores, &pos, addToBoard): each visited pair becomes an
    entry in the NULL slot under the cursor, which then moves on.
   */
  method Fill(b: array<Option<ScoreEntry>>, walk: seq<(int, int)>) returns (pos: int)
    requires |walk| < b.Length && forall j :: 0 <= j < b.Length ==> b[j].None?
    modifies b
    ensures pos == |walk| && b[..pos] == Entries(walk) && forall j :: pos <= j < b.Length ==> b[j].None?
  {
    pos := 0;
    assert walk[..0] == [];
    for k := 0 to |walk|
      invariant pos == k && FilledUpTo(b[..], walk, k)
    {
      if b[pos].None? {
        FillStep(b[..], walk, k);
        b[pos] := Some(ScoreEntry(walk[k].0, walk[k].1));
        pos := pos + 1;
      }
    }
    assert walk[..|walk|] == walk;
  }

  /**
    The array scoreboard_new builds: one entry per pair of `scores`, sorted
    by score, highest first, then NULLs.
   */
  method Board(scores: Counters, expectedSize: int) returns (b: array<Option<ScoreEntry>>, n: int)
    requires scores.Valid() && |scores.Contents| < expectedSize
    ensures fresh(b) && b.Length == expectedSize && n == |scores.Contents|
    ensures SortedDown(b[..n]) && Holds(b[..n], scores.Contents)
    ensures forall k :: n <= k < b.Length ==> b[k].None?
  {
    b := new Option<ScoreEntry>[expectedSize](_ => None);
    var walk := scores.Iterate();
    n := Fill(b, walk);
    WalkHolds(walk, scores.Contents);
    Sorted(b, n, scores.Contents);
  }

  /** Sorting the filled prefix keeps what it holds and the NULLs after it. */
  method Sorted(b: array<Option<ScoreEntry>>, n: int, ghost m: map<int, int>)
    requires 0 <= n <= b.Length && Holds(b[..n], m) && forall k :: n <= k < b.Length ==> b[k].None?
    modifies b
    ensures SortedDown(b[..n]) && Holds(b[..n], m) && forall k :: n <= k < b.Length ==> b[k].None?
  {
    ghost var unsorted := b[..n];
    SortByScore(b, n);
    HoldsPermuted(b[..n], unsorted, m);
    assert forall k :: n <= k < b.Length ==> b[k] == b[n..][k - n];
  }

  /**
    `rows` ranks the documents of `m`: one row per document, each with its
    score in `m` and its URL, every document of `m` among them, highest
    score first.
   */
  ghost predicate Ranks(rows: seq<Row>, m: map<int, int>, url: int -> string) {
    |rows| == |m| &&
    (forall k :: 0 <= k < |rows| ==> rows[k].id in m && rows[k].score == m[rows[k].id] && rows[k].url == url(rows[k].id)) &&
    (forall id :: id in m ==> exists k :: 0 <= k < |rows| && rows[k].id == id) &&
    (forall i, j :: 0 <= i < j < |rows| ==> rows[i].score >= rows[j].score)
  }

  /** scoreboard_t. */
  class Scoreboard {
    /** The cursor of next(): the entry last read, -1 before the first. */
    var place: int
    var size: int
    var board: array<Option<ScoreEntry>>

    /**
      The first `size` slots hold entries, sorted by score, highest first,
      and at least one NULL follows them; the cursor stays in the array.
     */
    ghost predicate Valid()
      reads this, board
    {
      0 <= size < board.Length && -1 <= place < board.Length &&
      SortedDown(board[..size]) && forall k :: size <= k < board.Length ==> board[k].None?
    }

    /**
      scoreboard_new: a calloc'd array of expectedSize NULL slots receives
      one entry per pair of `scores`, in iterating order (addToBoard fills
      the slot under the cursor only when it is NULL, which it always is
      here), and is then sorted by score, highest first. The caller must
      leave room for the NULL after the last entry.
     */
    constructor (scores: Counters, expectedSize: int)
      requires scores.Valid() && |scores.Contents| < expectedSize
      ensures Valid() && place == -1 && board.Length == expectedSize && fresh(board)
      ensures size == |scores.Contents| && Holds(board[..size], scores.Contents)
    {
      var b, n := Board(scores, expectedSize);
      board, size, place := b, n, -1;
    }

    /**
      next: moves the cursor on and tells whether it now stands on an entry
      (the NULL after the last entry ends the walk).
     */
    method Next() returns (more: bool)
      requires Valid() && place + 1 < board.Length
      modifies this
      ensures Valid() && place == old(place) + 1 && more == (place < size)
      ensures size == old(size) && board == old(board)
    {
      place := place + 1;
      more := board[place].Some?;
    }

    /** The rows printed for entries lo..hi, each with its document's URL. */
    ghost function RowsOf(lo: int, hi: int, url: int -> string): (rows: seq<Row>)
      requires Valid() && 0 <= lo <= hi <= size
      reads this, board
      ensures |rows| == hi - lo
      ensures forall k :: 0 <= k < hi - lo ==>
        rows[k] == Row(board[lo + k].value.score, board[lo + k].value.id, url(board[lo + k].value.id))
      decreases hi - lo
    {
      if lo == hi then [] else RowsOf(lo, hi - 1, url) + [Row(board[hi - 1].value.score, board[hi - 1].value.id, url(board[hi - 1].value.id))]
    }

    /** A board built from `m` prints a ranking of `m` when read from the start. */
    lemma RowsRank(m: map<int, int>, url: int -> string)
      requires Valid() && size == |m| && Holds(board[..size], m)
      ensures Ranks(RowsOf(0, size, url), m, url)
    {
      var rows := RowsOf(0, size, url);
      forall k | 0 <= k < |rows|
        ensures rows[k].id in m && rows[k].score == m[rows[k].id] && rows[k].url == url(rows[k].id)
      {
        assert board[..size][k] == board[k];
      }
      forall id | id in m
        ensures exists k :: 0 <= k < |rows| && rows[k].id == id
      {
        var k :| 0 <= k < size && board[..size][k] == Some(ScoreEntry(id, m[id]));
        assert rows[k].id == id;
      }
      forall i, j | 0 <= i < j < |rows|
        ensures rows[i].score >= rows[j].score
      {
        assert board[..size][i] == board[i] && board[..size][j] == board[j];
      }
    }

    /**
      The `while (next(sb))` walk of scoreboard_print: one row per entry
      after the cursor, which ends on the NULL after the last entry.
     */
    method Walk(url: int -> string) returns (rows: seq<Row>)
      requires Valid() && place + 1 < board.Length
      modifies this
      ensures Valid() && size == old(size) && board == old(board)
      ensures place == if old(place) < size then size else old(place) + 1
      ensures rows == if old(place) < size then RowsOf(old(place) + 1, size, url) else []
    {
      ghost var start := place + 1;
      rows := [];
      var more := Next();
      while more
        invariant Valid() && size == old(size) && board == old(board)
        invariant more <==> place < size
        invariant start <= size ==> start <= place <= size && rows == RowsOf(start, place, url)
        invariant start > size ==> place == start && rows == []
        decreases size - place
      {
        rows := rows + [Row(board[place].value.score, board[place].value.id, url(board[place].value.id))];
        more := Next();
      }
    }

    /**
      scoreboard_print: "No matches found" for an empty board (the cursor
      is left alone); otherwise the number of entries, then a row per entry
      after the cursor, in rank order, and the cursor is reset to -1. The
      URL of a document is what `url` gives for it.
     */
    method Print(url: int -> string) returns (report: Report)
      requires Valid() && (size == 0 || place + 1 < board.Length)
      modifies this
      ensures Valid() && size == old(size) && board == old(board)
      ensures old(size) == 0 ==> report == NoMatches && place == old(place)
      ensures old(size) > 0 ==>
        place == -1 && report == Ranked(size, if old(place) < size then RowsOf(old(place) + 1, size, url) else [])
    {
      if size == 0 {
        return NoMatches;
      }
      var rows := Walk(url);
      place := -1;
      report := Ranked(size, rows);
    }

    /** The entries lo..hi, in rank order. */
    ghost function EntriesOf(lo: int, hi: int): (es: seq<ScoreEntry>)
      requires Valid() && 0 <= lo <= hi <= size
      reads this, board
      ensures |es| == hi - lo
      ensures forall k :: 0 <= k < hi - lo ==> Some(es[k]) == board[lo + k]
      decreases hi - lo
    {
      if lo == hi then [] else EntriesOf(lo, hi - 1) + [board[hi - 1].value]
    }

    /**
      scoreboard_delete: the entries after the cursor are freed, in rank
      order (all of them when the cursor is at -1, as scoreboard_print
      leaves it); the array and the scoreboard itself are then freed, which
      the model leaves to the garbage collector.
     */
    method Delete() returns (freed: seq<ScoreEntry>)
      requires Valid() && place + 1 < board.Length
      modifies this
      ensures Valid() && size == old(size) && board == old(board)
      ensures freed == if old(place) < size then EntriesOf(old(place) + 1, size) else []
    {
      ghost var start := place + 1;
      freed := [];
      var more := Next();
      while more
        invariant Valid() && size == old(size) && board == old(board)
        invariant more <==> place < size
        invariant start <= size ==> start <= place <= size && freed == EntriesOf(start, place)
        invariant start > size ==> place == start && freed == []
        decreases size - place
      {
        freed := freed + [board[place].value];
        more := Next();
      }
    }
  }
}
