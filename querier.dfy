/**
  The querier (querier/querier.c): each line read from the user is split
  into words, checked, lower-cased and checked for syntax, then evaluated
  against the index and printed as a ranked scoreboard.

  The index is the one index_reconstruct loaded; reading lines, printing
  and the page directory's URLs are outside the model: a line is a string
  parameter, what would be printed is returned, and pagedir_getURL is the
  function `url`.
 */
module Querier {
  import opened Wrappers
  import opened Text
  import opened Counters
  import opened Unions
  import opened Index
  import opened Word
  import opened Scoreboards
  import opened Queries

  /** index_get, with NULL for a word the index lacks. */
  method Lookup(idx: Index, word: string) returns (c: Counters?)
    requires idx.Valid()
    ensures c == null <==> word !in idx.Words
    ensures c != null ==> c.Valid() && c.Repr <= idx.Repr && c.Contents == idx.Words[word]
  {
    var found := idx.Get(word);
    c := if found.Some? then found.value else null;
  }

  /**
    One pass of conjunctAndSequence's loop on a word that is not "or": an
    "and" is skipped, the word at `start` is added to the union by
    disjunction and a later word combined with it by conjunction.
   */
  method AndWord(u: Union, idx: Index, ts: seq<string>, start: int, pos: int)
    requires idx.Valid() && u.Valid() && u.Repr !! idx.Repr
    requires 0 <= start <= pos < |ts| && u.Acc() == AndScore(idx.Words, ts[start..pos])
    modifies u, u.Repr
    ensures u.Valid() && fresh(u.Repr - old(u.Repr))
    ensures u.Acc() == AndScore(idx.Words, ts[start..pos + 1])
  {
    AndNext(idx.Words, ts[start..pos], ts[pos]);
    assert ts[start..pos + 1] == ts[start..pos] + [ts[pos]];
    if ts[pos] != "and" {
      var c := Lookup(idx, ts[pos]);
      if pos == start {
        u.Disjunction(c);
      } else {
        u.Conjunction(c);
      }
    }
  }

  /**
    conjunctAndSequence: reads words from `start` up to the next "or" (or
    the end), skipping "and"s; the word at `start` is copied into a new
    union by disjunction, every later one combined by conjunction. Returns
    the union's counters and where the reading stopped.
   */
  method ConjunctAndSequence(idx: Index, ts: seq<string>, start: int) returns (ctr: Counters, pos: int)
    requires idx.Valid() && 0 <= start <= |ts|
    ensures start <= pos <= |ts| && (pos == |ts| || ts[pos] == "or")
    ensures forall j :: start <= j < pos ==> ts[j] != "or"
    ensures fresh(ctr.Repr) && ctr.Valid() && ctr.Contents == AndScore(idx.Words, ts[start..pos])
  {
    var u := new Union();
    pos := start;
    while pos < |ts| && ts[pos] != "or"
      invariant start <= pos <= |ts|
      invariant forall j :: start <= j < pos ==> ts[j] != "or"
      invariant u.Valid() && fresh(u.Repr)
      invariant u.Acc() == AndScore(idx.Words, ts[start..pos])
    {
      AndWord(u, idx, ts, start, pos);
      pos := pos + 1;
    }
    ctr := u.GetCounter();
  }

  /** The query read up to `next` is the query read up to `pos`, then the run between. */
  lemma ReadOn(ts: seq<string>, pos: int, next: int)
    requires 0 <= pos <= next <= |ts|
    ensures ts[..next] == ts[..pos] + ts[pos..next]
  {
  }

  /**
    The query read up to the end of a run is the query read up to the "or"
    before it (or the start), combined by disjunction with the run.
   */
  lemma ReadRun(w: WordMap, ts: seq<string>, pos: int, from: int, next: int)
    requires 0 <= pos <= from <= next <= |ts|
    requires (from == pos && pos == 0) || (from == pos + 1 && ts[pos] == "or")
    requires forall j :: from <= j < next ==> ts[j] != "or"
    ensures OrScore(w, ts[..next]) == Disj(OrScore(w, ts[..pos]), AndScore(w, ts[from..next]))
  {
    if from == pos + 1 {
      OrSkip(w, ts[..pos]);
      assert ts[..pos + 1] == ts[..pos] + ["or"];
    }
    assert "or" !in ts[from..next];
    OrStep(w, ts[..from], ts[from..next]);
    ReadOn(ts, from, next);
  }

  /**
    One pass of disjunctOrSequence's loop: an "or" under the cursor is
    skipped, and the run read by conjunctAndSequence from there is added
    to the union by disjunction.
   */
  method OrRun(u: Union, idx: Index, ts: seq<string>, pos: int) returns (next: int)
    requires idx.Valid() && u.Valid() && u.Repr !! idx.Repr
    requires 0 <= pos < |ts| && (pos == 0 || ts[pos] == "or")
    requires u.Acc() == OrScore(idx.Words, ts[..pos])
    modifies u.Repr
    ensures u.Valid() && fresh(u.Repr - old(u.Repr))
    ensures pos < next <= |ts| && (next == |ts| || ts[next] == "or")
    ensures u.Acc() == OrScore(idx.Words, ts[..next])
  {
    var from := if ts[pos] == "or" then pos + 1 else pos;
    var ctr;
    ctr, next := ConjunctAndSequence(idx, ts, from);
    u.Disjunction(ctr);
    ReadRun(idx.Words, ts, pos, from, next);
  }

  /**
    disjunctOrSequence: a new union receives, by disjunction, the result of
    each run read by conjunctAndSequence, an "or" being skipped before each
    run. Returns the union's counters.
   */
  method DisjunctOrSequence(idx: Index, ts: seq<string>) returns (scores: Counters)
    requires idx.Valid()
    ensures fresh(scores.Repr) && scores.Valid() && scores.Contents == OrScore(idx.Words, ts)
  {
    var u := new Union();
    var pos := 0;
    OrEmpty(idx.Words);
    while pos < |ts|
      invariant 0 <= pos <= |ts|
      invariant pos == 0 || pos == |ts| || ts[pos] == "or"
      invariant u.Valid() && fresh(u.Repr)
      invariant u.Acc() == OrScore(idx.Words, ts[..pos])
      decreases |ts| - pos
    {
      pos := OrRun(u, idx, ts, pos);
    }
    assert ts[..pos] == ts;
    scores := u.GetCounter();
  }

  // ---------------------------------------------------------------------
  // One query

  /** What the querier makes of a line: the bad-character, blank and syntax rejections, or an answer. */
  datatype Outcome =
    | BadCharacter
    | Blank
    | BadSyntax(reason: Syntax)
    | Answered(query: seq<string>, report: Report)

  /** The line as a C string: up to its first NUL, if any. */
  function Typed(line: string): string {
    (line + ['\0'])[..Strlen(line + ['\0'])]
  }

  /** Each word lower-cased. */
  function LowerAll(ws: seq<string>): (r: seq<string>)
    ensures |r| == |ws| && forall i :: 0 <= i < |ws| ==> r[i] == Lower(ws[i])
  {
    seq(|ws|, i requires 0 <= i < |ws| => Lower(ws[i]))
  }

  /** A buffer whose last character is NUL ends every C string inside it. */
  lemma EndInside(q: seq<char>, s: nat)
    requires s < |q| && q[|q| - 1] == '\0'
    ensures End(q, s) < |q|
  {
  }

  /**
    word_decomposeSequence then word_normalizeSequence on a copy of the
    line: none for a line with a bad character, else the line's words,
    lower-cased, read from where they start in the buffer.
   */
  method ReadWords(line: string) returns (words: Option<seq<string>>)
    ensures words.None? <==> HasBadCharacter(Typed(line))
    ensures words.Some? ==> words.value == LowerAll(Fields(Typed(line)))
  {
    var buffer := new char[|line| + 1](i requires 0 <= i => if i < |line| then line[i] else '\0');
    assert buffer[..] == line + ['\0'];
    assert buffer[|line|] == '\0';
    var found := DecomposeSequence(buffer);
    if found.None? {
      return None;
    }
    var starts := found.value;
    forall k | 0 <= k < |starts|
      ensures End(buffer[..], starts[k]) < buffer.Length
    {
      EndInside(buffer[..], starts[k]);
    }
    ghost var split := buffer[..];
    NormalizeSequence(buffer, starts);
    words := Some(WordsAt(buffer[..], starts));
    assert words.value == LowerAll(WordsAt(split, starts));
  }

  /**
    Ranking the scores: they go into a scoreboard with one slot per scored
    document and one more for the NULL after them (the source passes 100:
    see the finding below), which is printed and deleted.
   */
  method Rank(scores: Counters, url: int -> string) returns (report: Report)
    requires scores.Valid()
    ensures scores.Contents == map[] ==> report == NoMatches
    ensures scores.Contents != map[] ==>
      report.Ranked? && report.count == |scores.Contents| && Ranks(report.rows, scores.Contents, url)
  {
    var walk := scores.Iterate();
    var board := new Scoreboard(scores, |walk| + 1);
    report := board.Print(url);
    board.RowsRank(scores.Contents, url);
    var freed := board.Delete();
  }

  /** The answer to a well-formed query: disjunctOrSequence's scores, ranked. */
  method Answer(idx: Index, query: seq<string>, url: int -> string) returns (report: Report)
    requires idx.Valid()
    ensures OrScore(idx.Words, query) == map[] ==> report == NoMatches
    ensures OrScore(idx.Words, query) != map[] ==>
      report.Ranked? && report.count == |OrScore(idx.Words, query)| &&
      Ranks(report.rows, OrScore(idx.Words, query), url)
  {
    var scores := DisjunctOrSequence(idx, query);
    report := Rank(scores, url);
  }

  /**
    The per-line body of main: a line with a bad character is dropped, a
    blank one ignored, and one whose lower-cased words break the syntax
    rules rejected; otherwise the words are echoed as the query and
    answered.
   */
  method ProcessQuery(idx: Index, line: string, url: int -> string) returns (r: Outcome)
    requires idx.Valid()
    ensures r.BadCharacter? <==> HasBadCharacter(Typed(line))
    ensures r.Blank? <==> !HasBadCharacter(Typed(line)) && Fields(Typed(line)) == []
    ensures r.BadSyntax? <==>
      !HasBadCharacter(Typed(line)) && Fields(Typed(line)) != [] && !ValidSyntax(LowerAll(Fields(Typed(line))))
    ensures r.BadSyntax? ==> r.reason != Fine
    ensures r.Answered? ==> r.query == LowerAll(Fields(Typed(line))) && r.query != [] && ValidSyntax(r.query)
    ensures r.Answered? && OrScore(idx.Words, r.query) == map[] ==> r.report == NoMatches
    ensures r.Answered? && OrScore(idx.Words, r.query) != map[] ==>
      r.report.Ranked? && r.report.count == |OrScore(idx.Words, r.query)| &&
      Ranks(r.report.rows, OrScore(idx.Words, r.query), url)
  {
    var words := ReadWords(line);
    if words.None? {
      return BadCharacter;
    }
    if |words.value| == 0 {
      return Blank;
    }
    var syntax := CheckSyntax(words.value);
    if syntax != Fine {
      return BadSyntax(syntax);
    }
    var report := Answer(idx, words.value, url);
    r := Answered(words.value, report);
  }

  // ---------------------------------------------------------------------
  // The board size querier.c passes

  /** The number of slots main asks scoreboard_new for, whatever the scores. */
  const SourceCapacity := 100

  /**
    scoreboard_new(scores, 100) stays in the calloc'd array, with a NULL
    after the last entry for next() to stop at, only when fewer than 100
    documents are scored. This is the requires of the Scoreboard
    constructor, |scores.Contents| < expectedSize, at the expectedSize
    querier.c passes.
   */
  predicate FitsSourceBoard(scores: map<int, int>) {
    |scores| < SourceCapacity
  }

  /**
    The scoreboard_new call of querier.c as written: a board of
    SourceCapacity slots, which the constructor accepts exactly for scores
    that fit it.
   */
  method SourceBoard(scores: Counters) returns (b: Scoreboard)
    requires scores.Valid() && FitsSourceBoard(scores.Contents)
    ensures b.Valid() && b.board.Length == SourceCapacity && b.size == |scores.Contents|
    ensures Holds(b.board[..b.size], scores.Contents)
  {
    b := new Scoreboard(scores, SourceCapacity);
  }

  /** The documents 1 to n. */
  function Docs(n: nat): (ds: set<int>)
    ensures forall d :: d in ds ==> 1 <= d <= n
  {
    if n == 0 then {} else Docs(n - 1) + {n}
  }

  lemma {:induction false} DocsSize(n: nat)
    ensures |Docs(n)| == n
  {
    if n > 0 {
      DocsSize(n - 1);
      assert n !in Docs(n - 1);
    }
  }

  /** An index where "cat" occurs once in each of the documents 1 to 100. */
  function Crowded(): WordMap {
    map["cat" := map d | d in Docs(100) :: 1]
  }

  /**
    As written, the query "cat" against an index where "cat" is in 100
    documents scores 100 documents, which the 100-slot board cannot hold
    with the NULL after them: addToBoard and next() read past the array.
   */
  lemma CapacityOverflow()
    ensures |OrScore(Crowded(), ["cat"])| == 100
    ensures !FitsSourceBoard(OrScore(Crowded(), ["cat"]))
  {
    var m := map d | d in Docs(100) :: 1;
    FirstWord(Crowded(), "cat");
    OneRun(Crowded(), ["cat"]);
    DocsSize(100);
    assert m.Keys == Docs(100);
  }
}
