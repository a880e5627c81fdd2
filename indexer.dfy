/**
  The indexer (indexer/indexer.c): every page of the crawler's directory,
  numbered 1, 2, 3, ... up to the first missing one, has its words counted
  into an index under its number; a word shorter than three characters is
  skipped and every other one lower-cased first.

  Loading a page (pagedir_load) and reading its words
  (webpage_getNextWord) are outside the model: the directory is a map from
  document number to the page's words, in page order.
 */
module Indexer {
  import opened Text
  import opened Counters
  import opened Hashtables
  import opened Index
  import opened Word

  /** The number of slots indexBuild asks index_new for. */
  const Slots := 200

  /** index_incrementCount(word, id) on the words: a missing word gets an empty counters, then id is counted. */
  function Incremented(w: WordMap, word: string, id: int): WordMap {
    if id < 0 then w[word := Counted(w, word)] else w[word := Increment(Counted(w, word), id)]
  }

  /** The index after indexPage has read `words` from page `id`. */
  function AddPage(w: WordMap, words: seq<string>, id: int): WordMap
    decreases |words|
  {
    if words == [] then w
    else
      var before := AddPage(w, words[..|words| - 1], id);
      var word := words[|words| - 1];
      if |word| >= 3 then Incremented(before, Lower(word), id) else before
  }

  /** How many of the words are kept and lower-case to `k`. */
  function Occurrences(words: seq<string>, k: string): nat
    decreases |words|
  {
    if words == [] then 0
    else
      var word := words[|words| - 1];
      Occurrences(words[..|words| - 1], k) + if |word| >= 3 && Lower(word) == k then 1 else 0
  }

  /**
    indexPage on page `id` (a document number is never negative): the count
    of a word under `id` grows by the number of the page's kept words that
    lower-case to it, and nothing else changes.
   */
  lemma {:induction false} PageCount(w: WordMap, words: seq<string>, id: int, k: string, d: int)
    requires id >= 0
    ensures Count(Counted(AddPage(w, words, id), k), d) ==
      Count(Counted(w, k), d) + if d == id then Occurrences(words, k) else 0
    decreases |words|
  {
    if words != [] {
      PageCount(w, words[..|words| - 1], id, k, d);
    }
  }

  /** indexPage adds exactly the words the page keeps, lower-cased. */
  lemma {:induction false} PageKeys(w: WordMap, words: seq<string>, id: int, k: string)
    ensures k in AddPage(w, words, id) <==> k in w || Occurrences(words, k) > 0
    decreases |words|
  {
    if words != [] {
      PageKeys(w, words[..|words| - 1], id, k);
    }
  }

  /** A word that occurs is lower-case and at least three characters long. */
  lemma {:induction false} OccurringKept(words: seq<string>, k: string)
    requires Occurrences(words, k) > 0
    ensures |k| >= 3 && IsLowercase(k)
    decreases |words|
  {
    var word := words[|words| - 1];
    if !(|word| >= 3 && Lower(word) == k) {
      OccurringKept(words[..|words| - 1], k);
    }
  }

  /**
    indexPage: each word of the page with at least three characters is
    lower-cased by word_normalizeWord and counted under `id`.
   */
  method IndexPage(idx: Index, words: seq<string>, id: int)
    requires idx.Valid()
    modifies idx.Repr
    ensures idx.Valid() && fresh(idx.Repr - old(idx.Repr))
    ensures idx.Words == AddPage(old(idx.Words), words, id)
  {
    ghost var start := idx.Words;
    for i := 0 to |words|
      invariant idx.Valid() && fresh(idx.Repr - old(idx.Repr))
      invariant idx.Words == AddPage(start, words[..i], id)
    {
      var word := words[i];
      assert words[..i + 1][..i] == words[..i];
      if |word| >= 3 {
        var normalized := NormalizeWord(word);
        var count := idx.IncrementCount(normalized, id);
      }
    }
    assert words[..|words|] == words;
  }

  /** The index after indexBuild has read pages id, id + 1, ... up to the first one missing. */
  ghost function BuiltFrom(pages: map<int, seq<string>>, w: WordMap, id: int): WordMap
    decreases set k | k in pages && k >= id
  {
    if id !in pages then w
    else
      Fewer(pages, id);
      BuiltFrom(pages, AddPage(w, pages[id], id), id + 1)
  }

  /** Reading page id leaves fewer pages from id on to read. */
  lemma Fewer(pages: map<int, seq<string>>, id: int)
    requires id in pages
    ensures (set k | k in pages && k >= id + 1) < (set k | k in pages && k >= id)
  {
    var later := set k | k in pages && k >= id + 1;
    var from := set k | k in pages && k >= id;
    assert id in from && id !in later;
    assert later <= from;
  }

  /** Pages 1 to n are present and page n + 1 is missing. */
  predicate Numbered(pages: map<int, seq<string>>, n: nat) {
    (forall i :: 1 <= i <= n ==> i in pages) && n + 1 !in pages
  }

  lemma {:induction false} BuiltFromCount(pages: map<int, seq<string>>, n: nat, w: WordMap, id: int, k: string, d: int)
    requires Numbered(pages, n) && 1 <= id <= n + 1
    ensures Count(Counted(BuiltFrom(pages, w, id), k), d) ==
      Count(Counted(w, k), d) + if id <= d <= n then Occurrences(pages[d], k) else 0
    decreases n + 1 - id
  {
    if id <= n {
      PageCount(w, pages[id], id, k, d);
      BuiltFromCount(pages, n, AddPage(w, pages[id], id), id + 1, k, d);
    }
  }

  lemma {:induction false} BuiltFromKeys(pages: map<int, seq<string>>, n: nat, w: WordMap, id: int, k: string)
    requires Numbered(pages, n) && 1 <= id <= n + 1
    ensures k in BuiltFrom(pages, w, id) <==> k in w || exists d :: id <= d <= n && Occurrences(pages[d], k) > 0
    decreases n + 1 - id
  {
    if id <= n {
      PageKeys(w, pages[id], id, k);
      BuiltFromKeys(pages, n, AddPage(w, pages[id], id), id + 1, k);
      if exists d :: id <= d <= n && Occurrences(pages[d], k) > 0 {
        var d :| id <= d <= n && Occurrences(pages[d], k) > 0;
        if d != id {
          assert id + 1 <= d <= n && Occurrences(pages[d], k) > 0;
        }
      }
    }
  }

  /**
    What indexBuild builds from pages 1 to n: a word's count under a
    document is the number of that page's kept words that lower-case to
    it, and 0 under a document outside 1..n; the words indexed are exactly
    those some page keeps, each lower-case and at least three characters
    long.
   */
  lemma Built(pages: map<int, seq<string>>, n: nat, k: string, d: int)
    requires Numbered(pages, n)
    ensures Count(Counted(BuiltFrom(pages, map[], 1), k), d) == if 1 <= d <= n then Occurrences(pages[d], k) else 0
    ensures k in BuiltFrom(pages, map[], 1) <==> exists i :: 1 <= i <= n && Occurrences(pages[i], k) > 0
    ensures k in BuiltFrom(pages, map[], 1) ==> |k| >= 3 && IsLowercase(k)
  {
    BuiltFromCount(pages, n, map[], 1, k, d);
    BuiltFromKeys(pages, n, map[], 1, k);
    if k in BuiltFrom(pages, map[], 1) {
      var i :| 1 <= i <= n && Occurrences(pages[i], k) > 0;
      OccurringKept(pages[i], k);
    }
  }

  /**
    indexBuild: an index of 200 slots receives pages 1, 2, 3, ... until a
    page is missing; NULL when there is no page 1.
   */
  method IndexBuild(pages: map<int, seq<string>>, h: HashFn) returns (idx: Index?)
    ensures idx == null <==> 1 !in pages
    ensures idx != null ==>
      idx.Valid() && fresh(idx.Repr) && idx.table.size == Slots && idx.Words == BuiltFrom(pages, map[], 1)
  {
    idx := new Index(Slots, h);
    var id := 1;
    while id in pages
      invariant 1 <= id && (id > 1 ==> 1 in pages)
      invariant idx.Valid() && fresh(idx.Repr) && idx.table.size == Slots
      invariant BuiltFrom(pages, idx.Words, id) == BuiltFrom(pages, map[], 1)
      decreases set k | k in pages && k >= id
    {
      Fewer(pages, id);
      IndexPage(idx, pages[id], id);
      id := id + 1;
    }
    if id == 1 {
      return null;
    }
  }
}
