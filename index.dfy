/**
  The index of the search engine (common/index.c): a hashtable from words to
  counters, where a word's counters map each document id to the number of
  times the word occurs in that document.

  The index file that index_save writes and index_reconstruct reads holds
  one line per word: the word, then each (id, count) pair of its counters,
  every item followed by a blank. The model writes the file as a sequence of
  lines and reads back its text, as the whitespace-separated tokens fscanf
  sees, "%d" taking the sign-and-digits prefix of a token.
 */
module Index {
  import opened Wrappers
  import opened Text
  import opened Decimal
  import opened Pairs
  import opened Counters
  import opened Hashtables

  /** What an index stands for: each word's counts by document id. */
  type WordMap = map<string, map<int, int>>

  /** A word's counts; an absent word has none. */
  function Counted(w: WordMap, word: string): map<int, int> {
    if word in w then w[word] else map[]
  }

  /** The index after a successful index_insertCount(word, id, count). */
  function SetCount(w: WordMap, word: string, id: int, count: int): WordMap {
    w[word := Counted(w, word)[id := count]]
  }

  // ---------------------------------------------------------------------
  // The index file

  /** idCountPrint for each pair in turn: "%d %d " per pair, as tokens. */
  function PairTokens(pairs: seq<(int, int)>): seq<string> {
    if pairs == [] then [] else [IntText(pairs[0].0), IntText(pairs[0].1)] + PairTokens(pairs[1..])
  }

  /** wordPrint: the word and then its pairs, each item followed by a blank. */
  function WordLine(word: string, pairs: seq<(int, int)>): string {
    Spaced([word] + PairTokens(pairs))
  }

  /** The lines index_save writes, one per (word, pairs) entry, in the order given. */
  function SaveLines(order: seq<(string, seq<(int, int)>)>): seq<string> {
    seq(|order|, i requires 0 <= i < |order| => WordLine(order[i].0, order[i].1))
  }

  /** The text of a file made of the given lines, each ended by a newline. */
  function Joined(lines: seq<string>): string {
    if lines == [] then "" else lines[0] + "\n" + Joined(lines[1..])
  }

  /** file_numLines: the number of newline characters in a file's text. */
  function NumLines(text: string): nat {
    if text == [] then 0 else (if text[0] == '\n' then 1 else 0) + NumLines(text[1..])
  }

  lemma {:induction false} NumLinesAppend(a: string, b: string)
    ensures NumLines(a + b) == NumLines(a) + NumLines(b)
  {
    if a != [] {
      assert (a + b)[1..] == a[1..] + b;
      NumLinesAppend(a[1..], b);
    } else {
      assert a + b == b;
    }
  }

  lemma {:induction false} NoNewline(text: string)
    requires '\n' !in text
    ensures NumLines(text) == 0
  {
    if text != [] {
      assert text[0] == text[0] && '\n' !in text[1..];
      NoNewline(text[1..]);
    }
  }

  /** A file made of lines with no newline inside has one line per newline written. */
  lemma {:induction false} JoinedLines(lines: seq<string>)
    requires forall i :: 0 <= i < |lines| ==> '\n' !in lines[i]
    ensures NumLines(Joined(lines)) == |lines|
  {
    if lines != [] {
      assert Joined(lines) == lines[0] + ("\n" + Joined(lines[1..]));
      assert forall i :: 0 <= i < |lines[1..]| ==> lines[1..][i] == lines[i + 1];
      NumLinesAppend(lines[0], "\n" + Joined(lines[1..]));
      NumLinesAppend("\n", Joined(lines[1..]));
      assert NumLines("\n") == 1 by {
        assert "\n"[1..] == [];
      }
      NoNewline(lines[0]);
      JoinedLines(lines[1..]);
    }
  }

  /**
    The unread input as fscanf sees it: whitespace-separated tokens, of
    which the first may be the rest of a token a "%d" read stopped inside.
    Its size counts every character and every gap between tokens.
   */
  function Weight(ts: seq<string>): nat {
    if ts == [] then 0 else |ts[0]| + 1 + Weight(ts[1..])
  }

  /** The input after `k` characters of its first token are consumed. */
  function Advance(ts: seq<string>, k: nat): (r: seq<string>)
    requires ts != [] && k <= |ts[0]|
    ensures Weight(r) + k <= Weight(ts)
    ensures k < |ts[0]| ==> r == [ts[0][k..]] + ts[1..]
    ensures k == |ts[0]| ==> r == ts[1..]
  {
    if k == |ts[0]| then ts[1..]
    else
      var r := [ts[0][k..]] + ts[1..];
      assert r[1..] == ts[1..];
      r
  }

  /** What one fscanf("%d %d ") reads: two ints, or fewer, and the input it leaves. */
  datatype PairRead = Two(id: int, count: int, rest: seq<string>) | Fewer(rest: seq<string>)

  /**
    fscanf("%d %d ") at the start of the unread input: a "%d" read into the
    first token, then, if that stored an int and input remains, a second one.
    Either may stop inside a token, and a failing read keeps what it consumed.
   */
  function ReadPair(ts: seq<string>): (r: PairRead)
    ensures Weight(r.rest) <= Weight(ts)
    ensures r.Two? ==> Weight(r.rest) + 2 <= Weight(ts)
  {
    if ts == [] then Fewer([])
    else
      var first := ScanInt(ts[0]);
      var ts1 := Advance(ts, first.used);
      if first.value.None? || ts1 == [] then Fewer(ts1)
      else
        var second := ScanInt(ts1[0]);
        var ts2 := Advance(ts1, second.used);
        if second.value.None? then Fewer(ts2)
        else Two(first.value.value, second.value.value, ts2)
  }

  /**
    The outer loop of index_reconstruct over the unread input, with `w` the
    index built so far: fscanf("%s ") reads the next token as a word and its
    pairs follow. None: index_insertCount refused a pair and NULL is
    returned.
   */
  function ParseWords(ts: seq<string>, w: WordMap): Option<WordMap>
    decreases Weight(ts), 0
  {
    if ts == [] then Some(w) else ParsePairs(ts[0], ts[1..], w)
  }

  /**
    The inner loop: while fscanf("%d %d ") reads two ints, the pair goes to
    index_insertCount; the first call that reads fewer ends the loop, and
    whatever it consumed stays consumed.
   */
  function ParsePairs(word: string, ts: seq<string>, w: WordMap): Option<WordMap>
    decreases Weight(ts), 1
  {
    var r := ReadPair(ts);
    if r.Two? then
      if r.id < 0 || r.count < 0 then None
      else ParsePairs(word, r.rest, SetCount(w, word, r.id, r.count))
    else ParseWords(r.rest, w)
  }

  /** The index read from a file's tokens into an empty index. */
  function Parse(ts: seq<string>): Option<WordMap> {
    ParseWords(ts, map[])
  }

  /**
    A word saved with leading digits is not read back as saved: after the
    pairs of "cat", "%d" reads 2 from "2abc" and "%s" then reads "abc".
   */
  lemma DigitLedWord()
    ensures Parse(["cat", "1", "1", "2abc", "3", "4"]) == Some(map["cat" := map[1 := 1], "abc" := map[3 := 4]])
  {
    DigitLedReads();
    var w1 := map["cat" := map[1 := 1]];
    assert ParsePairs("abc", ["3", "4"], w1) == Some(w1["abc" := map[3 := 4]]);
    assert ParsePairs("cat", ["2abc", "3", "4"], w1) == Some(w1["abc" := map[3 := 4]]);
  }

  lemma DigitLedReads()
    ensures ReadPair(["1", "1", "2abc", "3", "4"]) == Two(1, 1, ["2abc", "3", "4"])
    ensures ReadPair(["2abc", "3", "4"]) == Fewer(["abc", "3", "4"])
    ensures ReadPair(["3", "4"]) == Two(3, 4, [])
  {
    ScanSmall();
    Scan2abc();
  }

  lemma ScanSmall()
    ensures ScanInt("1") == Scan(1, Some(1)) && ScanInt("2") == Scan(1, Some(2))
    ensures ScanInt("3") == Scan(1, Some(3)) && ScanInt("4") == Scan(1, Some(4))
  {
    ScanNumeral("1");
    ScanNumeral("2");
    ScanNumeral("3");
    ScanNumeral("4");
  }

  lemma Scan2abc()
    ensures ScanInt("2abc") == Scan(1, Some(2)) && ScanInt("abc") == Scan(0, None)
  {
    assert SignLength("2abc") == 0;
    assert LeadingDigits("abc") == 0;
    assert "2abc"[1..] == "abc";
    assert LeadingDigits("2abc") == 1;
    assert "2abc"[..1] == "2";
    assert NumeralValue("2") == 2;
  }

  /** A pair may end inside a token: "1 2abc" gives the pair (1, 2), and "abc" is a word without pairs. */
  lemma PairInsideToken()
    ensures Parse(["cat", "1", "2abc"]) == Some(map["cat" := map[1 := 2]])
  {
    ScanSmall();
    Scan2abc();
  }

  /** A sign without digits is consumed by the failing "%d": "-dog" is read as the word "dog". */
  lemma SignConsumed()
    ensures Parse(["cat", "1", "1", "-dog", "2", "2"]) == Some(map["cat" := map[1 := 1], "dog" := map[2 := 2]])
  {
    SignReads();
    var w1 := map["cat" := map[1 := 1]];
    assert ParsePairs("dog", ["2", "2"], w1) == Some(w1["dog" := map[2 := 2]]);
  }

  lemma SignReads()
    ensures ReadPair(["1", "1", "-dog", "2", "2"]) == Two(1, 1, ["-dog", "2", "2"])
    ensures ReadPair(["-dog", "2", "2"]) == Fewer(["dog", "2", "2"])
    ensures ReadPair(["2", "2"]) == Two(2, 2, [])
  {
    ScanSmall();
    ScanDog();
  }

  lemma ScanDog()
    ensures ScanInt("-dog") == Scan(1, None) && ScanInt("dog") == Scan(0, None)
  {
    assert SignLength("-dog") == 1 && "-dog"[1..] == "dog";
    assert LeadingDigits("dog") == 0;
  }

  /** One entry lists the word's counts: pairs with ascending ids that make up the word's counters. */
  ghost predicate Listed(e: (string, seq<(int, int)>), w: WordMap) {
    e.0 in w && Increasing(e.1) && ToMap(e.1) == w[e.0]
  }

  /** `order` lists every word of `w` exactly once with its counts. */
  ghost predicate Listing(order: seq<(string, seq<(int, int)>)>, w: WordMap) {
    DistinctKeys(order) && KeysOf(order) == w.Keys &&
    forall i :: 0 <= i < |order| ==> Listed(order[i], w)
  }

  /**
    An index a file can carry: every word is a token that starts with
    neither a digit nor a sign, so that no "%d" read takes from it, and fits
    the 200-byte word buffer of index_reconstruct; every id and count is a
    non-negative C int.
   */
  ghost predicate Savable(w: WordMap) {
    forall word :: word in w ==>
      IsToken(word) && NoIntStart(word) && |word| < 200 &&
      forall id :: id in w[word] ==> 0 <= id <= IntMax && 0 <= w[word][id] <= IntMax
  }

  /** The (word, id, count) triples of an index, as a map: words without ids carry none. */
  function Nonempty(w: WordMap): WordMap {
    map word | word in w && w[word] != map[] :: w[word]
  }

  /** The tokens of the saved lines, entry after entry. */
  function SavedTokens(order: seq<(string, seq<(int, int)>)>): seq<string> {
    if order == [] then [] else [order[0].0] + PairTokens(order[0].1) + SavedTokens(order[1..])
  }

  /** The map a parse of saved entries adds, one word per entry that has pairs. */
  function Described(order: seq<(string, seq<(int, int)>)>): WordMap {
    if order == [] then map[]
    else if order[0].1 == [] then Described(order[1..])
    else Described(order[1..])[order[0].0 := ToMap(order[0].1)]
  }

  /** An entry a saved file can carry: a token no "%d" reads from as word, ids and counts non-negative. */
  predicate SavableEntry(e: (string, seq<(int, int)>)) {
    IsToken(e.0) && NoIntStart(e.0) &&
    forall j :: 0 <= j < |e.1| ==> e.1[j].0 >= 0 && e.1[j].1 >= 0
  }

  lemma {:induction false} PairTokensAreTokens(pairs: seq<(int, int)>)
    ensures forall t :: t in PairTokens(pairs) ==> IsToken(t)
  {
    if pairs != [] {
      IntTextRoundTrip(pairs[0].0);
      IntTextRoundTrip(pairs[0].1);
      PairTokensAreTokens(pairs[1..]);
    }
  }

  /** A line of tokens, each followed by a blank, then a newline: its fields are the tokens. */
  lemma LineFields(toks: seq<string>, rest: string)
    requires toks != [] && forall t :: t in toks ==> IsToken(t)
    ensures Fields(Spaced(toks) + ("\n" + rest)) == toks + Fields(rest)
  {
    FieldsOfSpaced(toks);
    SpacedEndsInBlank(toks);
    FieldsAppend(Spaced(toks), "\n" + rest);
    assert ("\n" + rest)[1..] == rest;
  }

  /** The saved text is the first entry's line, a newline, and the text of the others. */
  lemma SavedText(order: seq<(string, seq<(int, int)>)>)
    requires order != []
    ensures Joined(SaveLines(order)) ==
      Spaced([order[0].0] + PairTokens(order[0].1)) + ("\n" + Joined(SaveLines(order[1..])))
  {
    assert SaveLines(order)[1..] == SaveLines(order[1..]);
  }

  /** Reading the saved text gives back the tokens written. */
  lemma {:induction false} FieldsOfSaved(order: seq<(string, seq<(int, int)>)>)
    requires forall i :: 0 <= i < |order| ==> IsToken(order[i].0)
    ensures Fields(Joined(SaveLines(order))) == SavedTokens(order)
  {
    if order == [] {
      assert Joined(SaveLines(order)) == "";
    } else {
      var toks := [order[0].0] + PairTokens(order[0].1);
      SavedText(order);
      PairTokensAreTokens(order[0].1);
      LineFields(toks, Joined(SaveLines(order[1..])));
      FieldsOfSaved(order[1..]);
    }
  }

  /** Two numerals written by idCountPrint are read whole, as one pair. */
  lemma ReadTwo(id: int, count: int, more: seq<string>)
    ensures ReadPair([IntText(id), IntText(count)] + more) == Two(id, count, more)
  {
    var ts := [IntText(id), IntText(count)] + more;
    IntTextRoundTrip(id);
    IntTextRoundTrip(count);
    ScanNumeral(IntText(id));
    ScanNumeral(IntText(count));
    assert ts[1..] == [IntText(count)] + more;
    assert ts[1..][1..] == more;
  }

  /** Before a word that starts with neither a digit nor a sign, fscanf("%d %d ") reads nothing. */
  lemma ReadBeforeWord(ts: seq<string>)
    requires ts == [] || NoIntStart(ts[0])
    ensures ReadPair(ts) == Fewer(ts)
  {
    if ts != [] {
      ScanWord(ts[0]);
      assert ts[0][0..] == ts[0];
      assert [ts[0]] + ts[1..] == ts;
    }
  }

  /** A pair of numerals the parse reads goes to index_insertCount. */
  lemma ParsePairStep(word: string, id: int, count: int, more: seq<string>, w: WordMap)
    requires id >= 0 && count >= 0
    ensures ParsePairs(word, [IntText(id), IntText(count)] + more, w) ==
      ParsePairs(word, more, SetCount(w, word, id, count))
  {
    ReadTwo(id, count, more);
  }

  /** Storing one pair and then the rest of the pairs is storing all of them. */
  lemma MergeFirst(m: map<int, int>, id: int, count: int, tail: seq<(int, int)>)
    ensures m[id := count] + ToMap(tail) == m + ToMap([(id, count)] + tail)
  {
    ToMapAppend([(id, count)], tail);
    assert ToMap([(id, count)]) == map[id := count];
    assert m[id := count] == m + map[id := count];
  }

  /** Storing one pair and then the rest of a line's pairs is storing all of its pairs. */
  lemma StoreFirst(w: WordMap, word: string, pairs: seq<(int, int)>)
    requires pairs != []
    ensures Entered(SetCount(w, word, pairs[0].0, pairs[0].1), (word, pairs[1..])) == Entered(w, (word, pairs))
  {
    var id, count, tail := pairs[0].0, pairs[0].1, pairs[1..];
    assert pairs == [(id, count)] + tail;
    var m := Counted(w, word);
    var w' := SetCount(w, word, id, count);
    assert Counted(w', word) == m[id := count];
    MergeFirst(m, id, count, tail);
    if tail == [] {
      assert ToMap(tail) == map[];
      assert m[id := count] + ToMap(tail) == m[id := count];
    }
  }

  /** The tokens of a line's pairs start with those of its first pair. */
  lemma PairTokensFirst(pairs: seq<(int, int)>, rest: seq<string>)
    requires pairs != []
    ensures PairTokens(pairs) + rest == [IntText(pairs[0].0), IntText(pairs[0].1)] + (PairTokens(pairs[1..]) + rest)
  {
  }

  /** A line without pairs leaves the index as it is and the word after it unread. */
  lemma NoPairs(word: string, rest: seq<string>, w: WordMap)
    requires rest == [] || NoIntStart(rest[0])
    ensures ParsePairs(word, PairTokens([]) + rest, w) == ParseWords(rest, Entered(w, (word, [])))
  {
    assert PairTokens([]) + rest == rest;
    ReadBeforeWord(rest);
  }

  /** The pairs of a line go into the word's counts, and the parse carries on with the next word. */
  lemma {:induction false} ParseLinePairs(word: string, pairs: seq<(int, int)>, rest: seq<string>, w: WordMap)
    requires forall j :: 0 <= j < |pairs| ==> pairs[j].0 >= 0 && pairs[j].1 >= 0
    requires rest == [] || NoIntStart(rest[0])
    ensures ParsePairs(word, PairTokens(pairs) + rest, w) == ParseWords(rest, Entered(w, (word, pairs)))
    decreases |pairs|
  {
    if pairs == [] {
      NoPairs(word, rest, w);
    } else {
      var id, count, tail := pairs[0].0, pairs[0].1, pairs[1..];
      PairTokensFirst(pairs, rest);
      ParsePairStep(word, id, count, PairTokens(tail) + rest, w);
      ParseLinePairs(word, tail, rest, SetCount(w, word, id, count));
      StoreFirst(w, word, pairs);
    }
  }

  lemma {:induction false} DescribedKeys(order: seq<(string, seq<(int, int)>)>)
    ensures forall k :: k in Described(order) ==> k in KeysOf(order)
  {
    if order != [] {
      DescribedKeys(order[1..]);
      forall k | k in Described(order[1..]) ensures k in KeysOf(order) {
        var i :| 0 <= i < |order[1..]| && order[1..][i].0 == k;
        assert order[i + 1].0 == k;
      }
      assert order[0].0 in KeysOf(order);
    }
  }

  /** The index after the pairs of entry `e` went in. */
  function Entered(w: WordMap, e: (string, seq<(int, int)>)): WordMap {
    if e.1 == [] then w else w[e.0 := Counted(w, e.0) + ToMap(e.1)]
  }

  /** Reading the first saved entry, word and pairs, leaves the tokens of the others. */
  lemma ParseEntry(order: seq<(string, seq<(int, int)>)>, w: WordMap)
    requires order != [] && SavableEntry(order[0]) && (|order| > 1 ==> SavableEntry(order[1]))
    ensures ParseWords(SavedTokens(order), w) == ParseWords(SavedTokens(order[1..]), Entered(w, order[0]))
  {
    var rest := SavedTokens(order[1..]);
    var ts := SavedTokens(order);
    assert ts[0] == order[0].0 && ts[1..] == PairTokens(order[0].1) + rest;
    ParseLinePairs(order[0].0, order[0].1, rest, w);
  }

  /**
    After the first saved entry is read, the others are still savable and
    new to the index, and adding them gives what adding all entries gives.
   */
  lemma SavedRest(order: seq<(string, seq<(int, int)>)>, w: WordMap)
    requires order != [] && DistinctKeys(order)
    requires forall i :: 0 <= i < |order| ==> SavableEntry(order[i]) && order[i].0 !in w
    ensures DistinctKeys(order[1..])
    ensures forall i :: 0 <= i < |order[1..]| ==> SavableEntry(order[1..][i]) && order[1..][i].0 !in Entered(w, order[0])
    ensures Entered(w, order[0]) + Described(order[1..]) == w + Described(order)
  {
    var word, pairs := order[0].0, order[0].1;
    var tail := order[1..];
    assert SavableEntry(order[0]) && word !in w;
    assert Counted(w, word) + ToMap(pairs) == ToMap(pairs);
    forall i | 0 <= i < |tail| ensures SavableEntry(tail[i]) && tail[i].0 !in Entered(w, order[0]) {
      assert tail[i] == order[i + 1];
    }
    DescribedKeys(tail);
    forall i | 0 <= i < |tail|
      ensures tail[i].0 != word
    {
      assert tail[i] == order[i + 1];
    }
    if pairs != [] {
      UpdateMerge(w, Described(tail), word, ToMap(pairs));
    }
  }

  /** Parsing the tokens of saved entries adds each entry that has pairs to the index read so far. */
  lemma {:induction false} ParseSaved(order: seq<(string, seq<(int, int)>)>, w: WordMap)
    requires DistinctKeys(order)
    requires forall i :: 0 <= i < |order| ==> SavableEntry(order[i]) && order[i].0 !in w
    ensures ParseWords(SavedTokens(order), w) == Some(w + Described(order))
  {
    if order == [] {
      assert w + map[] == w;
    } else {
      assert SavableEntry(order[0]);
      if |order| > 1 {
        assert SavableEntry(order[1]);
      }
      ParseEntry(order, w);
      SavedRest(order, w);
      ParseSaved(order[1..], Entered(w, order[0]));
    }
  }

  /** Merging after an update is updating after the merge, for a key the merged map lacks. */
  lemma UpdateMerge<K, V>(a: map<K, V>, b: map<K, V>, k: K, v: V)
    requires k !in b
    ensures a[k := v] + b == a + b[k := v]
  {
  }

  /** Merging into an empty map gives the merged map. */
  lemma EmptyMerge<K, V>(m: map<K, V>)
    ensures map[] + m == m
  {
  }

  /** Each entry with pairs is described by its pairs' map; an entry without pairs adds nothing. */
  lemma {:induction false} DescribedAt(order: seq<(string, seq<(int, int)>)>, i: int)
    requires DistinctKeys(order) && 0 <= i < |order|
    ensures order[i].1 != [] <==> order[i].0 in Described(order)
    ensures order[i].1 != [] ==> Described(order)[order[i].0] == ToMap(order[i].1)
  {
    DescribedKeys(order[1..]);
    if i == 0 {
      forall j | 0 <= j < |order[1..]|
        ensures order[1..][j].0 != order[0].0
      {
        assert order[1..][j] == order[j + 1];
      }
    } else {
      DescribedAt(order[1..], i - 1);
      assert order[1..][i - 1] == order[i];
    }
  }

  /** A non-empty sequence of pairs stands for a non-empty map. */
  lemma NonemptyToMap(s: seq<(int, int)>)
    requires s != []
    ensures ToMap(s) != map[]
  {
    assert s[|s| - 1].0 in ToMap(s);
  }

  /** The entries saved for an index describe exactly its (word, id, count) triples. */
  lemma ListingDescribes(order: seq<(string, seq<(int, int)>)>, w: WordMap)
    requires Listing(order, w)
    ensures Described(order) == Nonempty(w)
  {
    forall word | word in w ensures (word in Described(order) <==> w[word] != map[]) &&
      (word in Described(order) ==> Described(order)[word] == w[word])
    {
      assert word in KeysOf(order);
      var i :| 0 <= i < |order| && order[i].0 == word;
      assert Listed(order[i], w);
      DescribedAt(order, i);
      if order[i].1 != [] {
        NonemptyToMap(order[i].1);
      }
    }
    DescribedKeys(order);
  }

  /** An entry whose word fits the word buffer and whose ids and counts are non-negative C ints. */
  predicate ShortEntry(e: (string, seq<(int, int)>)) {
    |e.0| < 200 &&
    forall j :: 0 <= j < |e.1| ==> 0 <= e.1[j].0 <= IntMax && 0 <= e.1[j].1 <= IntMax
  }

  /** Every entry listed for a savable index is savable and short. */
  lemma ListingSavable(order: seq<(string, seq<(int, int)>)>, w: WordMap, i: int)
    requires Listing(order, w) && Savable(w) && 0 <= i < |order|
    ensures SavableEntry(order[i]) && ShortEntry(order[i])
  {
    assert Listed(order[i], w);
    var pairs := order[i].1;
    IncreasingDistinct(pairs);
    forall j | 0 <= j < |pairs|
      ensures 0 <= pairs[j].0 <= IntMax && 0 <= pairs[j].1 <= IntMax
    {
      ToMapAt(pairs, j);
    }
  }

  lemma ListingEntries(order: seq<(string, seq<(int, int)>)>, w: WordMap)
    requires Listing(order, w) && Savable(w)
    ensures forall i :: 0 <= i < |order| ==> SavableEntry(order[i]) && ShortEntry(order[i])
  {
    forall i | 0 <= i < |order|
      ensures SavableEntry(order[i]) && ShortEntry(order[i])
    {
      ListingSavable(order, w, i);
    }
  }

  /** Every token of a file of short entries fits the 200-byte word buffer. */
  lemma {:induction false} SavedTokensShort(order: seq<(string, seq<(int, int)>)>)
    requires forall i :: 0 <= i < |order| ==> ShortEntry(order[i])
    ensures forall t :: t in SavedTokens(order) ==> |t| < 200
  {
    if order != [] {
      assert ShortEntry(order[0]);
      PairTokensShort(order[0].1);
      SavedTokensShort(order[1..]);
    }
  }

  lemma {:induction false} PairTokensShort(pairs: seq<(int, int)>)
    requires forall j :: 0 <= j < |pairs| ==> 0 <= pairs[j].0 <= IntMax && 0 <= pairs[j].1 <= IntMax
    ensures forall t :: t in PairTokens(pairs) ==> |t| <= 10
  {
    if pairs != [] {
      IntTextShort(pairs[0].0);
      IntTextShort(pairs[0].1);
      PairTokensShort(pairs[1..]);
    }
  }

  /** Parsing saved entries into an empty index gives what they describe. */
  lemma ParseSavedFromEmpty(order: seq<(string, seq<(int, int)>)>)
    requires DistinctKeys(order)
    requires forall i :: 0 <= i < |order| ==> SavableEntry(order[i])
    ensures Parse(SavedTokens(order)) == Some(Described(order))
  {
    ParseSaved(order, map[]);
    EmptyMerge(Described(order));
  }

  /**
    The round trip of indextest: reading back the file saved for an index
    yields exactly the index's (word, id, count) triples, whatever order the
    words were saved in.
   */
  lemma SaveThenParse(order: seq<(string, seq<(int, int)>)>, w: WordMap)
    requires Listing(order, w) && Savable(w)
    ensures Parse(Fields(Joined(SaveLines(order)))) == Some(Nonempty(w))
  {
    ListingEntries(order, w);
    FieldsOfSaved(order);
    ParseSavedFromEmpty(order);
    ListingDescribes(order, w);
  }

  /** No token of the file saved for a savable index overflows the word buffer of index_reconstruct. */
  lemma SavedFileFits(order: seq<(string, seq<(int, int)>)>, w: WordMap)
    requires Listing(order, w) && Savable(w)
    ensures forall t :: t in Fields(Joined(SaveLines(order))) ==> |t| < 200
  {
    ListingEntries(order, w);
    FieldsOfSaved(order);
    SavedTokensShort(order);
  }

  // ---------------------------------------------------------------------
  // The index object

  /** index_t: a hashtable whose items are the words' counters. */
  class Index {
    const table: Hashtable<Counters>
    /** Each word's counts, as its counters hold them. */
    ghost var Words: WordMap
    /** Each word's counters' footprint. */
    ghost var Parts: map<string, set<object>>
    ghost var Repr: set<object>

    /**
      The hashtable holds one counters per word, each a separate object
      standing for that word's counts.
     */
    ghost predicate Valid()
      reads this, Repr
    {
      this in Repr && table in Repr && table.Repr <= Repr && this !in table.Repr &&
      table.Valid() &&
      table.Contents.Keys == Words.Keys && Parts.Keys == Words.Keys &&
      (forall word {:trigger WordValid(word)} :: word in Words ==> WordValid(word)) &&
      PartsDisjoint()
    }

    /** The words' counters share no object with each other or with the hashtable. */
    ghost predicate PartsDisjoint()
      reads this, table
    {
      (forall v, w :: v in Parts && w in Parts && v != w ==> Parts[v] !! Parts[w]) &&
      (forall word :: word in Parts ==> Parts[word] !! table.Repr)
    }

    /** The word's counters is valid, owns Parts[word] and holds Words[word]. */
    ghost predicate WordValid(word: string)
      reads this, Repr
    {
      table in Repr && word in table.Contents && word in Parts && word in Words &&
      Parts[word] <= Repr && table.Contents[word] in Parts[word] &&
      var c := table.Contents[word];
      c.Repr == Parts[word] && this !in Parts[word] && c.Valid() && c.Contents == Words[word]
    }

    /** The allocation half of index_new. */
    constructor (size: int, h: HashFn)
      requires size > 0
      ensures Valid() && fresh(Repr)
      ensures table.size == size && table.hash == h && Words == map[]
    {
      table := new Hashtable(size, h);
      Words, Parts := map[], map[];
      new;
      Repr := {this} + table.Repr;
    }

    /** index_new: NULL for a size that is not positive, otherwise an empty index of that many slots. */
    static method New(size: int, h: HashFn) returns (idx: Index?)
      ensures size <= 0 ==> idx == null
      ensures size > 0 ==>
        idx != null && idx.Valid() && fresh(idx.Repr) && idx.table.size == size && idx.table.hash == h &&
        idx.Words == map[]
    {
      if size <= 0 {
        return null;
      }
      idx := new Index(size, h);
    }

    /**
      The first half of index_incrementCount and index_insertCount: a new
      counters is offered to the hashtable under the word, which keeps it
      only when the word is new (otherwise it is deleted), and the word's
      counters are then found.
     */
    method CountersFor(word: string) returns (c: Counters)
      requires Valid()
      modifies Repr
      ensures Valid() && fresh(Repr - old(Repr))
      ensures Words == old(Words)[word := Counted(old(Words), word)]
      ensures word in table.Contents && c == table.Contents[word] && WordValid(word)
    {
      var offered := new Counters();
      var added := Offer(word, offered);
      c := table.Find(word).value;
      assert WordValid(word);
    }

    /** hashtable_insert of a counters that is not yet in the index. */
    method Offer(word: string, offered: Counters) returns (added: bool)
      requires Valid() && offered.Valid() && offered.Contents == map[] && offered.Repr !! Repr
      modifies Repr
      ensures Valid() && fresh(Repr - old(Repr) - offered.Repr)
      ensures added <==> word !in old(Words)
      ensures Words == old(Words)[word := Counted(old(Words), word)]
      ensures word in table.Contents
    {
      added := table.Insert(word, offered);
      if added {
        assert offered.Repr !! table.Repr;
        assert this !in table.Repr;
        label Inserted:
        Repr, Words, Parts := Repr + table.Repr + offered.Repr, Words[word := map[]], Parts[word := offered.Repr];
        TableStays@Inserted(table);
        CountersStay(offered);
        WordAdded(word);
      } else {
        assert this !in table.Repr;
        label Grown:
        Repr := Repr + table.Repr;
        TableStays@Grown(table);
        TableGrew();
        UpdateSame(Words, word);
      }
    }

    /** Inserting a new word's empty counters keeps the index valid. */
    twostate lemma WordAdded(word: string)
      requires old(Valid()) && word !in old(Words)
      requires forall o: object :: o in old(Repr) && o !in old(table.Repr) && o != this ==> unchanged(o)
      requires table.Valid() && fresh(table.Repr - old(table.Repr))
      requires word in table.Contents && table.Contents == old(table.Contents)[word := table.Contents[word]]
      requires table.Contents[word].Valid() && table.Contents[word].Repr !! old(Repr)
      requires table.Contents[word].Contents == map[] && table.Contents[word].Repr !! table.Repr
      requires Repr == old(Repr) + table.Repr + table.Contents[word].Repr
      requires Words == old(Words)[word := map[]] && Parts == old(Parts)[word := table.Contents[word].Repr]
      ensures Valid()
    {
      forall v | v in Words && v != word
        ensures WordValid(v) && Parts[v] !! Parts[word]
      {
        assert old(WordValid(v));
        CountersStay(table.Contents[v]);
      }
    }

    /** A hashtable that grew without gaining a word keeps the index valid. */
    twostate lemma TableGrew()
      requires old(Valid())
      requires forall o: object :: o in old(Repr) && o !in old(table.Repr) && o != this ==> unchanged(o)
      requires table.Valid() && fresh(table.Repr - old(table.Repr)) && table.Contents == old(table.Contents)
      requires Repr == old(Repr) + table.Repr && Words == old(Words) && Parts == old(Parts)
      ensures Valid()
    {
      forall v | v in Words
        ensures WordValid(v)
      {
        assert old(WordValid(v));
        CountersStay(table.Contents[v]);
      }
    }

    /** A change confined to one word's counters keeps the index valid. */
    twostate lemma WordChanged(word: string)
      requires old(Valid()) && word in old(Words)
      requires forall o: object :: o in old(Repr) && o !in old(Parts[word]) && o != this ==> unchanged(o)
      requires old(table.Contents[word]).Valid() && fresh(old(table.Contents[word]).Repr - old(Parts[word]))
      requires Repr == old(Repr) + old(table.Contents[word]).Repr
      requires Parts == old(Parts)[word := old(table.Contents[word]).Repr]
      requires Words == old(Words)[word := old(table.Contents[word]).Contents]
      ensures Valid()
    {
      assert old(WordValid(word));
      TableStays(table);
      OthersStay(word);
      StillDisjoint(word);
      assert WordValid(word);
    }

    /** Objects a word's counters gain are new, so they overlap nothing else. */
    twostate lemma StillDisjoint(word: string)
      requires old(Valid()) && word in old(Words) && word in Parts
      requires table.Repr == old(table.Repr)
      requires fresh(Parts[word] - old(Parts[word]))
      requires Parts == old(Parts)[word := Parts[word]]
      ensures PartsDisjoint()
    {
      assert old(PartsDisjoint());
    }

    /** ... and leaves every other word as it was. */
    twostate lemma OthersStay(word: string)
      requires old(Valid()) && word in old(Words)
      requires forall o: object :: o in old(Repr) && o !in old(Parts[word]) && o != this ==> unchanged(o)
      requires fresh(old(table.Contents[word]).Repr - old(Parts[word]))
      requires Repr == old(Repr) + old(table.Contents[word]).Repr
      requires Parts == old(Parts)[word := old(table.Contents[word]).Repr]
      requires Words == old(Words)[word := old(table.Contents[word]).Contents]
      ensures forall v :: v in Words && v != word ==> WordValid(v)
    {
      forall v | v in Words && v != word
        ensures WordValid(v)
      {
        assert old(WordValid(v));
        CountersStay(table.Contents[v]);
      }
    }

    /** counters_add on the word's counters (the last step of index_incrementCount). */
    method AddInWord(c: Counters, word: string, id: int) returns (r: int)
      requires Valid() && word in table.Contents && c == table.Contents[word]
      modifies c.Repr, this
      ensures Valid() && fresh(Repr - old(Repr))
      ensures id < 0 ==> r == 0 && Words == old(Words)
      ensures id >= 0 ==> Words == old(Words)[word := Increment(old(Words)[word], id)] && r == Words[word][id]
    {
      assert WordValid(word);
      r := c.Add(id);
      assert this !in c.Repr;
      label Changed:
      Repr, Words, Parts := Repr + c.Repr, Words[word := c.Contents], Parts[word := c.Repr];
      CountersStay@Changed(c);
      WordChanged(word);
      if id < 0 {
        UpdateSame(old(Words), word);
      }
    }

    /** counters_set on the word's counters (the last step of index_insertCount). */
    method SetInWord(c: Counters, word: string, id: int, count: int) returns (ok: bool)
      requires Valid() && word in table.Contents && c == table.Contents[word]
      modifies c.Repr, this
      ensures Valid() && fresh(Repr - old(Repr))
      ensures ok <==> id >= 0 && count >= 0
      ensures ok ==> Words == old(Words)[word := old(Words)[word][id := count]]
      ensures !ok ==> Words == old(Words)
    {
      assert WordValid(word);
      ok := c.Set(id, count);
      assert this !in c.Repr;
      label Changed:
      Repr, Words, Parts := Repr + c.Repr, Words[word := c.Contents], Parts[word := c.Repr];
      CountersStay@Changed(c);
      WordChanged(word);
      if !ok {
        UpdateSame(old(Words), word);
      }
    }

    /**
      index_incrementCount: the word gets counters if it had none, even when
      the id is then refused; a negative id is refused with result 0,
      otherwise the word's count for the id goes up by one and the new count
      is returned.
     */
    method IncrementCount(word: string, id: int) returns (r: int)
      requires Valid()
      modifies Repr
      ensures Valid() && fresh(Repr - old(Repr))
      ensures id < 0 ==> r == 0 && Words == old(Words)[word := Counted(old(Words), word)]
      ensures id >= 0 ==> r == Count(Counted(old(Words), word), id) + 1
      ensures id >= 0 ==> Words == old(Words)[word := Increment(Counted(old(Words), word), id)]
    {
      var c := CountersFor(word);
      ghost var counts := Words[word];
      r := AddInWord(c, word, id);
      if id >= 0 {
        UpdateTwice(old(Words), word, counts, Increment(counts, id));
      }
    }

    /**
      index_insertCount: the word gets counters if it had none; a negative id
      or count is refused with false, otherwise the word's count for the id
      becomes exactly `count`.
     */
    method InsertCount(word: string, id: int, count: int) returns (ok: bool)
      requires Valid()
      modifies Repr
      ensures Valid() && fresh(Repr - old(Repr))
      ensures ok <==> id >= 0 && count >= 0
      ensures ok ==> Words == SetCount(old(Words), word, id, count)
      ensures !ok ==> Words == old(Words)[word := Counted(old(Words), word)]
    {
      var c := CountersFor(word);
      ghost var counts := Words[word];
      ok := SetInWord(c, word, id, count);
      if ok {
        UpdateTwice(old(Words), word, counts, counts[id := count]);
      }
    }

    /** index_get: the word's counters, or NULL for a word the index lacks. */
    function Get(word: string): (r: Option<Counters>)
      requires Valid()
      reads this, Repr
      ensures r.Some? <==> word in Words
      ensures r.Some? ==> r.value in Repr && r.value.Repr <= Repr && r.value.Valid() && r.value.Contents == Words[word]
    {
      assert word in Words ==> WordValid(word);
      table.Find(word)
    }

    /**
      index_save: a file that cannot be opened gets nothing and the call
      fails; otherwise the file gets one line per word, in the order
      hashtable_iterate visits the words, and each line lists the word's
      pairs in the order counters_iterate visits them (ascending ids).
     */
    method Save(writable: bool) returns (ok: bool, lines: seq<string>, ghost order: seq<(string, seq<(int, int)>)>)
      requires Valid()
      ensures ok == writable
      ensures !ok ==> lines == []
      ensures ok ==> lines == SaveLines(order) && Listing(order, Words) && TableOrdered(order, table.hash, table.size)
    {
      ok, lines, order := false, [], [];
      if !writable {
        return;
      }
      var s := table.Iterate();
      forall i | 0 <= i < |s|
        ensures s[i].1.Valid() && Listed((s[i].0, s[i].1.Iterate()), Words)
      {
        IterateListed(s, i);
      }
      lines, order := PrintWords(s);
      ok := true;
      ListingOfIterate(s, order, Words, table.hash, table.size);
    }

    /** The word hashtable_iterate hands over at step i comes with counters that list the word's counts. */
    lemma IterateListed(s: seq<(string, Counters)>, i: int)
      requires Valid() && DistinctKeys(s) && ToMap(s) == table.Contents && 0 <= i < |s|
      ensures s[i].1.Valid() && Listed((s[i].0, s[i].1.Iterate()), Words)
    {
      ToMapAt(s, i);
      assert WordValid(s[i].0);
    }

    /**
      index_reconstruct on a file given as its text, or None when it cannot
      be opened: the index has one slot per newline of the file (so a file
      without a newline gives no index), and every (id, count) pair read
      after a word goes to index_insertCount, whose refusal of a negative id
      or count gives no index.
     */
    static method Reconstruct(file: Option<string>, h: HashFn) returns (idx: Index?)
      requires file.Some? ==> forall t :: t in Fields(file.value) ==> |t| < 200
      ensures file.None? ==> idx == null
      ensures file.Some? && NumLines(file.value) == 0 ==> idx == null
      ensures file.Some? && NumLines(file.value) > 0 ==> (idx == null <==> Parse(Fields(file.value)) == None)
      ensures idx != null ==>
        file.Some? && idx.Valid() && fresh(idx.Repr) && idx.table.size == NumLines(file.value) &&
        idx.table.hash == h && Parse(Fields(file.value)) == Some(idx.Words)
    {
      if file.None? {
        return null;
      }
      idx := New(NumLines(file.value), h);
      if idx == null {
        return;
      }
      var ts := Fields(file.value);
      ghost var result := Parse(ts);
      while ts != []
        invariant idx.Valid() && fresh(idx.Repr)
        invariant ParseWords(ts, idx.Words) == result
        decreases Weight(ts)
      {
        var ok;
        ts, ok := idx.ReadPairs(ts[0], ts[1..]);
        if !ok {
          return null;
        }
      }
    }

    /**
      The inner loop of index_reconstruct: while fscanf("%d %d ") reads two
      ints from the unread input, the pair is stored under the word with
      index_insertCount, and a refused pair stops the reading. The input
      left is what the call that read fewer did not consume.
     */
    method ReadPairs(word: string, input: seq<string>) returns (rest: seq<string>, ok: bool)
      requires Valid()
      modifies Repr
      ensures Valid() && fresh(Repr - old(Repr)) && Weight(rest) < |word| + 1 + Weight(input)
      ensures ok ==> ParsePairs(word, input, old(Words)) == ParseWords(rest, Words)
      ensures !ok ==> ParsePairs(word, input, old(Words)) == None
    {
      rest := input;
      var r := ReadPair(rest);
      while r.Two?
        invariant Valid() && fresh(Repr - old(Repr)) && Weight(rest) <= Weight(input)
        invariant r == ReadPair(rest)
        invariant ParsePairs(word, input, old(Words)) == ParsePairs(word, rest, Words)
        decreases Weight(rest)
      {
        ok := InsertCount(word, r.id, r.count);
        if !ok {
          return;
        }
        rest := r.rest;
        r := ReadPair(rest);
      }
      rest, ok := r.rest, true;
    }
  }

  /**
    wordPrint for each (word, counters) pair hashtable_iterate hands over:
    one line per word, listing the pairs counters_iterate visits.
   */
  method PrintWords(s: seq<(string, Counters)>) returns (lines: seq<string>, order: seq<(string, seq<(int, int)>)>)
    requires forall i :: 0 <= i < |s| ==> Intact(s[i].1)
    ensures lines == SaveLines(order)
    ensures |order| == |s| && forall k :: 0 <= k < |s| ==> order[k].0 == s[k].0 && order[k].1 == PairsOf(s[k].1)
  {
    lines, order := [], [];
    for i := 0 to |s|
      invariant |order| == i && lines == SaveLines(order)
      invariant forall k :: 0 <= k < i ==> order[k].0 == s[k].0 && order[k].1 == PairsOf(s[k].1)
    {
      var e := (s[i].0, PairsOf(s[i].1));
      SaveLinesAppend(order, e);
      order := order + [e];
      lines := lines + [WordLine(e.0, e.1)];
    }
  }

  /** A counters handed over by hashtable_iterate, in the state its callback sees it. */
  ghost predicate Intact(c: Counters)
    reads c, c.Repr
  {
    c.Valid()
  }

  /** counters_iterate on such a counters. */
  function PairsOf(c: Counters): (pairs: seq<(int, int)>)
    requires Intact(c)
    reads c, c.Repr
    ensures pairs == c.Iterate()
  {
    c.Iterate()
  }

  /** One more entry adds its line at the end. */
  lemma SaveLinesAppend(order: seq<(string, seq<(int, int)>)>, e: (string, seq<(int, int)>))
    ensures SaveLines(order + [e]) == SaveLines(order) + [WordLine(e.0, e.1)]
  {
  }

  /** Entries made in a hashtable's iteration order list every word once, in that order. */
  lemma ListingOfIterate<V>(s: seq<(string, V)>, order: seq<(string, seq<(int, int)>)>, w: WordMap, hash: HashFn, size: int)
    requires DistinctKeys(s) && ToMap(s).Keys == w.Keys && TableOrdered(s, hash, size)
    requires |order| == |s| && forall k :: 0 <= k < |s| ==> order[k].0 == s[k].0 && Listed(order[k], w)
    ensures Listing(order, w) && TableOrdered(order, hash, size)
  {
    ToMapKeys(s);
    SameKeys(s, order);
  }

  /**
    indextest: the index read back from the file an index was saved to holds
    the same words, ids and counts, except that words without any count are
    not written.
   */
  method SaveThenReconstruct(idx: Index) returns (copy: Index?)
    requires idx.Valid() && Savable(idx.Words) && idx.Words != map[]
    ensures copy != null && copy.Valid() && copy.Words == Nonempty(idx.Words)
  {
    var ok, lines, order := idx.Save(true);
    ghost var w := idx.Words;
    SavedFile(order, w);
    copy := Index.Reconstruct(Some(Joined(lines)), idx.table.hash);
    assert Some(copy.Words) == Some(Nonempty(w));
  }

  /** The file index_save writes for a non-empty index is not empty, fits the reader and parses back. */
  lemma SavedFile(order: seq<(string, seq<(int, int)>)>, w: WordMap)
    requires Listing(order, w) && Savable(w) && w != map[]
    ensures NumLines(Joined(SaveLines(order))) == |order| > 0
    ensures forall t :: t in Fields(Joined(SaveLines(order))) ==> |t| < 200
    ensures Parse(Fields(Joined(SaveLines(order)))) == Some(Nonempty(w))
  {
    SaveThenParse(order, w);
    SavedFileFits(order, w);
    ListingEntries(order, w);
    SavedLinesPlain(order);
    JoinedLines(SaveLines(order));
    var word :| word in w;
    assert word in KeysOf(order);
  }

  /** No line index_save writes for entries whose words are tokens holds a newline. */
  lemma SavedLinesPlain(order: seq<(string, seq<(int, int)>)>)
    requires forall i :: 0 <= i < |order| ==> SavableEntry(order[i])
    ensures forall i :: 0 <= i < |SaveLines(order)| ==> '\n' !in SaveLines(order)[i]
  {
    forall i | 0 <= i < |order| ensures '\n' !in SaveLines(order)[i] {
      assert SavableEntry(order[i]);
      PairTokensAreTokens(order[i].1);
      SpacedPlain([order[i].0] + PairTokens(order[i].1));
    }
  }

  /** Tokens put together with blanks hold no newline. */
  lemma {:induction false} SpacedPlain(ts: seq<string>)
    requires forall t :: t in ts ==> IsToken(t)
    ensures '\n' !in Spaced(ts)
  {
    if ts != [] {
      assert IsToken(ts[0]) && IsSpace('\n');
      assert forall i :: 0 <= i < |ts[0]| ==> ts[0][i] != '\n';
      SpacedPlain(ts[1..]);
    }
  }

  /** Updating a key with its own value changes nothing. */
  lemma UpdateSame<K, V>(m: map<K, V>, k: K)
    requires k in m
    ensures m[k := m[k]] == m
  {
  }

  /** Updating a key twice keeps the second value. */
  lemma UpdateTwice<K, V>(m: map<K, V>, k: K, x: V, y: V)
    ensures m[k := x][k := y] == m[k := y]
  {
  }

  /** A hashtable none of whose objects changed is as valid, and holds the same, as before. */
  twostate lemma TableStays<V>(t: Hashtable<V>)
    requires old(t.Valid())
    requires forall o: object :: o in old(t.Repr) ==> unchanged(o)
    ensures t.Valid() && t.Contents == old(t.Contents) && t.Repr == old(t.Repr)
  {
  }
}
