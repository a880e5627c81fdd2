/**
  The query tokenizer of the querier (common/word.c): a query line is split
  in place into words, the words are lowercased in place, and the placement
  of the operators "and" and "or" is checked.

  The query lives in a char buffer as a C string: its characters run up to
  the first NUL. A word of the decomposed sequence is a position in that
  buffer (word_decomposeSequence hands out pointers into the query), and the
  word itself is read from there up to the next NUL.
 */
module Word {
  import opened Wrappers
  import opened Text

  // ---------------------------------------------------------------------
  // C strings in a buffer

  /** The first NUL at or after `s`, or the buffer's end when there is none. */
  function End(q: seq<char>, s: nat): (e: nat)
    requires s <= |q|
    ensures s <= e <= |q|
    ensures e < |q| ==> q[e] == '\0'
    ensures forall j :: s <= j < e ==> q[j] != '\0'
    decreases |q| - s
  {
    if s == |q| then s else if q[s] == '\0' then s else End(q, s + 1)
  }

  /** strlen of the string at the start of the buffer. */
  function Strlen(q: seq<char>): nat {
    End(q, 0)
  }

  /** The C string that starts at `s`. */
  function CStr(q: seq<char>, s: nat): string
    requires s <= |q|
  {
    q[s..End(q, s)]
  }

  /** Every start lies in the buffer. */
  predicate InBuffer(q: seq<char>, starts: seq<nat>) {
    forall k :: 0 <= k < |starts| ==> starts[k] <= |q|
  }

  /** The words a sequence of starting positions stands for. */
  function WordsAt(q: seq<char>, starts: seq<nat>): seq<string>
    requires InBuffer(q, starts)
  {
    seq(|starts|, k requires 0 <= k < |starts| => CStr(q, starts[k]))
  }

  /** A run ending at a NUL, with no NUL before it, ends there. */
  lemma {:induction false} EndAt(q: seq<char>, s: nat, e: nat)
    requires s <= e < |q| && q[e] == '\0'
    requires forall j :: s <= j < e ==> q[j] != '\0'
    ensures End(q, s) == e
    decreases e - s
  {
    if s < e {
      EndAt(q, s + 1, e);
    }
  }

  /** Buffers with their NULs in the same places have the same C strings' ends. */
  lemma {:induction false} EndSame(a: seq<char>, b: seq<char>, s: nat)
    requires |a| == |b| && s <= |a|
    requires forall p :: 0 <= p < |a| ==> (a[p] == '\0' <==> b[p] == '\0')
    ensures End(a, s) == End(b, s)
    decreases |a| - s
  {
    if s < |a| && a[s] != '\0' {
      EndSame(a, b, s + 1);
    }
  }

  // ---------------------------------------------------------------------
  // word_normalizeWord

  /** The lowercased copy of `word`, built character by character. */
  method NormalizeWord(word: string) returns (normalized: string)
    ensures normalized == Lower(word)
  {
    var a := new char[|word|];
    for i := 0 to |word|
      invariant forall j :: 0 <= j < i ==> a[j] == ToLower(word[j])
    {
      a[i] := ToLower(word[i]);
    }
    normalized := a[..];
  }

  // ---------------------------------------------------------------------
  // word_decomposeSequence

  /** A word of a well-formed query: a non-empty run of letters. */
  predicate IsWord(w: string) {
    w != [] && forall i :: 0 <= i < |w| ==> IsAlpha(w[i])
  }

  /** A query character the tokenizer accepts. */
  predicate Accepted(c: char) {
    IsAlpha(c) || IsSpace(c)
  }

  /** Some character of `line` is neither a letter nor whitespace. */
  predicate HasBadCharacter(line: string) {
    exists i :: 0 <= i < |line| && !Accepted(line[i])
  }

  /**
    The state of the decomposing scan after `i` characters of the query
    `q0[..n]`: every character read was a letter or a blank; `q` differs
    from `q0` only where a blank that ended a word became a NUL; the finished
    words `done` start at the first starts, each followed by a NUL; the word
    being read, `cur`, starts at the last start when `inWord`; and the
    fields of the query are the finished words followed by the fields of
    what is left.
   */
  ghost predicate Scanned(q0: seq<char>, q: seq<char>, n: nat, i: nat, starts: seq<nat>,
                          done: seq<string>, inWord: bool, cur: string)
  {
    ScanState(q0, q, n, i, starts, done, inWord, cur)
  }

  /** The conditions Scanned bundles. */
  ghost predicate ScanState(q0: seq<char>, q: seq<char>, n: nat, i: nat, starts: seq<nat>,
                            done: seq<string>, inWord: bool, cur: string)
  {
    |q| == |q0| && i <= n < |q| &&
    (forall j :: i <= j < |q| ==> q[j] == q0[j]) &&
    (forall j :: 0 <= j < i ==> Accepted(q0[j])) &&
    (forall j :: 0 <= j < i ==> q[j] == q0[j] || (IsSpace(q0[j]) && q[j] == '\0')) &&
    |starts| == |done| + (if inWord then 1 else 0) &&
    (forall k :: 0 <= k < |done| ==>
      starts[k] + |done[k]| < i && q[starts[k]..starts[k] + |done[k]|] == done[k] &&
      q[starts[k] + |done[k]|] == '\0' && IsWord(done[k])) &&
    (inWord ==> starts[|done|] + |cur| == i && q[starts[|done|]..i] == cur && IsWord(cur)) &&
    (!inWord ==> cur == []) &&
    Fields(q0[..n]) == done + Tokenize(q0[i..n], cur)
  }

  /** The scan starts with nothing read. */
  lemma ScanStart(q0: seq<char>, n: nat)
    requires n < |q0|
    ensures Scanned(q0, q0, n, 0, [], [], false, [])
  {
    assert q0[0..n] == q0[..n];
  }

  /** A letter after a blank (or at the start) begins a word. */
  lemma ScanWordStart(q0: seq<char>, q: seq<char>, n: nat, i: nat, starts: seq<nat>, done: seq<string>)
    requires Scanned(q0, q, n, i, starts, done, false, []) && i < n && IsAlpha(q[i])
    ensures Scanned(q0, q, n, i + 1, starts + [i], done, true, [q[i]])
  {
    var c := q[i];
    assert q0[i..n][0] == c && q0[i..n][1..] == q0[i + 1..n];
    assert q[i..i + 1] == [c] && [] + [c] == [c];
    forall k | 0 <= k < |done|
      ensures q[starts[k]..starts[k] + |done[k]|] == done[k]
    {
    }
  }

  /** A letter inside a word extends it. */
  lemma ScanWordGoesOn(q0: seq<char>, q: seq<char>, n: nat, i: nat, starts: seq<nat>,
                       done: seq<string>, cur: string)
    requires Scanned(q0, q, n, i, starts, done, true, cur) && i < n && IsAlpha(q[i])
    ensures Scanned(q0, q, n, i + 1, starts, done, true, cur + [q[i]])
  {
    var c := q[i];
    assert q0[i..n][0] == c && q0[i..n][1..] == q0[i + 1..n];
    var s := starts[|done|];
    assert q[s..i + 1] == q[s..i] + [c];
  }

  /** A blank after a word ends it, and becomes a NUL. */
  lemma ScanWordEnd(q0: seq<char>, q: seq<char>, n: nat, i: nat, starts: seq<nat>,
                    done: seq<string>, cur: string)
    requires Scanned(q0, q, n, i, starts, done, true, cur) && i < n && IsSpace(q[i])
    ensures Scanned(q0, q[i := '\0'], n, i + 1, starts, done + [cur], false, [])
  {
    var c := q[i];
    assert q0[i..n][0] == c && q0[i..n][1..] == q0[i + 1..n];
    var q' := q[i := '\0'];
    var s := starts[|done|];
    assert q'[s..i] == q[s..i];
    forall k | 0 <= k < |done|
      ensures q'[starts[k]..starts[k] + |done[k]|] == done[k]
    {
      assert q'[starts[k]..starts[k] + |done[k]|] == q[starts[k]..starts[k] + |done[k]|];
    }
    assert (done + [cur])[|done|] == cur;
  }

  /** A blank outside a word changes nothing. */
  lemma ScanBlank(q0: seq<char>, q: seq<char>, n: nat, i: nat, starts: seq<nat>, done: seq<string>)
    requires Scanned(q0, q, n, i, starts, done, false, []) && i < n && IsSpace(q[i])
    ensures Scanned(q0, q, n, i + 1, starts, done, false, [])
  {
    assert q0[i..n][0] == q[i] && q0[i..n][1..] == q0[i + 1..n];
  }

  /** At the end of the query the words found are its fields. */
  lemma ScanEnd(q0: seq<char>, q: seq<char>, n: nat, starts: seq<nat>,
                done: seq<string>, inWord: bool, cur: string)
    requires Scanned(q0, q, n, n, starts, done, inWord, cur) && n == Strlen(q0)
    ensures InBuffer(q, starts) && WordsAt(q, starts) == Fields(q0[..n])
    ensures forall k :: 0 <= k < |starts| ==> starts[k] < |q|
  {
    assert q0[n..n] == [];
    forall k | 0 <= k < |done|
      ensures End(q, starts[k]) == starts[k] + |done[k]|
    {
      var s := starts[k];
      forall j | s <= j < s + |done[k]|
        ensures q[j] != '\0'
      {
        assert q[j] == q[s..s + |done[k]|][j - s];
      }
      EndAt(q, s, s + |done[k]|);
    }
    if inWord {
      var s := starts[|done|];
      forall j | s <= j < n
        ensures q[j] != '\0'
      {
        assert q[j] == q[s..n][j - s];
      }
      EndAt(q, s, n);
    }
  }

  /**
    One character of word_decomposeSequence's scan, a letter or a blank: a
    letter after a blank starts a word, a blank after a word is overwritten
    with a NUL and ends it, and any other character just goes by.
   */
  method ScanStep(query: array<char>, ghost q0: seq<char>, n: nat, i: nat, starts: seq<nat>, inWord: bool,
                  ghost done: seq<string>, ghost cur: string)
    returns (starts': seq<nat>, inWord': bool, ghost done': seq<string>, ghost cur': string)
    requires Scanned(q0, query[..], n, i, starts, done, inWord, cur) && i < n && Accepted(query[i])
    modifies query
    ensures Scanned(q0, query[..], n, i + 1, starts', done', inWord', cur')
  {
    var c := query[i];
    ghost var q := query[..];
    starts', inWord', done', cur' := starts, inWord, done, cur;
    if !inWord && IsAlpha(c) {
      ScanWordStart(q0, q, n, i, starts, done);
      starts', inWord', cur' := starts + [i], true, [c];
    } else if inWord && IsSpace(c) {
      ScanWordEnd(q0, q, n, i, starts, done, cur);
      query[i] := '\0';
      assert query[..] == q[i := '\0'];
      inWord', done', cur' := false, done + [cur], [];
    } else if inWord {
      ScanWordGoesOn(q0, q, n, i, starts, done, cur);
      cur' := cur + [c];
    } else {
      ScanBlank(q0, q, n, i, starts, done);
    }
  }

  /**
    word_decomposeSequence: one pass over the query. A character that is
    neither a letter nor whitespace makes it give up (with None), whatever
    it has already written. Otherwise the first letter after a blank (or at
    the start) begins a word, and the first blank after a word is
    overwritten with a NUL, so the words found, read as C strings from their
    starting positions, are exactly the whitespace-separated fields of the
    query.
   */
  method DecomposeSequence(query: array<char>) returns (r: Option<seq<nat>>)
    requires '\0' in query[..]
    modifies query
    ensures var line := old(query[..])[..Strlen(old(query[..]))];
      r.None? <==> HasBadCharacter(line)
    ensures r.Some? ==> forall k :: 0 <= k < |r.value| ==> r.value[k] < query.Length
    ensures r.Some? ==> WordsAt(query[..], r.value) == Fields(old(query[..])[..Strlen(old(query[..]))])
    ensures forall j :: 0 <= j < query.Length ==>
      query[j] == old(query[j]) || (IsSpace(old(query[j])) && query[j] == '\0')
  {
    ghost var q0 := query[..];
    var length := Strlen(query[..]);
    assert length < query.Length by {
      var j :| 0 <= j < query.Length && q0[j] == '\0';
    }
    var starts: seq<nat> := [];
    var inWord := false;
    ghost var done: seq<string> := [];
    ghost var cur: string := [];
    ScanStart(q0, length);
    var i := 0;
    while i < length
      invariant Scanned(q0, query[..], length, i, starts, done, inWord, cur)
    {
      var c := query[i];
      if !IsAlpha(c) && !IsSpace(c) {
        ScanKept(q0, query[..], length, i, starts, done, inWord, cur);
        return None;
      }
      starts, inWord, done, cur := ScanStep(query, q0, length, i, starts, inWord, done, cur);
      i := i + 1;
    }
    ScanKept(q0, query[..], length, i, starts, done, inWord, cur);
    ScanEnd(q0, query[..], length, starts, done, inWord, cur);
    r := Some(starts);
  }

  /**
    What the scan has done so far, wherever it stops: only blanks have
    become NULs, and the query has a bad character if the scan stopped at
    one and none if it read the whole query.
   */
  lemma ScanKept(q0: seq<char>, q: seq<char>, n: nat, i: nat, starts: seq<nat>,
                 done: seq<string>, inWord: bool, cur: string)
    requires Scanned(q0, q, n, i, starts, done, inWord, cur)
    ensures forall j :: 0 <= j < |q| ==> q[j] == q0[j] || (IsSpace(q0[j]) && q[j] == '\0')
    ensures i == n ==> !HasBadCharacter(q0[..n])
    ensures i < n && !Accepted(q[i]) ==> HasBadCharacter(q0[..n])
  {
    if i < n && !Accepted(q[i]) {
      assert q0[..n][i] == q[i];
    }
  }

  /** Every field of a query of letters and blanks is a word of letters. */
  lemma {:induction false} TokenizeLetters(s: string, cur: string)
    requires forall i :: 0 <= i < |s| ==> Accepted(s[i])
    requires forall i :: 0 <= i < |cur| ==> IsAlpha(cur[i])
    ensures forall w :: w in Tokenize(s, cur) ==> IsWord(w)
    decreases |s|
  {
    if s != [] {
      if IsSpace(s[0]) {
        TokenizeLetters(s[1..], []);
      } else {
        TokenizeLetters(s[1..], cur + [s[0]]);
      }
    }
  }

  /** A query without bad characters splits into words made of letters only. */
  lemma FieldsOfLetters(line: string)
    requires !HasBadCharacter(line)
    ensures forall w :: w in Fields(line) ==> IsWord(w)
  {
    TokenizeLetters(line, []);
  }

  /** An empty or blank query decomposes into no words at all. */
  lemma BlankQuery(line: string)
    requires forall i :: 0 <= i < |line| ==> IsSpace(line[i])
    ensures !HasBadCharacter(line) && Fields(line) == []
  {
    BlankHasNoFields(line);
  }

  // ---------------------------------------------------------------------
  // word_normalizeSequence

  /** Position `p` lies inside one of the words starting at `starts`. */
  ghost predicate Covered(q: seq<char>, starts: seq<nat>, p: int)
    requires InBuffer(q, starts)
  {
    exists k :: 0 <= k < |starts| && starts[k] <= p < End(q, starts[k])
  }

  /** Every word is NUL-terminated inside the buffer. */
  predicate Terminated(q: seq<char>, starts: seq<nat>) {
    forall k :: 0 <= k < |starts| ==> starts[k] <= |q| && End(q, starts[k]) < |q|
  }

  /** Covering one more word adds exactly its positions. */
  lemma CoveredNext(q: seq<char>, starts: seq<nat>, k: nat, p: int)
    requires InBuffer(q, starts) && k < |starts|
    ensures Covered(q, starts[..k + 1], p) <==>
      Covered(q, starts[..k], p) || starts[k] <= p < End(q, starts[k])
  {
    if Covered(q, starts[..k + 1], p) {
      var j :| 0 <= j < k + 1 && starts[..k + 1][j] <= p < End(q, starts[..k + 1][j]);
      if j < k {
        assert starts[..k][j] == starts[j];
      }
    }
    if Covered(q, starts[..k], p) {
      var j :| 0 <= j < k && starts[..k][j] <= p < End(q, starts[..k][j]);
      assert starts[..k + 1][j] == starts[j];
    }
    if starts[k] <= p < End(q, starts[k]) {
      assert starts[..k + 1][k] == starts[k];
    }
  }

  /** strcpy(dest, src): the characters of `src` and a NUL, written from `dest` on. */
  method Strcpy(buffer: array<char>, dest: nat, src: string)
    requires dest + |src| < buffer.Length
    modifies buffer
    ensures forall p :: 0 <= p < buffer.Length ==>
      buffer[p] == (if dest <= p < dest + |src| then src[p - dest]
                    else if p == dest + |src| then '\0'
                    else old(buffer[p]))
  {
    for j := 0 to |src|
      invariant forall p :: 0 <= p < buffer.Length ==>
        buffer[p] == (if dest <= p < dest + j then src[p - dest] else old(buffer[p]))
    {
      buffer[dest + j] := src[j];
    }
    buffer[dest + |src|] := '\0';
  }

  /**
    The buffer `q` is `q0` with the positions covered by the first `k` words
    lowercased.
   */
  ghost predicate LoweredUpTo(q0: seq<char>, q: seq<char>, starts: seq<nat>, k: nat)
    requires InBuffer(q0, starts) && k <= |starts|
  {
    |q| == |q0| &&
    forall p :: 0 <= p < |q| ==> q[p] == if Covered(q0, starts[..k], p) then ToLower(q0[p]) else q0[p]
  }

  /** Lowercasing never makes or removes a NUL. */
  lemma LoweredKeepsEnds(q0: seq<char>, q: seq<char>, starts: seq<nat>, k: nat, s: nat)
    requires InBuffer(q0, starts) && k <= |starts| && LoweredUpTo(q0, q, starts, k) && s <= |q0|
    ensures End(q, s) == End(q0, s)
  {
    EndSame(q, q0, s);
  }

  /**
    The body of word_normalizeSequence's loop for the word at `s`: its
    lowercased copy is written over it with strcpy, NUL included.
   */
  method NormalizeAt(query: array<char>, s: nat)
    requires s <= query.Length && End(query[..], s) < query.Length
    modifies query
    ensures forall p :: 0 <= p < query.Length ==>
      query[p] == (if s <= p < End(old(query[..]), s) then ToLower(old(query[p])) else old(query[p]))
  {
    var word := CStr(query[..], s);
    var normalized := NormalizeWord(word);
    Strcpy(query, s, normalized);
  }

  /**
    One word lowercased: strcpy of its lowercased copy over it covers the
    word's positions.
   */
  lemma NormalizeStep(q0: seq<char>, before: seq<char>, after: seq<char>, starts: seq<nat>, k: nat)
    requires Terminated(q0, starts) && k < |starts| && LoweredUpTo(q0, before, starts, k)
    requires var s := starts[k]; var e := End(before, s);
      |before| == |after| &&
      forall p :: 0 <= p < |after| ==> after[p] == (if s <= p < e then ToLower(before[p]) else before[p])
    ensures LoweredUpTo(q0, after, starts, k + 1)
  {
    var s := starts[k];
    LoweredKeepsEnds(q0, before, starts, k, s);
    forall p | 0 <= p < |after|
      ensures after[p] == if Covered(q0, starts[..k + 1], p) then ToLower(q0[p]) else q0[p]
    {
      CoveredNext(q0, starts, k, p);
    }
  }

  /** Once every word is lowercased, each word is its old self lowercased. */
  lemma NormalizeEnd(q0: seq<char>, q: seq<char>, starts: seq<nat>)
    requires Terminated(q0, starts) && LoweredUpTo(q0, q, starts, |starts|)
    ensures forall p :: 0 <= p < |q| ==> q[p] == if Covered(q0, starts, p) then ToLower(q0[p]) else q0[p]
    ensures forall k :: 0 <= k < |starts| ==>
      End(q, starts[k]) == End(q0, starts[k]) && CStr(q, starts[k]) == Lower(CStr(q0, starts[k]))
  {
    assert starts[..|starts|] == starts;
    forall k | 0 <= k < |starts|
      ensures End(q, starts[k]) == End(q0, starts[k])
      ensures CStr(q, starts[k]) == Lower(CStr(q0, starts[k]))
    {
      NormalizedWord(q0, q, starts, k);
    }
  }

  /** Once every word is lowercased, word k is its old self lowercased. */
  lemma NormalizedWord(q0: seq<char>, q: seq<char>, starts: seq<nat>, k: int)
    requires Terminated(q0, starts) && LoweredUpTo(q0, q, starts, |starts|) && 0 <= k < |starts|
    ensures End(q, starts[k]) == End(q0, starts[k]) && CStr(q, starts[k]) == Lower(CStr(q0, starts[k]))
  {
    assert starts[..|starts|] == starts;
    var s := starts[k];
    LoweredKeepsEnds(q0, q, starts, |starts|, s);
    var e := End(q0, s);
    forall p | s <= p < e
      ensures q[p] == ToLower(q0[p])
    {
      assert Covered(q0, starts, p);
    }
    assert q[s..e] == Lower(q0[s..e]);
  }

  /**
    word_normalizeSequence: every word, read up to its NUL, is replaced by
    its lowercased copy, of the same length and followed by the same NUL.
    Afterwards each word is its old self lowercased, and the buffer is
    unchanged outside the words.
   */
  method NormalizeSequence(query: array<char>, starts: seq<nat>)
    requires Terminated(query[..], starts)
    modifies query
    ensures forall k :: 0 <= k < |starts| ==>
      End(query[..], starts[k]) == End(old(query[..]), starts[k]) &&
      CStr(query[..], starts[k]) == Lower(CStr(old(query[..]), starts[k]))
    ensures forall p :: 0 <= p < query.Length ==>
      query[p] == if Covered(old(query[..]), starts, p) then ToLower(old(query[p])) else old(query[p])
  {
    ghost var q0 := query[..];
    assert starts[..0] == [];
    for k := 0 to |starts|
      invariant LoweredUpTo(q0, query[..], starts, k)
    {
      LoweredKeepsEnds(q0, query[..], starts, k, starts[k]);
      ghost var before := query[..];
      NormalizeAt(query, starts[k]);
      NormalizeStep(q0, before, query[..], starts, k);
    }
    NormalizeEnd(q0, query[..], starts);
  }

  // ---------------------------------------------------------------------
  // word_checkSyntax

  /** The two operators a query may hold. */
  predicate IsOperator(w: string) {
    w == "and" || w == "or"
  }

  /** Two operators stand next to each other, the second at position `i`. */
  predicate AdjacentAt(ts: seq<string>, i: int) {
    0 < i < |ts| && IsOperator(ts[i - 1]) && IsOperator(ts[i])
  }

  /** The first two adjacent operators, reading from the left, end at position `i`. */
  predicate FirstAdjacent(ts: seq<string>, i: int) {
    AdjacentAt(ts, i) && forall j :: 0 <= j < i ==> !AdjacentAt(ts, j)
  }

  /** Some two operators stand next to each other. */
  predicate HasAdjacent(ts: seq<string>) {
    exists i :: 0 < i < |ts| && AdjacentAt(ts, i)
  }

  /** No operator first, none last, and no two operators in a row. */
  predicate ValidSyntax(ts: seq<string>) {
    (|ts| > 0 ==> !IsOperator(ts[0]) && !IsOperator(ts[|ts| - 1])) && !HasAdjacent(ts)
  }

  /** What word_checkSyntax reports on stderr; Fine when it returns true. */
  datatype Syntax =
    | Fine
    | OperatorFirst(word: string)
    | Adjacent(left: string, right: string)
    | OperatorLast(word: string)

  /**
    word_checkSyntax: one scan with a flag telling whether the previous
    word was an operator. The first rule broken in reading order is the one
    reported: an operator at the very start, else the first two adjacent
    operators, else an operator at the end.
   */
  method CheckSyntax(ts: seq<string>) returns (r: Syntax)
    ensures r == Fine <==> ValidSyntax(ts)
    ensures r.OperatorFirst? <==> |ts| > 0 && IsOperator(ts[0])
    ensures r.OperatorFirst? ==> r.word == ts[0]
    ensures r.Adjacent? <==> |ts| > 0 && !IsOperator(ts[0]) && HasAdjacent(ts)
    ensures r.Adjacent? ==>
      exists i :: FirstAdjacent(ts, i) && r.left == ts[i - 1] && r.right == ts[i]
    ensures r.OperatorLast? <==>
      |ts| > 0 && !IsOperator(ts[0]) && !HasAdjacent(ts) && IsOperator(ts[|ts| - 1])
    ensures r.OperatorLast? ==> r.word == ts[|ts| - 1]
  {
    var operator := false;
    var i := 0;
    while i < |ts|
      invariant 0 <= i <= |ts|
      invariant operator <==> i > 0 && IsOperator(ts[i - 1])
      invariant i > 0 ==> !IsOperator(ts[0])
      invariant forall j :: 0 <= j < i ==> !AdjacentAt(ts, j)
    {
      if ts[i] == "and" || ts[i] == "or" {
        if operator {
          assert FirstAdjacent(ts, i);
          return Adjacent(ts[i - 1], ts[i]);
        } else if i == 0 {
          return OperatorFirst(ts[i]);
        } else {
          operator := true;
        }
      } else {
        operator := false;
      }
      i := i + 1;
    }
    if operator {
      return OperatorLast(ts[i - 1]);
    }
    return Fine;
  }

  /** "and dog": an operator may not come first. */
  lemma OperatorFirstRejected()
    ensures !ValidSyntax(["and", "dog"])
  {
  }

  /** "cat or": an operator may not come last. */
  lemma OperatorLastRejected()
    ensures !ValidSyntax(["cat", "or"])
  {
  }

  /** "cat and or dog": "and" next to "or" counts as adjacent operators. */
  lemma MixedAdjacentRejected()
    ensures !ValidSyntax(["cat", "and", "or", "dog"])
  {
    assert AdjacentAt(["cat", "and", "or", "dog"], 2);
  }

  /** The empty sequence breaks no rule. */
  lemma EmptyAccepted()
    ensures ValidSyntax([])
  {
  }
}
