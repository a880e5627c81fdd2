/**
  The C library's character and string functions as the search engine uses
  them in the default "C" locale (isspace, isalpha, tolower, strcmp), and the
  whitespace tokenisation shared by the query tokenizer and by fscanf("%s")
  when a saved index is read back.
 */
module Text {

  /** isspace: blank, tab, newline, vertical tab, form feed, carriage return. */
  predicate IsSpace(c: char) {
    c == ' ' || '\t' <= c <= '\r'
  }

  /** isalpha in the "C" locale. */
  predicate IsAlpha(c: char) {
    'a' <= c <= 'z' || 'A' <= c <= 'Z'
  }

  /** tolower in the "C" locale: only 'A'..'Z' change. */
  function ToLower(c: char): char {
    if 'A' <= c <= 'Z' then (c as int + 32) as char else c
  }

  /** A string in which tolower changes nothing. */
  predicate IsLowercase(s: string) {
    forall i :: 0 <= i < |s| ==> ToLower(s[i]) == s[i]
  }

  /** The string with every character passed through tolower. */
  function Lower(s: string): (r: string)
    ensures |r| == |s|
    ensures forall i :: 0 <= i < |s| ==> r[i] == ToLower(s[i])
    ensures IsLowercase(r)
  {
    if s == [] then [] else [ToLower(s[0])] + Lower(s[1..])
  }

  /** Lowercasing twice is lowercasing once. */
  lemma LowerIdempotent(s: string)
    ensures Lower(Lower(s)) == Lower(s)
  {
    assert forall i :: 0 <= i < |s| ==> Lower(Lower(s))[i] == Lower(s)[i];
  }

  // ---------------------------------------------------------------------
  // strcmp

  /** The order strcmp induces: character by character, a proper prefix first. */
  predicate Less(a: string, b: string)
    decreases |a|
  {
    |b| > 0 && (|a| == 0 || a[0] < b[0] || (a[0] == b[0] && Less(a[1..], b[1..])))
  }

  lemma {:induction false} LessIrreflexive(a: string)
    ensures !Less(a, a)
    decreases |a|
  {
    if |a| > 0 {
      LessIrreflexive(a[1..]);
    }
  }

  lemma {:induction false} LessTransitive(a: string, b: string, c: string)
    requires Less(a, b) && Less(b, c)
    ensures Less(a, c)
    decreases |a|
  {
    if |a| > 0 && a[0] == b[0] && b[0] == c[0] {
      LessTransitive(a[1..], b[1..], c[1..]);
    }
  }

  lemma {:induction false} LessTotal(a: string, b: string)
    requires a != b
    ensures Less(a, b) || Less(b, a)
    decreases |a|
  {
    if |a| > 0 && |b| > 0 && a[0] == b[0] {
      assert a == [a[0]] + a[1..] && b == [b[0]] + b[1..];
      LessTotal(a[1..], b[1..]);
    }
  }

  /** Less is a strict total order on strings. */
  lemma LessAsymmetric(a: string, b: string)
    requires Less(a, b)
    ensures !Less(b, a) && a != b
  {
    LessIrreflexive(a);
    if Less(b, a) {
      LessTransitive(a, b, a);
    }
  }

  /**
    strcmp: negative, zero or positive as the first string sorts before,
    equal to, or after the second. The C function returns a difference of
    characters; only its sign is ever used, so the model returns -1, 0 or 1.
   */
  function Strcmp(a: string, b: string): (r: int)
    ensures r == 0 <==> a == b
    ensures r < 0 <==> Less(a, b)
    ensures r > 0 <==> Less(b, a)
    decreases |a|
  {
    if |a| == 0 && |b| == 0 then 0
    else if |a| == 0 then -1
    else if |b| == 0 then 1
    else if a[0] < b[0] then -1
    else if b[0] < a[0] then 1
    else
      assert a == [a[0]] + a[1..] && b == [b[0]] + b[1..];
      Strcmp(a[1..], b[1..])
  }

  // ---------------------------------------------------------------------
  // Whitespace tokenisation

  /** A token: a non-empty run of non-whitespace characters. */
  predicate IsToken(t: string) {
    t != [] && forall i :: 0 <= i < |t| ==> !IsSpace(t[i])
  }

  /**
    The maximal runs of non-whitespace characters of `s`, in order, where
    `cur` is the part of a run that has already been read.
   */
  function Tokenize(s: string, cur: string): seq<string>
    decreases |s|
  {
    if s == [] then (if cur == [] then [] else [cur])
    else if IsSpace(s[0]) then (if cur == [] then [] else [cur]) + Tokenize(s[1..], [])
    else Tokenize(s[1..], cur + [s[0]])
  }

  /** The whitespace-separated tokens of `s`. */
  function Fields(s: string): seq<string> {
    Tokenize(s, [])
  }

  /** Tokens written one after another, each followed by a blank. */
  function Spaced(ts: seq<string>): string {
    if ts == [] then "" else ts[0] + " " + Spaced(ts[1..])
  }

  lemma {:induction false} TokenizeYieldsTokens(s: string, cur: string)
    requires forall i :: 0 <= i < |cur| ==> !IsSpace(cur[i])
    ensures forall t :: t in Tokenize(s, cur) ==> IsToken(t)
    decreases |s|
  {
    if s != [] {
      if IsSpace(s[0]) {
        TokenizeYieldsTokens(s[1..], []);
      } else {
        TokenizeYieldsTokens(s[1..], cur + [s[0]]);
      }
    }
  }

  /** Every field is a token. */
  lemma FieldsAreTokens(s: string)
    ensures forall t :: t in Fields(s) ==> IsToken(t)
  {
    TokenizeYieldsTokens(s, []);
  }

  /** A string of whitespace only has no fields. */
  lemma {:induction false} BlankHasNoFields(s: string)
    requires forall i :: 0 <= i < |s| ==> IsSpace(s[i])
    ensures Fields(s) == []
    decreases |s|
  {
    if s != [] {
      BlankHasNoFields(s[1..]);
    }
  }

  lemma {:induction false} TokenizeRun(t: string, rest: string, cur: string)
    requires forall i :: 0 <= i < |t| ==> !IsSpace(t[i])
    requires cur + t != []
    ensures Tokenize(t + " " + rest, cur) == [cur + t] + Fields(rest)
    decreases |t|
  {
    if t == [] {
      assert t + " " + rest == [' '] + rest;
      assert (t + " " + rest)[1..] == rest;
      assert cur + t == cur;
    } else {
      assert (t + " " + rest)[0] == t[0];
      assert (t + " " + rest)[1..] == t[1..] + " " + rest;
      TokenizeRun(t[1..], rest, cur + [t[0]]);
      assert cur + [t[0]] + t[1..] == cur + t;
    }
  }

  /** Reading back tokens written with a blank after each gives the tokens. */
  lemma {:induction false} FieldsOfSpaced(ts: seq<string>)
    requires forall t :: t in ts ==> IsToken(t)
    ensures Fields(Spaced(ts)) == ts
  {
    if ts != [] {
      FieldsOfSpaced(ts[1..]);
      assert ts[0] in ts;
      TokenizeRun(ts[0], Spaced(ts[1..]), []);
      assert [] + ts[0] == ts[0];
      assert ts == [ts[0]] + ts[1..];
    }
  }

  /** Spaced distributes over concatenation. */
  lemma {:induction false} SpacedAppend(a: seq<string>, b: seq<string>)
    ensures Spaced(a + b) == Spaced(a) + Spaced(b)
  {
    if a != [] {
      assert (a + b)[1..] == a[1..] + b;
      SpacedAppend(a[1..], b);
    } else {
      assert a + b == b;
    }
  }

  lemma {:induction false} TokenizeAppend(a: string, b: string, cur: string)
    requires a != [] && IsSpace(a[|a| - 1])
    ensures Tokenize(a + b, cur) == Tokenize(a, cur) + Fields(b)
    decreases |a|
  {
    assert (a + b)[0] == a[0];
    assert (a + b)[1..] == a[1..] + b;
    if |a| == 1 {
      assert a[1..] + b == b;
    } else if IsSpace(a[0]) {
      TokenizeAppend(a[1..], b, []);
    } else {
      TokenizeAppend(a[1..], b, cur + [a[0]]);
    }
  }

  /** Text that ends in whitespace splits into fields independently of what follows it. */
  lemma FieldsAppend(a: string, b: string)
    requires a == [] || IsSpace(a[|a| - 1])
    ensures Fields(a + b) == Fields(a) + Fields(b)
  {
    if a == [] {
      assert a + b == b;
    } else {
      TokenizeAppend(a, b, []);
    }
  }

  /** Spaced tokens end in a blank. */
  lemma {:induction false} SpacedEndsInBlank(ts: seq<string>)
    requires ts != []
    ensures |Spaced(ts)| > 0 && IsSpace(Spaced(ts)[|Spaced(ts)| - 1])
  {
    if ts[1..] != [] {
      SpacedEndsInBlank(ts[1..]);
    }
  }
}
