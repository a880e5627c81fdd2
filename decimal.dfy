/**
  Decimal integers as printf("%d") writes them and fscanf("%d") reads them.
  A saved index holds document ids and counts in this form.
 */
module Decimal {
  import opened Wrappers
  import opened Text

  predicate IsDigit(c: char) {
    '0' <= c <= '9'
  }

  function DigitValue(c: char): nat
    requires IsDigit(c)
  {
    c as int - '0' as int
  }

  function DigitChar(d: nat): char
    requires d < 10
  {
    ('0' as int + d) as char
  }

  predicate AllDigits(s: string) {
    |s| > 0 && forall i :: 0 <= i < |s| ==> IsDigit(s[i])
  }

  /** The text printf("%d") writes for a non-negative int: no sign, no leading zero. */
  function NatText(n: nat): (s: string)
    ensures AllDigits(s)
  {
    if n < 10 then [DigitChar(n)] else NatText(n / 10) + [DigitChar(n % 10)]
  }

  /**
    A token fscanf("%d") reads completely: an optional sign followed by at
    least one digit.
   */
  predicate IsNumeral(t: string) {
    AllDigits(t) || (|t| > 1 && (t[0] == '-' || t[0] == '+') && AllDigits(t[1..]))
  }

  /** The value of a string of digits, most significant first. */
  function DigitsValue(s: string): nat
    requires forall i :: 0 <= i < |s| ==> IsDigit(s[i])
  {
    if s == [] then 0 else DigitsValue(s[..|s| - 1]) * 10 + DigitValue(s[|s| - 1])
  }

  /** The int fscanf("%d") stores for a numeral token. */
  function NumeralValue(t: string): int
    requires IsNumeral(t)
  {
    if AllDigits(t) then DigitsValue(t)
    else if t[0] == '-' then -(DigitsValue(t[1..]) as int)
    else DigitsValue(t[1..])
  }

  /** The number of digits `s` starts with. */
  function LeadingDigits(s: string): (k: nat)
    ensures k <= |s| && forall i :: 0 <= i < k ==> IsDigit(s[i])
    ensures k < |s| ==> !IsDigit(s[k])
  {
    if s == [] || !IsDigit(s[0]) then 0 else 1 + LeadingDigits(s[1..])
  }

  /** 1 when `t` starts with a sign, else 0. */
  function SignLength(t: string): nat {
    if t != [] && (t[0] == '-' || t[0] == '+') then 1 else 0
  }

  /**
    What one fscanf("%d") does at the start of a token: how many of its
    characters it consumes, and the int it stores, if any.
   */
  datatype Scan = Scan(used: nat, value: Option<int>)

  /**
    fscanf("%d") reads the longest prefix that is, or begins, an optional
    sign followed by digits (section 7.21.6.2 of ISO C11). With at least one
    digit the prefix is stored as an int; without one the directive fails,
    and a sign it read stays consumed. The rest of the token is left unread.
   */
  function ScanInt(t: string): (r: Scan)
    ensures r.used <= |t|
    ensures r.value.Some? <==> r.used > SignLength(t)
    ensures r.value.None? ==> r.used == SignLength(t)
    ensures r.used > SignLength(t) ==> IsNumeral(t[..r.used]) && r.value == Some(NumeralValue(t[..r.used]))
    ensures r.used < |t| ==> !IsDigit(t[r.used])
  {
    var s := SignLength(t);
    var d := LeadingDigits(t[s..]);
    if d == 0 then Scan(s, None)
    else
      var n := t[..s + d];
      assert n[s..] == t[s..][..d];
      assert s == 1 ==> n[1..] == n[s..];
      Scan(s + d, Some(NumeralValue(n)))
  }

  /** A numeral token is read completely, as its value. */
  lemma ScanNumeral(t: string)
    requires IsNumeral(t)
    ensures ScanInt(t) == Scan(|t|, Some(NumeralValue(t)))
  {
    var s := SignLength(t);
    if AllDigits(t) {
      assert IsDigit(t[0]) && s == 0;
    } else {
      assert s == 1 && AllDigits(t[s..]);
    }
    assert t[..|t|] == t;
  }

  /** A token starting with neither a digit nor a sign is one fscanf("%d") reads nothing from. */
  predicate NoIntStart(t: string) {
    t != [] && !IsDigit(t[0]) && t[0] != '-' && t[0] != '+'
  }

  /** On such a token, "%d" fails and consumes nothing. */
  lemma ScanWord(t: string)
    requires NoIntStart(t)
    ensures ScanInt(t) == Scan(0, None)
  {
  }

  lemma {:induction false} NatTextValue(n: nat)
    ensures DigitsValue(NatText(n)) == n
  {
    if n >= 10 {
      NatTextValue(n / 10);
      var s := NatText(n / 10) + [DigitChar(n % 10)];
      assert s[..|s| - 1] == NatText(n / 10);
    }
  }

  /** What "%d" writes, "%d" reads back as the same number, as one token. */
  lemma NatTextRoundTrip(n: nat)
    ensures IsNumeral(NatText(n)) && IsToken(NatText(n))
    ensures NumeralValue(NatText(n)) == n
  {
    NatTextValue(n);
  }

  /** The largest value of a C int. */
  const IntMax := 0x7fff_ffff

  /** The text printf("%d") writes for any int: a minus sign before a negative one. */
  function IntText(n: int): string {
    if n < 0 then "-" + NatText(-n) else NatText(n)
  }

  /** What "%d" writes for any int, "%d" reads back as the same int, as one token. */
  lemma IntTextRoundTrip(n: int)
    ensures IsNumeral(IntText(n)) && IsToken(IntText(n))
    ensures NumeralValue(IntText(n)) == n
  {
    NatTextRoundTrip(if n < 0 then -n else n);
    if n < 0 {
      var t := IntText(n);
      assert t[1..] == NatText(-n);
    }
  }

  function Pow10(k: nat): nat {
    if k == 0 then 1 else 10 * Pow10(k - 1)
  }

  /** A number below 10^k takes at most k digits. */
  lemma {:induction false} NatTextLength(n: nat, k: nat)
    requires 1 <= k && n < Pow10(k)
    ensures |NatText(n)| <= k
  {
    if n >= 10 {
      NatTextLength(n / 10, k - 1);
    }
  }

  /** A non-negative C int is written with at most ten digits. */
  lemma IntTextShort(n: int)
    requires 0 <= n <= IntMax
    ensures |IntText(n)| <= 10
  {
    assert Pow10(10) == 10000000000;
    NatTextLength(n, 10);
  }
}
