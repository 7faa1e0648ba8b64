/** Character-level helpers used by every component: ASCII lower-casing as
    done by `std::tolower` in the "C" locale, decimal rendering as done by
    `std::to_string`, decimal reading as done by `std::atoi` on a digit
    string, and scanning a string up to a delimiter. */
module Text {

  /** True of the characters `std::tolower` changes in the "C" locale. */
  predicate IsUpper(c: char) {
    'A' <= c <= 'Z'
  }

  function LowerChar(c: char): (r: char)
    ensures !IsUpper(r)
    ensures r != c <==> IsUpper(c)
  {
    if IsUpper(c) then (c as int - 'A' as int + 'a' as int) as char else c
  }

  /** The lookup key of a header name: every character mapped through `LowerChar`. */
  function Lower(s: string): (r: string)
    ensures |r| == |s|
    ensures forall i :: 0 <= i < |s| ==> r[i] == LowerChar(s[i])
  {
    seq(|s|, i requires 0 <= i < |s| => LowerChar(s[i]))
  }

  /** Lower-casing keeps every character that is not an ASCII capital, turns
      every capital into a non-capital, and applying it twice changes nothing. */
  lemma LowerProperties(s: string)
    ensures forall i :: 0 <= i < |s| ==> (Lower(s)[i] != s[i] <==> IsUpper(s[i]))
    ensures forall i :: 0 <= i < |s| ==> !IsUpper(Lower(s)[i])
    ensures Lower(Lower(s)) == Lower(s)
  {
    var l := Lower(s);
    assert forall i :: 0 <= i < |l| ==> LowerChar(l[i]) == l[i];
  }

  /** A name already in lower case is its own key. */
  lemma LowerOfLowercase(s: string)
    requires forall i :: 0 <= i < |s| ==> !IsUpper(s[i])
    ensures Lower(s) == s
  {
  }

  predicate IsDigit(c: char) {
    '0' <= c <= '9'
  }

  predicate AllDigits(s: string) {
    forall i :: 0 <= i < |s| ==> IsDigit(s[i])
  }

  /** A digit string as `std::to_string` writes it: non-empty, no leading zero. */
  predicate Canonical(s: string) {
    |s| > 0 && AllDigits(s) && (|s| > 1 ==> s[0] != '0')
  }

  function DigitChar(d: nat): (c: char)
    requires d < 10
    ensures IsDigit(c)
  {
    ('0' as int + d) as char
  }

  function DigitValue(c: char): (d: nat)
    requires IsDigit(c)
    ensures d < 10
    ensures DigitChar(d) == c
  {
    c as int - '0' as int
  }

  /** The decimal rendering of `n` (`std::to_string`, or `operator<<` on an integer). */
  function Decimal(n: nat): (r: string)
    ensures Canonical(r)
    ensures ' ' !in r && '\r' !in r && ':' !in r
  {
    if n < 10 then [DigitChar(n)] else Decimal(n / 10) + [DigitChar(n % 10)]
  }

  /** The value of a digit string, most significant digit first. */
  function DigitsValue(s: string): nat
    requires AllDigits(s)
  {
    if |s| == 0 then 0 else DigitsValue(s[..|s| - 1]) * 10 + DigitValue(s[|s| - 1])
  }

  /** Reading back a rendered number gives the number. */
  lemma {:induction false} DecimalRoundTrip(n: nat)
    ensures DigitsValue(Decimal(n)) == n
  {
    if n >= 10 {
      DecimalRoundTrip(n / 10);
      var s := Decimal(n);
      assert s[..|s| - 1] == Decimal(n / 10);
    }
  }

  lemma {:induction false} CanonicalValuePositive(s: string)
    requires Canonical(s) && |s| > 1
    ensures DigitsValue(s) >= 10
  {
    var p := s[..|s| - 1];
    if |p| > 1 {
      assert p[0] == s[0];
      CanonicalValuePositive(p);
    }
  }

  /** Rendering the value of a canonical digit string gives the string back,
      so `Decimal` and `DigitsValue` are inverse bijections between naturals and
      canonical digit strings. */
  lemma {:induction false} CanonicalRoundTrip(s: string)
    requires Canonical(s)
    ensures Decimal(DigitsValue(s)) == s
  {
    if |s| > 1 {
      var p := s[..|s| - 1];
      assert p[0] == s[0];
      if |p| > 1 {
        CanonicalValuePositive(p);
      }
      CanonicalRoundTrip(p);
      var n := DigitsValue(s);
      assert n / 10 == DigitsValue(p);
      assert n % 10 == DigitValue(s[|s| - 1]);
      assert s == p + [s[|s| - 1]];
    }
  }

  /** The longest prefix of `s` that does not contain `c`: everything before
      the first `c`, or all of `s` when there is none. */
  function TakeUntil(s: string, c: char): (r: string)
    ensures r <= s
    ensures c !in r
    ensures |r| < |s| ==> s[|r|] == c
  {
    if |s| == 0 || s[0] == c then [] else [s[0]] + TakeUntil(s[1..], c)
  }

  /** `TakeUntil` stops exactly at the first delimiter. */
  lemma {:induction false} TakeUntilStops(a: string, c: char, b: string)
    requires c !in a
    ensures TakeUntil(a + [c] + b, c) == a
  {
    if |a| > 0 {
      assert (a + [c] + b)[1..] == a[1..] + [c] + b;
      TakeUntilStops(a[1..], c, b);
    }
  }

  /** When `c` occurs, `TakeUntil` stops short of the end. */
  lemma {:induction false} TakeUntilPresent(s: string, c: char)
    requires c in s
    ensures |TakeUntil(s, c)| < |s|
  {
    if s[0] != c {
      assert c in s[1..];
      TakeUntilPresent(s[1..], c);
    }
  }

  /** A string without `c` is kept whole. */
  lemma TakeUntilAbsent(s: string, c: char)
    requires c !in s
    ensures TakeUntil(s, c) == s
  {
  }

  /** The three facts `TakeUntil` ensures pin its result down: a prefix
      without `c` that stops at a `c` or at the end is `TakeUntil`'s. */
  lemma TakeUntilUnique(s: string, c: char, p: string)
    requires p <= s && c !in p
    requires |p| < |s| ==> s[|p|] == c
    ensures p == TakeUntil(s, c)
  {
    var t := TakeUntil(s, c);
    assert |p| == |t|;
  }
}
