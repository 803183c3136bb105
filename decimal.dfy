/**
 * Decimal spelling of integers, as JavaScript template literals and Python's
 * str() write them: an optional '-' followed by digits without leading zeros.
 * The front end builds report URLs and dedup keys from such spellings, so the
 * lemma that matters is that a spelling followed by a non-digit can be read back.
 */
module Decimal {

  predicate IsDigit(c: char) {
    '0' <= c <= '9'
  }

  function DigitChar(n: nat): (c: char)
    requires n < 10
    ensures IsDigit(c)
    ensures c as int - '0' as int == n
  {
    ('0' as int + n) as char
  }

  function NatToString(n: nat): (s: string)
    ensures |s| >= 1
    ensures forall i :: 0 <= i < |s| ==> IsDigit(s[i])
  {
    if n < 10 then [DigitChar(n)] else NatToString(n / 10) + [DigitChar(n % 10)]
  }

  function IntToString(i: int): (s: string)
    ensures |s| >= 1
    ensures i < 0 <==> s[0] == '-'
  {
    if i < 0 then "-" + NatToString(-i) else NatToString(i)
  }

  /** Different naturals have different spellings. */
  lemma {:induction false} NatToStringInjective(a: nat, b: nat)
    requires NatToString(a) == NatToString(b)
    ensures a == b
  {
    var x, y := NatToString(a), NatToString(b);
    if a >= 10 && b >= 10 {
      assert x[..|x| - 1] == NatToString(a / 10);
      assert y[..|y| - 1] == NatToString(b / 10);
      NatToStringInjective(a / 10, b / 10);
      assert DigitChar(a % 10) == x[|x| - 1] == y[|y| - 1] == DigitChar(b % 10);
    } else if a < 10 && b < 10 {
      assert DigitChar(a) == x[0] == y[0] == DigitChar(b);
    }
  }

  /** The number of leading digits of w. */
  function LeadingDigits(w: string): (n: nat)
    ensures n <= |w|
  {
    if w != [] && IsDigit(w[0]) then 1 + LeadingDigits(w[1..]) else 0
  }

  lemma {:induction false} LeadingDigitsOfConcat(x: string, s: string)
    requires forall i :: 0 <= i < |x| ==> IsDigit(x[i])
    requires s == [] || !IsDigit(s[0])
    ensures LeadingDigits(x + s) == |x|
  {
    if x != [] {
      assert (x + s)[1..] == x[1..] + s;
      LeadingDigitsOfConcat(x[1..], s);
    }
  }

  /** A natural's spelling followed by text that does not start with a digit determines both parts. */
  lemma NatFollowedBy(a: nat, s: string, b: nat, t: string)
    requires s == [] || !IsDigit(s[0])
    requires t == [] || !IsDigit(t[0])
    requires NatToString(a) + s == NatToString(b) + t
    ensures a == b && s == t
  {
    var x, y := NatToString(a), NatToString(b);
    LeadingDigitsOfConcat(x, s);
    LeadingDigitsOfConcat(y, t);
    assert x == (x + s)[..|x|] == (y + t)[..|y|] == y;
    NatToStringInjective(a, b);
    assert s == (x + s)[|x|..] == (y + t)[|y|..] == t;
  }

  /** An integer's spelling followed by text that does not start with a digit determines both parts. */
  lemma IntFollowedBy(a: int, s: string, b: int, t: string)
    requires s == [] || !IsDigit(s[0])
    requires t == [] || !IsDigit(t[0])
    requires IntToString(a) + s == IntToString(b) + t
    ensures a == b && s == t
  {
    var x, y := IntToString(a), IntToString(b);
    assert (x + s)[0] == x[0];
    assert (y + t)[0] == y[0];
    assert (a < 0) == (b < 0);
    if a < 0 {
      NegativeFollowedBy(-a, s, -b, t);
    } else {
      NatFollowedBy(a, s, b, t);
    }
  }

  /** The same for a '-' followed by a natural's spelling. */
  lemma NegativeFollowedBy(a: nat, s: string, b: nat, t: string)
    requires s == [] || !IsDigit(s[0])
    requires t == [] || !IsDigit(t[0])
    requires ("-" + NatToString(a)) + s == ("-" + NatToString(b)) + t
    ensures a == b && s == t
  {
    assert NatToString(a) + s == (("-" + NatToString(a)) + s)[1..];
    assert NatToString(b) + t == (("-" + NatToString(b)) + t)[1..];
    NatFollowedBy(a, s, b, t);
  }

  /** Different integers have different spellings. */
  lemma IntToStringInjective(a: int, b: int)
    requires IntToString(a) == IntToString(b)
    ensures a == b
  {
    assert IntToString(a) + [] == IntToString(b) + [];
    IntFollowedBy(a, [], b, []);
  }
}
