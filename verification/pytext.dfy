/** Python text primitives the two tools rely on: `str.isspace`, `str.strip()`,
    `str.isdigit` (ASCII digits only), `int(text)` on digit strings and `str(int)`. */
module PyText {

  /** Python's `str.isspace` for one character: bidirectional classes WS, B, S
      and general category Zs. */
  predicate IsSpace(c: char) {
    var n := c as int;
    (0x09 <= n <= 0x0D) || (0x1C <= n <= 0x20) || n == 0x85 || n == 0xA0
    || n == 0x1680 || (0x2000 <= n <= 0x200A) || n == 0x2028 || n == 0x2029
    || n == 0x202F || n == 0x205F || n == 0x3000
  }

  predicate AllSpace(s: string) {
    forall k :: 0 <= k < |s| ==> IsSpace(s[k])
  }

  /** Python's `str.strip()` with no argument: drop whitespace from the front,
      then from the back, until neither end is whitespace. */
  function Strip(s: string): string {
    if |s| > 0 && IsSpace(s[0]) then Strip(s[1..])
    else if |s| > 0 && IsSpace(s[|s| - 1]) then Strip(s[..|s| - 1])
    else s
  }

  /** `strip()` leaves nothing exactly when `s` is all whitespace. */
  lemma {:induction false} StripEmptyIff(s: string)
    ensures Strip(s) == [] <==> AllSpace(s)
  {
    if |s| > 0 && IsSpace(s[0]) {
      StripEmptyIff(s[1..]);
      assert AllSpace(s) <==> AllSpace(s[1..]);
    } else if |s| > 0 && IsSpace(s[|s| - 1]) {
      StripEmptyIff(s[..|s| - 1]);
      assert AllSpace(s) <==> AllSpace(s[..|s| - 1]);
    }
  }

  /** What `strip()` leaves neither starts nor ends with whitespace. */
  lemma {:induction false} StripEnds(s: string)
    ensures var r := Strip(s); r != [] ==> !IsSpace(r[0]) && !IsSpace(r[|r| - 1])
  {
    if |s| > 0 && IsSpace(s[0]) {
      StripEnds(s[1..]);
    } else if |s| > 0 && IsSpace(s[|s| - 1]) {
      StripEnds(s[..|s| - 1]);
    }
  }

  /** What `strip()` leaves sits in `s` at offset `StripOffset(s)`, between two runs of whitespace. */
  function StripOffset(s: string): nat {
    if |s| > 0 && IsSpace(s[0]) then 1 + StripOffset(s[1..])
    else if |s| > 0 && IsSpace(s[|s| - 1]) then StripOffset(s[..|s| - 1])
    else 0
  }

  /** `r` sits in `s` at offset `i` with only whitespace before and after it. */
  predicate SpacedInfix(s: string, r: string, i: nat) {
    i + |r| <= |s| && r == s[i..i + |r|] && AllSpace(s[..i]) && AllSpace(s[i + |r|..])
  }

  /** A leading space in front of a spaced infix extends the front run. */
  lemma InfixFront(s: string, i: nat, r: string)
    requires |s| > 0 && IsSpace(s[0]) && SpacedInfix(s[1..], r, i)
    ensures SpacedInfix(s, r, i + 1)
  {
    var t := s[1..];
    assert s[i + 1..i + 1 + |r|] == t[i..i + |r|];
    assert s[i + 1 + |r|..] == t[i + |r|..];
    var front, run := s[..i + 1], t[..i];
    forall k | 0 <= k < |front|
      ensures IsSpace(front[k])
    {
      if k > 0 {
        assert front[k] == run[k - 1];
      }
    }
  }

  /** A trailing space behind a spaced infix extends the back run. */
  lemma InfixBack(s: string, i: nat, r: string)
    requires |s| > 0 && IsSpace(s[|s| - 1]) && SpacedInfix(s[..|s| - 1], r, i)
    ensures SpacedInfix(s, r, i)
  {
    var p := s[..|s| - 1];
    assert s[i..i + |r|] == p[i..i + |r|];
    assert s[..i] == p[..i];
    var back, run := s[i + |r|..], p[i + |r|..];
    forall k | 0 <= k < |back|
      ensures IsSpace(back[k])
    {
      if k < |run| {
        assert back[k] == run[k];
      }
    }
  }

  lemma {:induction false} StripInfix(s: string)
    ensures SpacedInfix(s, Strip(s), StripOffset(s))
  {
    if |s| > 0 && IsSpace(s[0]) {
      var t := s[1..];
      StripInfix(t);
      InfixFront(s, StripOffset(t), Strip(t));
    } else if |s| > 0 && IsSpace(s[|s| - 1]) {
      var p := s[..|s| - 1];
      StripInfix(p);
      InfixBack(s, StripOffset(p), Strip(p));
    } else {
      assert s == s[0..|s|];
    }
  }

  /** Stripping twice is stripping once. */
  lemma StripIdempotent(s: string)
    ensures Strip(Strip(s)) == Strip(s)
  {
    StripEnds(s);
  }

  /** A string that starts with a non-space character survives stripping non-empty. */
  lemma StripNonEmpty(s: string)
    requires |s| > 0 && !IsSpace(s[0])
    ensures Strip(s) != [] && Strip(s)[0] == s[0]
  {
    StripEmptyIff(s);
    StripInfix(s);
  }

  predicate IsDigit(c: char) {
    '0' <= c <= '9'
  }

  /** Python's `str.isdigit`, for ASCII digits: non-empty and every character a digit. */
  predicate IsDigits(s: string) {
    |s| > 0 && forall k :: 0 <= k < |s| ==> IsDigit(s[k])
  }

  function DigitChar(d: nat): (c: char)
    requires d < 10
    ensures IsDigit(c)
  {
    ('0' as int + d) as char
  }

  function DigitValue(c: char): (d: nat)
    requires IsDigit(c)
    ensures d < 10 && DigitChar(d) == c
  {
    c as int - '0' as int
  }

  /** Python's `int(s)` on a string of ASCII digits (the empty string reads as 0). */
  function DecimalValue(s: string): nat
    requires forall k :: 0 <= k < |s| ==> IsDigit(s[k])
  {
    if s == [] then 0 else 10 * DecimalValue(s[..|s| - 1]) + DigitValue(s[|s| - 1])
  }

  function Pow10(n: nat): (p: nat)
    ensures p >= 1
  {
    if n == 0 then 1 else 10 * Pow10(n - 1)
  }

  /** Reading two digit strings side by side shifts the first by the length of the second. */
  lemma {:induction false} DecimalConcat(a: string, b: string)
    requires forall k :: 0 <= k < |a| ==> IsDigit(a[k])
    requires forall k :: 0 <= k < |b| ==> IsDigit(b[k])
    ensures DecimalValue(a + b) == DecimalValue(a) * Pow10(|b|) + DecimalValue(b)
  {
    if b == [] {
      assert a + b == a;
    } else {
      var b' := b[..|b| - 1];
      var ab := a + b;
      assert ab[..|ab| - 1] == a + b';
      assert ab[|ab| - 1] == b[|b| - 1];
      assert forall k :: 0 <= k < |b'| ==> IsDigit(b'[k]);
      DecimalConcat(a, b');
      var x, p, y, l := DecimalValue(a), Pow10(|b'|), DecimalValue(b'), DigitValue(b[|b| - 1]);
      assert forall k :: 0 <= k < |ab| ==> IsDigit(ab[k]);
      assert DecimalValue(ab) == 10 * DecimalValue(a + b') + l;
      ShiftTen(x, p);
    }
  }

  lemma ShiftTen(x: int, p: int)
    ensures x * (10 * p) == 10 * (x * p)
  {
  }

  /** Python's `str(n)` for a non-negative integer: its decimal digits, with no
      leading zero except for 0 itself. */
  function NatToDecimal(n: nat): (r: string)
    ensures IsDigits(r)
    ensures r[0] == '0' <==> n == 0
    ensures n == 0 ==> r == "0"
  {
    if n < 10 then [DigitChar(n)] else NatToDecimal(n / 10) + [DigitChar(n % 10)]
  }

  /** Reading back the digits `str(n)` produced gives `n`. */
  lemma {:induction false} DecimalRoundTrip(n: nat)
    ensures DecimalValue(NatToDecimal(n)) == n
  {
    if n >= 10 {
      var s := NatToDecimal(n);
      assert s[..|s| - 1] == NatToDecimal(n / 10);
      DecimalRoundTrip(n / 10);
    }
  }

  /** Conversely, a digit string without a superfluous leading zero is exactly
      what `str` prints for its value. */
  lemma {:induction false} CanonicalDecimalRoundTrip(s: string)
    requires IsDigits(s)
    requires s[0] == '0' ==> |s| == 1
    ensures NatToDecimal(DecimalValue(s)) == s
  {
    if |s| == 1 {
    } else {
      var p := s[..|s| - 1];
      assert p[0] == s[0];
      CanonicalDecimalRoundTrip(p);
      LeadingDigitBound(p);
      var v := DecimalValue(s);
      assert v == 10 * DecimalValue(p) + DigitValue(s[|s| - 1]);
      assert v / 10 == DecimalValue(p) && v % 10 == DigitValue(s[|s| - 1]);
    }
  }

  /** A digit string that does not start with '0' is worth at least 1. */
  lemma {:induction false} LeadingDigitBound(s: string)
    requires IsDigits(s) && s[0] != '0'
    ensures DecimalValue(s) >= 1
  {
    if |s| > 1 {
      var p := s[..|s| - 1];
      assert p[0] == s[0];
      LeadingDigitBound(p);
    } else {
      assert DecimalValue(s) == DigitValue(s[0]);
    }
  }

  /** Python's `str(i)` for any integer. */
  function IntToStr(i: int): (r: string)
    ensures |r| > 0 && (r[0] == '-' || IsDigit(r[0]))
    ensures r[0] == '-' <==> i < 0
  {
    if i < 0 then "-" + NatToDecimal(-i) else NatToDecimal(i)
  }

  /** The reading of `str(i)` as an optionally signed decimal numeral. */
  function SignedValue(s: string): int
    requires |s| > 0
    requires forall k :: (if s[0] == '-' then 1 else 0) <= k < |s| ==> IsDigit(s[k])
  {
    if s[0] == '-' then -(DecimalValue(s[1..]) as int) else DecimalValue(s)
  }

  /** `str(i)` loses nothing: reading it back gives `i`. */
  lemma IntToStrRoundTrip(i: int)
    ensures SignedValue(IntToStr(i)) == i
  {
    if i < 0 {
      assert IntToStr(i)[1..] == NatToDecimal(-i);
      DecimalRoundTrip(-i);
    } else {
      DecimalRoundTrip(i);
    }
  }
}
