/** Text operations the request handlers rely on: Python's `str()` of an
    integer (the category column is text and is compared with `str(id)`), and
    the case-insensitive substring test behind SQL `ILIKE '%term%'`. */
module Strings {

  /** The digit character for a value 0..9. */
  function DigitChar(d: int): (c: char)
    requires 0 <= d < 10
    ensures '0' <= c <= '9'
    ensures c as int - '0' as int == d
  {
    ('0' as int + d) as char
  }

  function DigitValue(c: char): (d: int)
  {
    c as int - '0' as int
  }

  /** Decimal numeral of a natural number, most significant digit first,
      without leading zeros. */
  function NatDigits(n: nat): (s: string)
    ensures |s| >= 1
    ensures forall i :: 0 <= i < |s| ==> '0' <= s[i] <= '9'
    ensures s[0] == '0' ==> n == 0 && |s| == 1
    decreases n
  {
    if n < 10 then [DigitChar(n)] else NatDigits(n / 10) + [DigitChar(n % 10)]
  }

  /** Python's `str()` applied to an `int`. */
  function Decimal(n: int): (s: string)
    ensures |s| >= 1
    ensures n < 0 <==> s[0] == '-'
    ensures n >= 0 ==> '0' <= s[0] <= '9'
    ensures forall i :: 0 < i < |s| ==> '0' <= s[i] <= '9'
    ensures s[0] == '0' ==> s == "0"
    ensures n < 0 ==> |s| >= 2 && s[1] != '0'
  {
    if n < 0 then "-" + NatDigits(-n) else NatDigits(n)
  }

  /** Reads an unsigned numeral back; the inverse of `NatDigits`. */
  function ParseDigits(s: string): (n: int)
  {
    if s == [] then 0 else ParseDigits(s[..|s| - 1]) * 10 + DigitValue(s[|s| - 1])
  }

  /** Reads a signed numeral back; the inverse of `Decimal`. */
  function ParseDecimal(s: string): (n: int)
  {
    if |s| > 0 && s[0] == '-' then -ParseDigits(s[1..]) else ParseDigits(s)
  }

  lemma {:induction false} NatDigitsRoundTrip(n: nat)
    ensures ParseDigits(NatDigits(n)) == n
    decreases n
  {
    if n >= 10 {
      var s := NatDigits(n);
      assert s[..|s| - 1] == NatDigits(n / 10);
      NatDigitsRoundTrip(n / 10);
    }
  }

  /** `Decimal` loses nothing: the numeral reads back as the number. */
  lemma DecimalRoundTrip(n: int)
    ensures ParseDecimal(Decimal(n)) == n
  {
    if n < 0 {
      assert Decimal(n)[1..] == NatDigits(-n);
      NatDigitsRoundTrip(-n);
    } else {
      NatDigitsRoundTrip(n);
    }
  }

  /** Two ids render to the same text exactly when they are equal, so the
      text comparison `category == str(id)` identifies one id. */
  lemma DecimalInjective(a: int, b: int)
    ensures Decimal(a) == Decimal(b) <==> a == b
  {
    DecimalRoundTrip(a);
    DecimalRoundTrip(b);
  }

  /** The texts Python's `int()` reads here: an optional sign followed by
      one or more ASCII digits. */
  predicate IsNumeral(t: string)
  {
    if |t| > 0 && (t[0] == '-' || t[0] == '+') then IsDigits(t[1..]) else IsDigits(t)
  }

  /** One or more ASCII digits. */
  predicate IsDigits(s: string)
  {
    |s| >= 1 && forall i :: 0 <= i < |s| ==> '0' <= s[i] <= '9'
  }

  /** Python's `int()` of a numeral: a leading `+` is dropped, a leading `-`
      negates, and leading zeros do not count. */
  function ParseInt(t: string): (n: int)
  {
    if |t| > 0 && t[0] == '+' then ParseDigits(t[1..]) else ParseDecimal(t)
  }

  /** `int(str(n)) == n`, and an explicit `+` in front of a non-negative
      numeral changes nothing. */
  lemma ParseIntDecimal(n: int)
    ensures IsNumeral(Decimal(n)) && ParseInt(Decimal(n)) == n
    ensures n >= 0 ==> IsNumeral("+" + Decimal(n)) && ParseInt("+" + Decimal(n)) == n
  {
    DecimalRoundTrip(n);
    if n >= 0 {
      assert ("+" + Decimal(n))[1..] == Decimal(n);
    }
  }

  /** A text with no digit in it is not a numeral, so `int()` rejects it. */
  lemma NoDigitNoNumeral(t: string)
    requires forall i :: 0 <= i < |t| ==> !('0' <= t[i] <= '9')
    ensures !IsNumeral(t)
  {
    if |t| > 1 && (t[0] == '-' || t[0] == '+') {
      assert t[1..][0] == t[1];
    }
  }

  /** ASCII lower-casing of one character. */
  function LowerChar(c: char): (l: char)
  {
    if 'A' <= c <= 'Z' then (c as int + 32) as char else c
  }

  predicate IsUpper(c: char)
  {
    'A' <= c <= 'Z'
  }

  function Lower(s: string): (r: string)
    ensures |r| == |s|
    ensures forall i :: 0 <= i < |s| ==> r[i] == LowerChar(s[i])
    ensures forall i :: 0 <= i < |r| ==> !IsUpper(r[i])
  {
    if s == [] then [] else [LowerChar(s[0])] + Lower(s[1..])
  }

  /** `pat` sits in `text` at index `i`. */
  ghost predicate OccursAt(text: string, pat: string, i: int)
  {
    0 <= i && i + |pat| <= |text| && text[i..i + |pat|] == pat
  }

  /** Substring test, scanning from the left. */
  predicate Contains(text: string, pat: string)
    decreases |text|
  {
    |pat| <= |text| && (text[..|pat|] == pat || (|text| > 0 && Contains(text[1..], pat)))
  }

  /** The scan agrees with the positional definition of a substring. */
  lemma {:induction false} ContainsIffOccurs(text: string, pat: string)
    ensures Contains(text, pat) <==> exists i :: OccursAt(text, pat, i)
    decreases |text|
  {
    if |pat| > |text| {
      assert forall i :: !OccursAt(text, pat, i);
    } else if text[..|pat|] == pat {
      assert OccursAt(text, pat, 0);
    } else {
      var tail := text[1..];
      ContainsIffOccurs(tail, pat);
      if Contains(tail, pat) {
        var j :| OccursAt(tail, pat, j);
        assert text[j + 1..j + 1 + |pat|] == tail[j..j + |pat|];
        assert OccursAt(text, pat, j + 1);
      }
      if i :| OccursAt(text, pat, i) {
        assert i != 0;
        assert tail[i - 1..i - 1 + |pat|] == text[i..i + |pat|];
        assert OccursAt(tail, pat, i - 1);
      }
    }
  }

  /** SQL `column ILIKE '%term%'`, reduced to ASCII case folding. */
  predicate ContainsIgnoringCase(text: string, term: string)
  {
    Contains(Lower(text), Lower(term))
  }
}
