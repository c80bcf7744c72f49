/**
 * Decimal integer text, as read by Python's int(str) in base 10 (restricted to
 * ASCII): optional surrounding whitespace, an optional sign, and digits that may
 * be separated by single underscores.  Also the canonical decimal rendering
 * (f-string formatting of an int), whose parse gives the number back.
 */
module Numerals {
  import opened Wrappers

  predicate IsDigit(c: char) { '0' <= c <= '9' }

  function DigitValue(c: char): (d: nat)
    requires IsDigit(c)
    ensures d < 10
  {
    (c as int) - ('0' as int)
  }

  /** The whitespace int() skips around an ASCII numeral: \t \n \v \f \r and
      the blank (not the separator controls 0x1C-0x1F that str.isspace() accepts). */
  predicate IsSpace(c: char) {
    c == ' ' || 9 <= c as int <= 13
  }

  /** The number of whitespace characters at the start of s. */
  function LeadingSpaces(s: string): (n: nat)
    ensures n <= |s|
    ensures forall i :: 0 <= i < n ==> IsSpace(s[i])
    ensures n < |s| ==> !IsSpace(s[n])
  {
    if s != [] && IsSpace(s[0]) then 1 + LeadingSpaces(s[1..]) else 0
  }

  /** The number of whitespace characters at the end of s. */
  function TrailingSpaces(s: string): (n: nat)
    ensures n <= |s|
    ensures forall i :: |s| - n <= i < |s| ==> IsSpace(s[i])
    ensures n < |s| ==> !IsSpace(s[|s| - n - 1])
  {
    if s != [] && IsSpace(s[|s| - 1]) then 1 + TrailingSpaces(s[..|s| - 1]) else 0
  }

  function TrimLeft(s: string): (r: string)
    ensures |r| <= |s| && r == s[|s| - |r|..]
    ensures r == [] || !IsSpace(r[0])
    ensures forall i :: 0 <= i < |s| - |r| ==> IsSpace(s[i])
  {
    s[LeadingSpaces(s)..]
  }

  function TrimRight(s: string): (r: string)
    ensures |r| <= |s| && r == s[..|r|]
    ensures r == [] || !IsSpace(r[|r| - 1])
    ensures forall i :: |r| <= i < |s| ==> IsSpace(s[i])
  {
    s[..|s| - TrailingSpaces(s)]
  }

  /** str.strip() as int() applies it before parsing. */
  function Strip(s: string): string {
    TrimRight(TrimLeft(s))
  }

  /** Digits, with single underscores allowed between two digits. */
  predicate IsNumeral(s: string) {
    && |s| > 0
    && IsDigit(s[0])
    && IsDigit(s[|s| - 1])
    && (forall i :: 0 <= i < |s| ==> IsDigit(s[i]) || s[i] == '_')
    && (forall i :: 0 <= i < |s| - 1 ==> !DoubleUnderscoreAt(s, i))
  }

  predicate DoubleUnderscoreAt(s: string, i: nat)
    requires i < |s| - 1
  {
    s[i] == '_' && s[i + 1] == '_'
  }

  /** The number a numeral denotes; underscores are skipped. */
  function NumeralValue(s: string): nat
  {
    if s == [] then 0
    else if IsDigit(s[|s| - 1]) then 10 * NumeralValue(s[..|s| - 1]) + DigitValue(s[|s| - 1])
    else NumeralValue(s[..|s| - 1])
  }

  predicate IsSign(c: char) { c == '+' || c == '-' }

  /** int(text) in base 10: Some(n) on success, None where Python raises ValueError. */
  function ParseInt(text: string): Option<int>
  {
    var t := Strip(text);
    if |t| > 0 && IsSign(t[0]) then
      if IsNumeral(t[1..]) then
        var v: int := NumeralValue(t[1..]);
        Some(if t[0] == '-' then -v else v)
      else None
    else if IsNumeral(t) then Some(NumeralValue(t))
    else None
  }

  function DigitChar(d: nat): (c: char)
    requires d < 10
    ensures IsDigit(c) && DigitValue(c) == d
  {
    ('0' as int + d) as char
  }

  /** Decimal digits of a natural number, most significant first, no leading zero. */
  function NatDigits(n: nat): string
  {
    if n < 10 then [DigitChar(n)] else NatDigits(n / 10) + [DigitChar(n % 10)]
  }

  /** str(n): the decimal rendering of an integer. */
  function Show(n: int): string
  {
    if n < 0 then "-" + NatDigits(-n) else NatDigits(n)
  }

  lemma {:induction false} NatDigitsIsNumeral(n: nat)
    ensures IsNumeral(NatDigits(n)) && NumeralValue(NatDigits(n)) == n
    ensures forall i :: 0 <= i < |NatDigits(n)| ==> IsDigit(NatDigits(n)[i])
  {
    if n >= 10 {
      NatDigitsIsNumeral(n / 10);
      var p := NatDigits(n / 10);
      var s := p + [DigitChar(n % 10)];
      assert s[..|s| - 1] == p;
      assert NumeralValue(s) == 10 * (n / 10) + n % 10;
    }
  }

  lemma StripOfDigits(s: string)
    requires forall i :: 0 <= i < |s| ==> IsDigit(s[i]) || IsSign(s[i])
    ensures Strip(s) == s
  {
    assert LeadingSpaces(s) == 0 by {
      assert s == [] || !IsSpace(s[0]);
    }
    assert TrimLeft(s) == s;
    assert TrailingSpaces(s) == 0 by {
      assert s == [] || !IsSpace(s[|s| - 1]);
    }
  }

  lemma ParseUnsignedDigits(d: string)
    requires IsNumeral(d) && forall i :: 0 <= i < |d| ==> IsDigit(d[i])
    ensures ParseInt(d) == Some(NumeralValue(d))
  {
    assert IsDigit(d[0]) && !IsSign(d[0]);
    StripOfDigits(d);
    ParseUnsigned(d);
  }

  lemma ParseUnsigned(t: string)
    requires Strip(t) == t && IsNumeral(t) && !IsSign(t[0])
    ensures ParseInt(t) == Some(NumeralValue(t))
  {
  }

  lemma ParseNegativeDigits(d: string)
    requires IsNumeral(d) && forall i :: 0 <= i < |d| ==> IsDigit(d[i])
    ensures ParseInt("-" + d) == Some(-(NumeralValue(d) as int))
  {
    var s := "-" + d;
    assert s[1..] == d;
    forall i | 0 <= i < |s|
      ensures IsDigit(s[i]) || IsSign(s[i])
    {
      if i > 0 {
        assert s[i] == d[i - 1];
      }
    }
    StripOfDigits(s);
    ParseNegative(s);
  }

  lemma ParseNegative(t: string)
    requires Strip(t) == t && |t| > 0 && t[0] == '-' && IsNumeral(t[1..])
    ensures ParseInt(t) == Some(-(NumeralValue(t[1..]) as int))
  {
  }

  /** Round trip: parsing the decimal rendering of any integer gives it back. */
  lemma ParseShow(n: int)
    ensures ParseInt(Show(n)) == Some(n)
  {
    var m: nat := if n < 0 then -n else n;
    NatDigitsIsNumeral(m);
    if n < 0 {
      ParseNegativeDigits(NatDigits(m));
    } else {
      ParseUnsignedDigits(NatDigits(m));
    }
  }

  /** str is injective on integers: the rendering determines the number. */
  lemma ShowInjective(a: int, b: int)
    requires Show(a) == Show(b)
    ensures a == b
  {
    ParseShow(a);
    ParseShow(b);
  }

  /** A code holding any character that is neither blank, digit, underscore nor
      sign (a letter such as the track codes "A" and "B") does not parse. */
  lemma {:induction false} ParseRejectsForeign(text: string, k: nat)
    requires k < |text|
    requires !IsSpace(text[k]) && !IsDigit(text[k]) && text[k] != '_' && !IsSign(text[k])
    ensures ParseInt(text) == None
  {
    var l := TrimLeft(text);
    var t := Strip(text);
    var off := |text| - |l|;
    assert k >= off;
    assert l[k - off] == text[k];
    assert k - off < |t|;
    assert t[k - off] == text[k];
    if |t| > 0 && IsSign(t[0]) {
      assert k - off > 0;
      assert t[1..][k - off - 1] == text[k];
    }
  }

  /** The separator control 0x1C is not whitespace for int(): "\x1c5" is rejected. */
  lemma SeparatorNotSpace()
    ensures ParseInt([28 as char, '5']) == None
  {
    var t := [28 as char, '5'];
    assert LeadingSpaces(t) == 0 by {
      assert !IsSpace(t[0]);
    }
    assert TrimLeft(t) == t;
    assert TrailingSpaces(t) == 0 by {
      assert !IsSpace(t[1]);
    }
    assert Strip(t) == t;
    assert !IsSign(t[0]) && !IsDigit(t[0]);
    assert !IsNumeral(t);
  }
}
