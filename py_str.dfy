/**
  The handful of Python `str` operations the cipher code relies on, on ASCII text.
  Python applies Unicode rules to non-ASCII characters (`'ß'.upper()` is two
  characters long); the model covers ASCII only and its callers require it.
*/
module PyStr {
  predicate IsAsciiChar(c: char)
  {
    c < 128 as char
  }

  predicate IsAscii(s: string)
  {
    forall i :: 0 <= i < |s| ==> IsAsciiChar(s[i])
  }

  /** `c.islower()` for an ASCII character. */
  predicate IsLower(c: char)
  {
    'a' <= c <= 'z'
  }

  /** `c.isupper()` for an ASCII character. */
  predicate IsUpper(c: char)
  {
    'A' <= c <= 'Z'
  }

  /** `c.isalpha()` for an ASCII character. */
  predicate IsAlpha(c: char)
  {
    IsLower(c) || IsUpper(c)
  }

  /** `c.isdigit()` for an ASCII character. */
  predicate IsDigit(c: char)
  {
    '0' <= c <= '9'
  }

  /** `s.isalpha()`: non-empty and letters only. */
  predicate IsAlphaString(s: string)
  {
    |s| > 0 && forall i :: 0 <= i < |s| ==> IsAlpha(s[i])
  }

  /** `s.isdigit()`: non-empty and digits only. */
  predicate IsDigitString(s: string)
  {
    |s| > 0 && forall i :: 0 <= i < |s| ==> IsDigit(s[i])
  }

  /** `c.upper()` for an ASCII character. */
  function Upper(c: char): (r: char)
    ensures IsLower(c) ==> IsUpper(r) && r as int == c as int - 32
    ensures !IsLower(c) ==> r == c
  {
    if IsLower(c) then (c as int - 32) as char else c
  }

  /** `c.lower()` for an ASCII character. */
  function Lower(c: char): (r: char)
    ensures IsUpper(c) ==> IsLower(r) && r as int == c as int + 32
    ensures !IsUpper(c) ==> r == c
  {
    if IsUpper(c) then (c as int + 32) as char else c
  }

  /** `s.upper()` */
  function UpperString(s: string): (r: string)
    ensures |r| == |s|
    ensures forall i :: 0 <= i < |s| ==> r[i] == Upper(s[i])
  {
    seq(|s|, i requires 0 <= i < |s| => Upper(s[i]))
  }

  /** `s.lower()` */
  function LowerString(s: string): (r: string)
    ensures |r| == |s|
    ensures forall i :: 0 <= i < |s| ==> r[i] == Lower(s[i])
  {
    seq(|s|, i requires 0 <= i < |s| => Lower(s[i]))
  }

  /** The value of a decimal digit character. */
  function DigitValue(c: char): (r: nat)
    requires IsDigit(c)
    ensures r <= 9
  {
    c as int - '0' as int
  }

  /** `str(x)` for a natural number. */
  function Decimal(x: nat): (r: string)
    ensures |r| > 0 && forall i :: 0 <= i < |r| ==> IsDigit(r[i])
    ensures x <= 9 ==> r == [('0' as int + x) as char]
  {
    if x <= 9 then [('0' as int + x) as char]
    else Decimal(x / 10) + [('0' as int + x % 10) as char]
  }
}
