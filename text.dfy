/**
 * Character classes and number texts as JavaScript sees them: the `\s` class
 * of regular expressions and `String.prototype.trim`, decimal digit runs,
 * `Number(...)` applied to a text of digits and dots, integer-to-string
 * conversion, ASCII lower-casing and `includes`.
 */
module Text {
  import opened Wrappers

  /** The JavaScript `\s` class (WhiteSpace and LineTerminator). */
  predicate IsSpace(c: char) {
    c == ' ' || c == '\t' || c == '\n' || c == '\r' || c == '\U{000B}' || c == '\U{000C}'
    || c == '\U{00A0}' || c == '\U{1680}' || ('\U{2000}' <= c <= '\U{200A}')
    || c == '\U{2028}' || c == '\U{2029}' || c == '\U{202F}' || c == '\U{205F}'
    || c == '\U{3000}' || c == '\U{FEFF}'
  }

  predicate NoSpace(s: string) {
    forall i :: 0 <= i < |s| ==> !IsSpace(s[i])
  }

  /** `s.replace(/\s+/g, '')`: every whitespace character deleted. */
  function StripSpaces(s: string): (r: string)
    ensures NoSpace(r)
    ensures |r| <= |s|
  {
    if s == [] then []
    else if IsSpace(s[0]) then StripSpaces(s[1..])
    else [s[0]] + StripSpaces(s[1..])
  }

  /** Deleting whitespace commutes with concatenation. */
  lemma {:induction false} StripSpacesConcat(a: string, b: string)
    ensures StripSpaces(a + b) == StripSpaces(a) + StripSpaces(b)
  {
    if a == [] {
      assert a + b == b;
    } else {
      assert (a + b)[0] == a[0];
      assert (a + b)[1..] == a[1..] + b;
      StripSpacesConcat(a[1..], b);
    }
  }

  /** A text without whitespace is left as it is. */
  lemma {:induction false} StripSpacesNoSpace(s: string)
    requires NoSpace(s)
    ensures StripSpaces(s) == s
  {
    if s != [] {
      StripSpacesNoSpace(s[1..]);
    }
  }

  function TrimStart(s: string): (r: string)
    ensures |r| <= |s| && r == s[|s| - |r|..]
    ensures r != [] ==> !IsSpace(r[0])
  {
    if s != [] && IsSpace(s[0]) then TrimStart(s[1..]) else s
  }

  function TrimEnd(s: string): (r: string)
    ensures |r| <= |s| && r == s[..|r|]
    ensures r != [] ==> !IsSpace(r[|r| - 1])
  {
    if s != [] && IsSpace(s[|s| - 1]) then TrimEnd(s[..|s| - 1]) else s
  }

  /** `s.trim()`: a contiguous part of `s` that neither starts nor ends with whitespace. */
  function Trim(s: string): (r: string)
    ensures |r| <= |s|
    ensures r != [] ==> !IsSpace(r[0]) && !IsSpace(r[|r| - 1])
    ensures s != [] && !IsSpace(s[0]) && !IsSpace(s[|s| - 1]) ==> r == s
  {
    TrimEnd(TrimStart(s))
  }

  predicate IsDigit(c: char) {
    '0' <= c <= '9'
  }

  predicate AllDigits(s: string) {
    forall i :: 0 <= i < |s| ==> IsDigit(s[i])
  }

  function DigitValue(c: char): nat
    requires IsDigit(c)
  {
    (c as int) - ('0' as int)
  }

  /** `Number(s)` for a non-empty run of decimal digits (leading zeros allowed). */
  function DigitsValue(s: string): nat
    requires AllDigits(s)
  {
    if s == [] then 0 else DigitsValue(s[..|s| - 1]) * 10 + DigitValue(s[|s| - 1])
  }

  function DigitChar(d: nat): (c: char)
    requires d < 10
    ensures IsDigit(c) && DigitValue(c) == d
  {
    ('0' as int + d) as char
  }

  /** The decimal text of a natural number, as a template literal prints it. */
  function NatToString(n: nat): (r: string)
    ensures r != [] && AllDigits(r) && NoSpace(r)
  {
    if n < 10 then [DigitChar(n)] else NatToString(n / 10) + [DigitChar(n % 10)]
  }

  /** Printing a natural number and reading its digits back gives the number. */
  lemma {:induction false} NatToStringValue(n: nat)
    ensures DigitsValue(NatToString(n)) == n
  {
    if n >= 10 {
      var s := NatToString(n);
      assert s[..|s| - 1] == NatToString(n / 10);
      NatToStringValue(n / 10);
    }
  }

  function Pow10(n: nat): (r: nat)
    ensures r >= 1
  {
    if n == 0 then 1 else 10 * Pow10(n - 1)
  }

  predicate DecimalChars(s: string) {
    forall i :: 0 <= i < |s| ==> IsDigit(s[i]) || s[i] == '.'
  }

  function DotCount(s: string): nat {
    if s == [] then 0 else (if s[0] == '.' then 1 else 0) + DotCount(s[1..])
  }

  /** `s.indexOf(c)`: the first position of `c`, `None` for -1. */
  function IndexOf(s: string, c: char): (r: Option<nat>)
    ensures r.Some? ==> r.value < |s| && s[r.value] == c && c !in s[..r.value]
    ensures r.None? ==> c !in s
  {
    if s == [] then None
    else if s[0] == c then Some(0)
    else match IndexOf(s[1..], c)
      case None => None
      case Some(k) => Some(k + 1)
  }

  lemma {:induction false} DotCountZero(s: string)
    ensures DotCount(s) == 0 <==> '.' !in s
  {
    if s != [] {
      DotCountZero(s[1..]);
      assert '.' in s <==> s[0] == '.' || '.' in s[1..];
    }
  }

  lemma {:induction false} DotCountSplit(s: string, k: nat)
    requires k < |s| && s[k] == '.' && '.' !in s[..k]
    ensures DotCount(s) == 1 + DotCount(s[k + 1..])
  {
    if k > 0 {
      assert s[1..][..k - 1] == s[1..k];
      assert s[1..][k - 1 + 1..] == s[k + 1..];
      assert '.' !in s[1..][..k - 1];
      DotCountSplit(s[1..], k - 1);
    }
  }

  predicate HasDigit(s: string) {
    exists i :: 0 <= i < |s| && IsDigit(s[i])
  }

  /**
   * `Number(t)` for a non-empty text of digits and dots: a decimal with at
   * most one dot and at least one digit, else NaN (here `None`).
   */
  function ParseDecimal(t: string): (r: Option<real>)
    requires |t| > 0 && DecimalChars(t)
    ensures r.None? <==> !HasDigit(t) || DotCount(t) > 1
    ensures r.Some? ==> r.value >= 0.0
    ensures AllDigits(t) ==> r == Some(DigitsValue(t) as real)
  {
    match IndexOf(t, '.')
    case None =>
      DotCountZero(t);
      assert AllDigits(t);
      assert IsDigit(t[0]);
      Some(DigitsValue(t) as real)
    case Some(k) =>
      var ip, fp := t[..k], t[k + 1..];
      DotCountSplit(t, k);
      DotCountZero(fp);
      assert AllDigits(ip) by {
        forall i | 0 <= i < |ip| ensures IsDigit(ip[i]) {
          assert ip[i] in t[..k];
        }
      }
      assert !AllDigits(t) by { assert !IsDigit(t[k]); }
      if !AllDigits(fp) then
        assert '.' in fp by {
          var i :| 0 <= i < |fp| && !IsDigit(fp[i]);
          assert fp[i] == t[k + 1 + i];
        }
        None
      else if ip == [] && fp == [] then
        assert !HasDigit(t) by {
          assert |t| == 1;
        }
        None
      else
        assert HasDigit(t) by {
          if ip != [] { assert IsDigit(t[0]); } else { assert IsDigit(t[k + 1]); }
        }
        Some(DigitsValue(ip) as real + (DigitsValue(fp) as real) / (Pow10(|fp|) as real))
  }

  /** ASCII upper-case letters mapped to lower case; every other character kept. */
  function LowerAscii(s: string): (r: string)
    ensures |r| == |s|
    ensures forall i :: 0 <= i < |s| && !('A' <= s[i] <= 'Z') ==> r[i] == s[i]
  {
    if s == [] then []
    else [if 'A' <= s[0] <= 'Z' then (s[0] as int + 32) as char else s[0]] + LowerAscii(s[1..])
  }

  /** Lowering twice is lowering once. */
  lemma {:induction false} LowerAsciiIdempotent(s: string)
    ensures LowerAscii(LowerAscii(s)) == LowerAscii(s)
  {
    if s != [] {
      LowerAsciiIdempotent(s[1..]);
      assert LowerAscii(s)[1..] == LowerAscii(s[1..]);
    }
  }

  /** `s.startsWith(p)`. */
  predicate StartsWith(s: string, p: string) {
    |p| <= |s| && s[..|p|] == p
  }

  /** `s.includes(p)`. */
  predicate Includes(s: string, p: string)
    decreases |s|
  {
    StartsWith(s, p) || (s != [] && Includes(s[1..], p))
  }

  /** A text includes whatever one of its suffixes starts with. */
  lemma {:induction false} IncludesSuffix(s: string, k: nat, p: string)
    requires k <= |s| && StartsWith(s[k..], p)
    ensures Includes(s, p)
    decreases k
  {
    if k > 0 {
      assert s[1..][k - 1..] == s[k..];
      IncludesSuffix(s[1..], k - 1, p);
    } else {
      assert s[0..] == s;
    }
  }
}
