/**
 * The Python string builtins the application relies on: `str.strip()`, `str.lower()`,
 * the substring test `needle in haystack`, `str(n)` and `int(s)`.
 * Characters are Unicode scalar values, as in a Python `str`.
 */
module Text {
  import opened Wrappers

  // ---------------------------------------------------------------- whitespace and strip

  /** The ASCII characters for which Python's `str.isspace()` holds. */
  predicate IsSpace(c: char) {
    c == ' ' || (0x09 <= c as int <= 0x0D) || (0x1C <= c as int <= 0x1F)
  }

  function StripLeft(s: string): string {
    if s != [] && IsSpace(s[0]) then StripLeft(s[1..]) else s
  }

  /** `StripLeft` drops a run of leading whitespace and stops at the first other character. */
  lemma {:induction false} StripLeftSpec(s: string)
    ensures var r := StripLeft(s);
            && |r| <= |s| && r == s[|s| - |r|..]
            && (r == [] || !IsSpace(r[0]))
            && (forall i :: 0 <= i < |s| - |r| ==> IsSpace(s[i]))
  {
    if s != [] && IsSpace(s[0]) {
      var t := s[1..];
      StripLeftSpec(t);
      var r := StripLeft(t);
      assert StripLeft(s) == r;
      assert t[|t| - |r|..] == s[|s| - |r|..];
      forall i | 0 <= i < |s| - |r| ensures IsSpace(s[i]) {
        if i > 0 { assert s[i] == t[i - 1]; }
      }
    }
  }

  function StripRight(s: string): string {
    if s != [] && IsSpace(s[|s| - 1]) then StripRight(s[..|s| - 1]) else s
  }

  /** `StripRight` drops a run of trailing whitespace and stops at the last other character. */
  lemma {:induction false} StripRightSpec(s: string)
    ensures var r := StripRight(s);
            && |r| <= |s| && r == s[..|r|]
            && (r == [] || !IsSpace(r[|r| - 1]))
            && (forall i :: |r| <= i < |s| ==> IsSpace(s[i]))
  {
    if s != [] && IsSpace(s[|s| - 1]) {
      var t := s[..|s| - 1];
      StripRightSpec(t);
      var r := StripRight(t);
      assert StripRight(s) == r;
      assert t[..|r|] == s[..|r|];
      forall i | |r| <= i < |s| ensures IsSpace(s[i]) {
        if i < |s| - 1 { assert s[i] == t[i]; }
      }
    }
  }

  /** `r` is the slice of `s` starting at `lo`, and everything around it is whitespace. */
  predicate TrimmedAt(s: string, lo: int, r: string) {
    && 0 <= lo <= |s| - |r| && r == s[lo..lo + |r|]
    && (forall i :: 0 <= i < lo ==> IsSpace(s[i]))
    && (forall i :: lo + |r| <= i < |s| ==> IsSpace(s[i]))
  }

  /** `s.strip()`: `s` without its leading and trailing whitespace. */
  function Strip(s: string): (r: string)
    ensures r == [] || (!IsSpace(r[0]) && !IsSpace(r[|r| - 1]))
    ensures |r| <= |s|
  {
    StripLeftSpec(s);
    StripRightSpec(StripLeft(s));
    StripRight(StripLeft(s))
  }

  /** What `Strip` removes is whitespace, from the two ends only. */
  lemma StripTrims(s: string)
    ensures TrimmedAt(s, |s| - |StripLeft(s)|, Strip(s))
  {
    var l := StripLeft(s);
    StripLeftSpec(s);
    StripRightSpec(l);
    var r := StripRight(l);
    forall i | |s| - |l| + |r| <= i < |s| ensures IsSpace(s[i]) {
      assert s[i] == l[i - (|s| - |l|)];
    }
  }

  /** A string with no whitespace at its ends is its own strip. */
  lemma StripUnchanged(s: string)
    requires s == [] || (!IsSpace(s[0]) && !IsSpace(s[|s| - 1]))
    ensures Strip(s) == s
  {
  }

  // ---------------------------------------------------------------- lower

  /** `c.lower()` on the ASCII range. */
  function LowerChar(c: char): (r: char)
    ensures 'A' <= c <= 'Z' ==> r as int == c as int + 32
    ensures !('A' <= c <= 'Z') ==> r == c
  {
    if 'A' <= c <= 'Z' then (c as int + 32) as char else c
  }

  /** `s.lower()`: every upper-case ASCII letter is replaced by its lower-case form. */
  function Lower(s: string): (r: string)
    ensures |r| == |s|
    ensures forall i :: 0 <= i < |s| ==> r[i] == LowerChar(s[i])
    ensures forall i :: 0 <= i < |r| ==> !('A' <= r[i] <= 'Z')
  {
    seq(|s|, i requires 0 <= i < |s| => LowerChar(s[i]))
  }

  // ---------------------------------------------------------------- substring test

  predicate IsPrefix(p: string, s: string) {
    |p| <= |s| && s[..|p|] == p
  }

  /** `needle in haystack` for strings. */
  predicate Contains(haystack: string, needle: string)
    decreases |haystack|
  {
    IsPrefix(needle, haystack) || (haystack != [] && Contains(haystack[1..], needle))
  }

  predicate OccursAt(haystack: string, needle: string, i: int) {
    0 <= i && i + |needle| <= |haystack| && haystack[i..i + |needle|] == needle
  }

  /** `Contains` holds exactly when the needle occurs at some position of the haystack. */
  lemma {:induction false} ContainsAt(haystack: string, needle: string)
    ensures Contains(haystack, needle) <==> exists i :: OccursAt(haystack, needle, i)
    decreases |haystack|
  {
    if IsPrefix(needle, haystack) {
      assert haystack[0..|needle|] == haystack[..|needle|];
      assert OccursAt(haystack, needle, 0);
    }
    if haystack != [] {
      ContainsAt(haystack[1..], needle);
      if Contains(haystack[1..], needle) {
        var i :| OccursAt(haystack[1..], needle, i);
        assert haystack[i + 1..i + 1 + |needle|] == haystack[1..][i..i + |needle|];
        assert OccursAt(haystack, needle, i + 1);
      }
      if exists i :: OccursAt(haystack, needle, i) {
        var i :| OccursAt(haystack, needle, i);
        if i == 0 {
          assert haystack[..|needle|] == haystack[0..|needle|];
        } else {
          assert haystack[1..][i - 1..i - 1 + |needle|] == haystack[i..i + |needle|];
          assert OccursAt(haystack[1..], needle, i - 1);
        }
      }
    } else {
      if exists i :: OccursAt(haystack, needle, i) {
        var i :| OccursAt(haystack, needle, i);
        assert needle == [];
      }
    }
  }

  /** The empty string occurs in every string. */
  lemma ContainsEmpty(haystack: string)
    ensures Contains(haystack, "")
  {
  }

  // ---------------------------------------------------------------- decimal numerals

  predicate IsDigit(c: char) {
    '0' <= c <= '9'
  }

  function DigitChar(d: nat): (c: char)
    requires d < 10
    ensures IsDigit(c) && c as int - '0' as int == d
  {
    ('0' as int + d) as char
  }

  function DigitValue(c: char): (d: nat)
    requires IsDigit(c)
    ensures d < 10 && DigitChar(d) == c
  {
    c as int - '0' as int
  }

  predicate AllDigits(s: string) {
    forall i :: 0 <= i < |s| ==> IsDigit(s[i])
  }

  /** The value of a string of decimal digits, most significant first. */
  function DigitsValue(s: string): nat
    requires AllDigits(s)
  {
    if s == [] then 0 else DigitsValue(s[..|s| - 1]) * 10 + DigitValue(s[|s| - 1])
  }

  /** `str(n)` for a non-negative integer: its decimal digits, without leading zeros. */
  function NatToString(n: nat): (s: string)
    ensures |s| >= 1 && AllDigits(s)
    ensures |s| > 1 ==> s[0] != '0'
  {
    if n < 10 then [DigitChar(n)] else NatToString(n / 10) + [DigitChar(n % 10)]
  }

  lemma {:induction false} NatToStringValue(n: nat)
    ensures DigitsValue(NatToString(n)) == n
  {
    var s := NatToString(n);
    if n >= 10 {
      NatToStringValue(n / 10);
      assert s[..|s| - 1] == NatToString(n / 10);
    }
  }

  /** Distinct numbers have distinct decimal forms. */
  lemma NatToStringInjective(m: nat, n: nat)
    requires NatToString(m) == NatToString(n)
    ensures m == n
  {
    NatToStringValue(m);
    NatToStringValue(n);
  }

  /**
   * The numeral grammar of Python's `int(s)` in base 10: digits, where a single
   * underscore may separate two digits.
   */
  predicate IsNumeral(t: string) {
    && t != []
    && IsDigit(t[0]) && IsDigit(t[|t| - 1])
    && (forall i :: 0 <= i < |t| ==> IsDigit(t[i]) || t[i] == '_')
    && (forall i :: 0 <= i < |t| - 1 ==> NoDoubleUnderscoreAt(t, i))
  }

  /** Positions `i` and `i + 1` of `t` are not both underscores. */
  predicate NoDoubleUnderscoreAt(t: string, i: int)
    requires 0 <= i < |t| - 1
  {
    IsDigit(t[i]) || IsDigit(t[i + 1])
  }

  function RemoveUnderscores(t: string): (r: string)
    requires forall i :: 0 <= i < |t| ==> IsDigit(t[i]) || t[i] == '_'
    ensures AllDigits(r) && |r| <= |t|
    ensures AllDigits(t) ==> r == t
  {
    if t == [] then []
    else if t[0] == '_' then RemoveUnderscores(t[1..])
    else [t[0]] + RemoveUnderscores(t[1..])
  }

  /**
   * CPython's default limit on the number of digits `int(s)` converts (its
   * `sys.get_int_max_str_digits()`); a longer numeral is a `ValueError`. Leading zeros count,
   * underscores, the sign and whitespace do not.
   */
  const MaxStrDigits := 4300

  /**
   * `int(s)` for a string: surrounding whitespace is ignored, an optional sign may
   * precede the numeral; anything else, and a numeral of more than `MaxStrDigits` digits,
   * is a `ValueError`, here `None`.
   */
  function ParseInt(s: string): (r: Option<int>)
    ensures r.Some? ==> Strip(s) != []
  {
    ParseSigned(Strip(s))
  }

  /** An unsigned numeral: its value, or `None` when it is malformed or too long. */
  function ParseNumeral(u: string): (r: Option<nat>)
    ensures r.Some? ==> u != []
  {
    if IsNumeral(u) && |RemoveUnderscores(u)| <= MaxStrDigits then Some(DigitsValue(RemoveUnderscores(u)))
    else None
  }

  /** `int(t)` once the whitespace is stripped. */
  function ParseSigned(t: string): (r: Option<int>)
    ensures r.Some? ==> t != []
  {
    if t != [] && (t[0] == '+' || t[0] == '-') then
      match ParseNumeral(t[1..])
      case None => None
      case Some(v) => Some(if t[0] == '-' then -(v as int) else v as int)
    else
      match ParseNumeral(t)
      case None => None
      case Some(v) => Some(v as int)
  }

  /** A plain string of digits is a numeral of its value, unless it has too many digits. */
  lemma ParseNumeralDigits(d: string)
    requires d != [] && AllDigits(d)
    ensures ParseNumeral(d) == if |d| <= MaxStrDigits then Some(DigitsValue(d)) else None
  {
    assert IsDigit(d[0]) && IsDigit(d[|d| - 1]);
    assert IsNumeral(d);
  }

  /** A plain string of digits parses to its value, unless it has too many digits. */
  lemma ParseSignedDigits(t: string)
    requires t != [] && AllDigits(t)
    ensures ParseSigned(t) == if |t| <= MaxStrDigits then Some(DigitsValue(t) as int) else None
  {
    ParseNumeralDigits(t);
  }

  /** `int(t)` of a string of digits, leading zeros included: its value, or a `ValueError`
      beyond `MaxStrDigits` digits. */
  lemma ParseIntOfDigits(t: string)
    requires t != [] && AllDigits(t)
    ensures ParseInt(t) == if |t| <= MaxStrDigits then Some(DigitsValue(t)) else None
  {
    assert IsDigit(t[0]) && IsDigit(t[|t| - 1]);
    assert !IsSpace(t[0]) && !IsSpace(t[|t| - 1]);
    StripUnchanged(t);
    ParseSignedDigits(t);
  }

  /** `int(str(n)) == n` wherever `str(n)` is within the digit limit. */
  lemma ParseIntOfNatToString(n: nat)
    ensures ParseInt(NatToString(n)) == if |NatToString(n)| <= MaxStrDigits then Some(n) else None
  {
    ParseIntOfDigits(NatToString(n));
    NatToStringValue(n);
  }

  /** A minus sign before a plain string of digits negates its value. */
  lemma ParseSignedNegative(d: string)
    requires d != [] && AllDigits(d)
    ensures ParseSigned("-" + d) == if |d| <= MaxStrDigits then Some(-(DigitsValue(d) as int)) else None
  {
    var t := "-" + d;
    assert t[1..] == d;
    ParseSignedMinus(t);
    ParseNumeralDigits(d);
  }

  /** A leading minus sign negates the numeral after it. */
  lemma ParseSignedMinus(t: string)
    requires t != [] && t[0] == '-'
    ensures ParseSigned(t) == if ParseNumeral(t[1..]).Some? then Some(-(ParseNumeral(t[1..]).value as int)) else None
  {
  }

  /** `int` of a string without whitespace at its ends needs no stripping. */
  lemma ParseIntUnpadded(t: string)
    requires t == [] || (!IsSpace(t[0]) && !IsSpace(t[|t| - 1]))
    ensures ParseInt(t) == ParseSigned(t)
  {
    StripUnchanged(t);
  }

  lemma ParseIntNegativeDigits(d: string, v: nat)
    requires d != [] && AllDigits(d) && DigitsValue(d) == v
    ensures ParseInt("-" + d) == if |d| <= MaxStrDigits then Some(-(v as int)) else None
  {
    var t := "-" + d;
    assert t[|t| - 1] == d[|d| - 1];
    assert IsDigit(t[|t| - 1]);
    ParseIntUnpadded(t);
    ParseSignedNegative(d);
  }

  /** A signed numeral: `int("-" + str(n)) == -n` within the digit limit. */
  lemma ParseIntOfNegative(n: nat)
    ensures ParseInt("-" + NatToString(n)) ==
              if |NatToString(n)| <= MaxStrDigits then Some(-(n as int)) else None
  {
    NatToStringValue(n);
    ParseIntNegativeDigits(NatToString(n), n);
  }
}
