/**
 * Character classes and folding shared by the JavaScript and Python models.
 * Strings are sequences of UTF-16 code units (JavaScript) or code points
 * (Python), both `seq<char>` here. Every character that the rules, the
 * phrases and the fixed texts name lies in the Basic Multilingual Plane; a
 * character of the summary or the reply outside it is one `char` here, where
 * JavaScript sees two code units.
 */
module Chars {

  datatype Option<T> = None | Some(value: T)

  /** `\d` in an ECMAScript regular expression: the ASCII digits only. */
  predicate IsDigit(c: char) {
    '0' <= c <= '9'
  }

  /** ECMAScript LineTerminator: what `.` refuses to match without the `s` flag. */
  predicate IsLineTerminator(c: char) {
    c == '\n' || c == '\r' || c == '\U{2028}' || c == '\U{2029}'
  }

  /** `\s` in an ECMAScript regular expression: WhiteSpace (including every
      Zs space separator) and LineTerminator. */
  predicate IsSpace(c: char) {
    || c == '\t' || c == '\U{000B}' || c == '\U{000C}' || c == ' '
    || c == '\U{00A0}' || c == '\U{FEFF}' || c == '\U{1680}'
    || ('\U{2000}' <= c <= '\U{200A}') || c == '\U{202F}' || c == '\U{205F}' || c == '\U{3000}'
    || IsLineTerminator(c)
  }

  /** `\w` (and so `\b`) without the `u` flag: ASCII letters, digits and `_`. */
  predicate IsWordChar(c: char) {
    ('a' <= c <= 'z') || ('A' <= c <= 'Z') || IsDigit(c) || c == '_'
  }

  /** ASCII upper-casing. Without the `u` flag an ECMAScript `/i` pattern never
      lets a non-ASCII character fold onto an ASCII one, so for patterns whose
      letters are ASCII (or caseless Devanagari) this is the whole of `/i`. */
  function Upper(c: char): (u: char)
    ensures IsWordChar(u) == IsWordChar(c)
  {
    if 'a' <= c <= 'z' then (c as int - 32) as char else c
  }

  function Lower(c: char): (l: char)
    ensures IsWordChar(l) == IsWordChar(c)
  {
    if 'A' <= c <= 'Z' then (c as int + 32) as char else c
  }

  /** Equality of two strings up to ASCII case. */
  predicate FoldEq(s: string, t: string) {
    |s| == |t| && forall k :: 0 <= k < |s| ==> Upper(s[k]) == Upper(t[k])
  }

  lemma FoldEqSplit(a: string, b: string, k: nat)
    requires FoldEq(a, b) && k <= |a|
    ensures FoldEq(a[..k], b[..k]) && FoldEq(a[k..], b[k..])
  {
    assert forall j :: 0 <= j < |a| - k ==> a[k..][j] == a[k + j] && b[k..][j] == b[k + j];
  }

  lemma FoldEqConcat(a: string, b: string, c: string, d: string)
    requires FoldEq(a, c) && FoldEq(b, d)
    ensures FoldEq(a + b, c + d)
  {
    forall j | 0 <= j < |a + b| ensures Upper((a + b)[j]) == Upper((c + d)[j]) {
      if j >= |a| {
        assert (a + b)[j] == b[j - |a|] && (c + d)[j] == d[j - |a|];
      }
    }
  }

  predicate AllDigits(s: string) {
    forall k :: 0 <= k < |s| ==> IsDigit(s[k])
  }

  predicate HasDigit(s: string) {
    exists k :: 0 <= k < |s| && IsDigit(s[k])
  }

  /** The value of a string of decimal digits (`parseInt(ds)` for such a string). */
  function DecimalValue(ds: string): nat
    requires AllDigits(ds)
  {
    if ds == [] then 0
    else 10 * DecimalValue(ds[..|ds| - 1]) + (ds[|ds| - 1] as int - '0' as int)
  }

  /** The digit characters of `n`, padded with leading zeros to `width`. */
  function PadDigits(n: nat, width: nat): (ds: string)
    ensures |ds| == width && AllDigits(ds)
  {
    if width == 0 then []
    else PadDigits(n / 10, width - 1) + [('0' as int + n % 10) as char]
  }

  function Pow10(k: nat): (p: nat)
    ensures p > 0
  {
    if k == 0 then 1 else 10 * Pow10(k - 1)
  }

  /** A number below `10^width`, padded to `width` digits, reads back as itself. */
  lemma {:induction false} PadDigitsValue(n: nat, width: nat)
    requires n < Pow10(width)
    ensures DecimalValue(PadDigits(n, width)) == n
  {
    if width > 0 {
      var q, c := n / 10, ('0' as int + n % 10) as char;
      TenthBelow(n, Pow10(width - 1));
      PadDigitsValue(q, width - 1);
      DecimalSnoc(PadDigits(q, width - 1), c);
    }
  }

  /** One more digit at the end multiplies the value by ten and adds the digit. */
  lemma DecimalSnoc(ds: string, c: char)
    requires AllDigits(ds) && IsDigit(c)
    ensures AllDigits(ds + [c]) && DecimalValue(ds + [c]) == 10 * DecimalValue(ds) + (c as int - '0' as int)
  {
    assert (ds + [c])[..|ds|] == ds;
  }

  /** Dropping the last decimal digit of a number below `10 * p` leaves one below `p`. */
  lemma TenthBelow(n: nat, p: nat)
    requires n < 10 * p
    ensures n / 10 < p && 10 * (n / 10) + n % 10 == n
  {
  }
}
