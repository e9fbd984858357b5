/** The parts of Python's built-in `str` behaviour that the receipt reader
    relies on: character classes, `lower`, `strip`, `find`/`rfind` with
    Python's index normalisation, slicing with negative indices, lexicographic
    comparison and `str(int)`.  Characters are classified as CPython does for
    the Latin-1 range (U+0000..U+00FF); characters above it are treated as
    non-digits, non-letters and non-spaces. */
module Python {

  datatype Option<T> = None | Some(value: T)

  /** The exceptions the extractor can raise. */
  datatype PyError = ValueError | UnboundLocalError

  datatype Result<T> = Ok(value: T) | Raise(error: PyError)

  // ---------------------------------------------------------------------
  // Character classes

  predicate IsAsciiDigit(c: char) { '0' <= c <= '9' }

  /** Superscript one, two and three: `str.isdigit` holds for them, but they
      are not decimal digits, so `\d` and `float` reject them. */
  predicate IsSuperscriptDigit(c: char) {
    c == '\U{B9}' || c == '\U{B2}' || c == '\U{B3}'
  }

  /** `str.isdigit` on one character. */
  predicate IsDigit(c: char) { IsAsciiDigit(c) || IsSuperscriptDigit(c) }

  /** `str.isspace` on one character. */
  predicate IsSpace(c: char) {
    var k := c as int;
    (9 <= k <= 13) || (28 <= k <= 32) || k == 0x85 || k == 0xA0
  }

  /** A character of the regular-expression class `\w` (alphanumeric or `_`). */
  predicate IsWordChar(c: char) {
    var k := c as int;
    IsAsciiDigit(c) || ('A' <= c <= 'Z') || ('a' <= c <= 'z') || c == '_'
    || k == 0xAA || k == 0xB2 || k == 0xB3 || k == 0xB5 || k == 0xB9 || k == 0xBA
    || (0xBC <= k <= 0xBE) || (0xC0 <= k <= 0xFF && k != 0xD7 && k != 0xF7)
  }

  /** Upper-case letters that `str.lower` maps one-to-one onto a letter 32 code
      points higher. */
  predicate IsUpper(c: char) {
    var k := c as int;
    ('A' <= c <= 'Z') || (0xC0 <= k <= 0xDE && k != 0xD7)
  }

  function LowerChar(c: char): (d: char)
    ensures IsUpper(c) ==> d as int == c as int + 32
    ensures !IsUpper(c) ==> d == c
    ensures !IsUpper(d)
  {
    if IsUpper(c) then (c as int + 32) as char else c
  }

  /** Lowering leaves the marks the extraction searches for alone, in both
      directions: a lowered `%`, newline or digit was that character. */
  lemma LowerKeepsMarks(c: char)
    ensures LowerChar(c) == '%' <==> c == '%'
    ensures LowerChar(c) == '\n' <==> c == '\n'
    ensures IsAsciiDigit(LowerChar(c)) <==> IsAsciiDigit(c)
  {
  }

  /** Lowering twice is lowering once. */
  lemma LowerIdempotent(s: string)
    ensures Lower(Lower(s)) == Lower(s)
  {
  }

  /** `str.lower`: length-preserving. */
  function Lower(s: string): (r: string)
    ensures |r| == |s|
    ensures forall i :: 0 <= i < |s| ==> r[i] == LowerChar(s[i])
  {
    seq(|s|, i requires 0 <= i < |s| => LowerChar(s[i]))
  }

  // ---------------------------------------------------------------------
  // strip

  function StripLeft(s: string): (r: string)
    decreases |s|
  {
    if |s| > 0 && IsSpace(s[0]) then StripLeft(s[1..]) else s
  }

  function StripRight(s: string): (r: string)
    decreases |s|
  {
    if |s| > 0 && IsSpace(s[|s| - 1]) then StripRight(s[..|s| - 1]) else s
  }

  /** `str.strip()` with no argument: the longest infix of `s` that neither
      starts nor ends with white space. */
  function Strip(s: string): (r: string)
  {
    StripRight(StripLeft(s))
  }

  /** How many white-space characters `StripLeft` removes: the length of the
      longest all-white-space prefix. */
  function LeadingSpaces(s: string): (a: nat)
    ensures a <= |s| && StripLeft(s) == s[a..]
    ensures forall k :: 0 <= k < a ==> IsSpace(s[k])
    ensures a == |s| || !IsSpace(s[a])
    decreases |s|
  {
    if |s| > 0 && IsSpace(s[0]) then
      var a := LeadingSpaces(s[1..]);
      assert s[1..][a..] == s[a + 1..];
      assert forall k :: 0 < k <= a ==> s[k] == s[1..][k - 1];
      a + 1
    else
      assert s[0..] == s;
      0
  }

  /** How many characters `StripRight` keeps: the length of the prefix left
      after the longest all-white-space suffix. */
  function KeptLength(s: string): (b: nat)
    ensures b <= |s| && StripRight(s) == s[..b]
    ensures forall k :: b <= k < |s| ==> IsSpace(s[k])
    ensures b == 0 || !IsSpace(s[b - 1])
    decreases |s|
  {
    if |s| > 0 && IsSpace(s[|s| - 1]) then
      var t := s[..|s| - 1];
      var b := KeptLength(t);
      assert t[..b] == s[..b];
      assert forall k :: b <= k < |s| - 1 ==> s[k] == t[k];
      b
    else
      assert s[..|s|] == s;
      |s|
  }

  /** `strip` removes white space from both ends and nothing else. */
  lemma StripIsInfix(s: string)
    ensures exists a, b :: 0 <= a <= b <= |s| && Strip(s) == s[a..b]
                           && (forall k :: 0 <= k < a ==> IsSpace(s[k]))
                           && (forall k :: b <= k < |s| ==> IsSpace(s[k]))
    ensures Strip(s) == [] || (!IsSpace(Strip(s)[0]) && !IsSpace(Strip(s)[|Strip(s)| - 1]))
  {
    var a, b := StripBounds(s);
  }

  /** The ends `strip` cuts `s` at. */
  lemma StripBounds(s: string) returns (a: nat, b: nat)
    ensures a <= b <= |s| && Strip(s) == s[a..b]
    ensures forall k :: 0 <= k < a ==> IsSpace(s[k])
    ensures forall k :: b <= k < |s| ==> IsSpace(s[k])
    ensures Strip(s) == [] || (!IsSpace(Strip(s)[0]) && !IsSpace(Strip(s)[|Strip(s)| - 1]))
  {
    a := LeadingSpaces(s);
    var l := s[a..];
    var n := KeptLength(l);
    b := a + n;
    var r := Strip(s);
    assert r == l[..n] == s[a..b];
    forall k | b <= k < |s|
      ensures IsSpace(s[k])
    {
      assert s[k] == l[k - a];
    }
    if r != [] {
      assert r[0] == s[a];
      assert r[|r| - 1] == l[n - 1];
    }
  }

  // ---------------------------------------------------------------------
  // find, rfind and slicing

  /** Python's adjustment of a `start` argument: a negative index counts from
      the end and is clamped at 0; a start past the end is kept (and then
      nothing is found). */
  function NormStart(start: int, len: nat): nat
  {
    if start < 0 then (if start + len < 0 then 0 else start + len) else start
  }

  /** Python's adjustment of an `end` argument (and of both slice bounds):
      negative counts from the end, then clamped to `0..len`. */
  function NormEnd(end: int, len: nat): (r: nat)
    ensures r <= len
  {
    if end < 0 then (if end + len < 0 then 0 else end + len)
    else if end > len then len else end
  }

  ghost predicate OccursAt(s: string, sub: string, i: int)
  {
    0 <= i && i + |sub| <= |s| && s[i..i + |sub|] == sub
  }

  /** The first occurrence of `sub` in `s` that starts at `i` or later and ends
      by `end`, or -1. */
  function FindFrom(s: string, sub: string, i: nat, end: nat): (r: int)
    requires end <= |s|
    ensures r == -1 || (i <= r && r + |sub| <= end && OccursAt(s, sub, r))
    ensures r != -1 ==> forall k :: i <= k < r ==> !OccursAt(s, sub, k)
    ensures r == -1 ==> forall k :: i <= k && k + |sub| <= end ==> !OccursAt(s, sub, k)
    decreases end - i
  {
    if i + |sub| > end then -1
    else if s[i..i + |sub|] == sub then i
    else FindFrom(s, sub, i + 1, end)
  }

  /** `s.find(sub, start)`. */
  function Find(s: string, sub: string, start: int): (r: int)
    ensures r == -1 || (NormStart(start, |s|) <= r && OccursAt(s, sub, r))
    ensures r != -1 ==> forall k :: NormStart(start, |s|) <= k < r ==> !OccursAt(s, sub, k)
    ensures r == -1 ==> forall k :: NormStart(start, |s|) <= k ==> !OccursAt(s, sub, k)
  {
    FindFrom(s, sub, NormStart(start, |s|), |s|)
  }

  /** The last occurrence of `sub` that starts at `lo` or later and at or
      before `k`, or -1. */
  function RFindFrom(s: string, sub: string, lo: nat, k: int, end: nat): (r: int)
    requires end <= |s| && k + |sub| <= end
    ensures r == -1 || (lo <= r <= k && OccursAt(s, sub, r))
    ensures forall j :: r < j <= k && lo <= j ==> !OccursAt(s, sub, j)
    decreases k - lo
  {
    if k < lo then -1
    else if s[k..k + |sub|] == sub then k
    else RFindFrom(s, sub, lo, k - 1, end)
  }

  /** `s.rfind(sub, start, end)`. */
  function RFind(s: string, sub: string, start: int, end: int): (r: int)
    ensures r == -1 || (NormStart(start, |s|) <= r && r + |sub| <= NormEnd(end, |s|) && OccursAt(s, sub, r))
    ensures forall j :: r < j && NormStart(start, |s|) <= j && j + |sub| <= NormEnd(end, |s|) ==> !OccursAt(s, sub, j)
  {
    RFindFrom(s, sub, NormStart(start, |s|), NormEnd(end, |s|) - |sub|, NormEnd(end, |s|))
  }

  /** `s[i:j]`. */
  function Slice(s: string, i: int, j: int): (r: string)
  {
    var lo, hi := NormEnd(i, |s|), NormEnd(j, |s|);
    if lo < hi then s[lo..hi] else []
  }

  /** `c in s`. */
  predicate Contains(s: string, c: char)
  {
    c in s
  }

  // ---------------------------------------------------------------------
  // Comparison of strings: `a < b` in Python compares code points
  // lexicographically, a proper prefix being smaller.

  predicate LexLess(a: string, b: string)
    decreases |a|
  {
    if |a| == 0 then |b| > 0
    else if |b| == 0 then false
    else if a[0] != b[0] then a[0] < b[0]
    else LexLess(a[1..], b[1..])
  }

  lemma {:induction false} LexLessIrreflexive(a: string)
    ensures !LexLess(a, a)
    decreases |a|
  {
    if |a| > 0 { LexLessIrreflexive(a[1..]); }
  }

  lemma {:induction false} LexLessAsymmetric(a: string, b: string)
    requires LexLess(a, b)
    ensures !LexLess(b, a)
    decreases |a|
  {
    if |a| > 0 && |b| > 0 && a[0] == b[0] { LexLessAsymmetric(a[1..], b[1..]); }
  }

  lemma {:induction false} LexLessTransitive(a: string, b: string, c: string)
    requires LexLess(a, b) && LexLess(b, c)
    ensures LexLess(a, c)
    decreases |a|
  {
    if |a| > 0 && a[0] == b[0] && b[0] == c[0] {
      LexLessTransitive(a[1..], b[1..], c[1..]);
    }
  }

  lemma {:induction false} LexLessTotal(a: string, b: string)
    requires a != b
    ensures LexLess(a, b) || LexLess(b, a)
    decreases |a|
  {
    if |a| > 0 && |b| > 0 && a[0] == b[0] {
      assert a == [a[0]] + a[1..] && b == [b[0]] + b[1..];
      LexLessTotal(a[1..], b[1..]);
    }
  }

  // ---------------------------------------------------------------------
  // Decimal digit strings and str(int)

  predicate AllAsciiDigits(s: string)
  {
    forall i :: 0 <= i < |s| ==> IsAsciiDigit(s[i])
  }

  function DigitChar(d: nat): (c: char)
    requires d < 10
    ensures IsAsciiDigit(c) && c as int - '0' as int == d
  {
    ('0' as int + d) as char
  }

  /** The number a string of decimal digits denotes (`int(s)`, 0 for ""). */
  function DigitsValue(s: string): nat
    requires AllAsciiDigits(s)
    decreases |s|
  {
    if |s| == 0 then 0
    else DigitsValue(s[..|s| - 1]) * 10 + (s[|s| - 1] as int - '0' as int)
  }

  /** `str(n)` for a non-negative integer: shortest decimal form. */
  function NatToString(n: nat): (r: string)
    ensures |r| > 0 && AllAsciiDigits(r)
    ensures |r| > 1 ==> r[0] != '0'
    decreases n
  {
    if n < 10 then [DigitChar(n)] else NatToString(n / 10) + [DigitChar(n % 10)]
  }

  /** `str(i)` for any integer. */
  function IntToString(i: int): string
  {
    if i < 0 then "-" + NatToString(-i) else NatToString(i)
  }

  /** `int(str(n)) == n`. */
  lemma {:induction false} NatToStringValue(n: nat)
    ensures DigitsValue(NatToString(n)) == n
    decreases n
  {
    if n >= 10 {
      NatToStringValue(n / 10);
      var r := NatToString(n);
      assert r[..|r| - 1] == NatToString(n / 10);
    }
  }

  function Pow10(n: nat): (r: nat)
    ensures r >= 1
  {
    if n == 0 then 1 else 10 * Pow10(n - 1)
  }

  /** A string of k digits denotes a number below 10^k. */
  lemma {:induction false} DigitsValueBound(s: string)
    requires AllAsciiDigits(s)
    ensures DigitsValue(s) < Pow10(|s|)
    decreases |s|
  {
    if |s| > 0 { DigitsValueBound(s[..|s| - 1]); }
  }
}
