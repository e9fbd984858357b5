/** The four regular expressions of the receipt reader, each written as a
    matcher that answers, for a start position, the length of the text the
    pattern matches there (trying alternatives in the order Python's
    backtracking engine tries them), and `Search`, which is `re.search`: the
    leftmost position where the matcher succeeds.  `\d` is an ASCII digit and
    `\b` a change between `\w` and non-`\w` characters, as classified in
    module Python. */
module Regex {
  import opened Python

  datatype Pattern =
    | DatePattern    // \b\d{1,2}\.\d{1,2}\.\d{4}\b
    | TimePattern    // \b\d{1,2}\:\d{2}(\:\d{2}|)\b
    | VatPattern     // \d{1,2}(\,|\.|)\d{0,2}(\%|\ \%)
    | RotatePattern  // (?<=Rotate: )\d+

  predicate DigitsAt(s: string, i: int, n: nat)
  {
    0 <= i && i + n <= |s| && forall k :: i <= k < i + n ==> IsAsciiDigit(s[k])
  }

  predicate CharAt(s: string, i: int, c: char)
  {
    0 <= i < |s| && s[i] == c
  }

  /** `\b` at position i. */
  predicate WordBoundary(s: string, i: int)
  {
    0 <= i <= |s| && ((i > 0 && IsWordChar(s[i - 1])) != (i < |s| && IsWordChar(s[i])))
  }

  function OrElse(a: Option<nat>, b: Option<nat>): Option<nat>
  {
    if a.Some? then a else b
  }

  // ---------------------------------------------------------------------
  // Date: \b\d{1,2}\.\d{1,2}\.\d{4}\b

  function DateWith(s: string, p: nat, day: nat, month: nat): (r: Option<nat>)
    ensures r.Some? ==> p + r.value <= |s|
  {
    var y := p + day + month + 2;
    if DigitsAt(s, p, day) && CharAt(s, p + day, '.') && DigitsAt(s, p + day + 1, month)
       && CharAt(s, p + day + 1 + month, '.') && DigitsAt(s, y, 4) && WordBoundary(s, y + 4)
    then Some(day + month + 6) else None
  }

  function DateAt(s: string, p: nat): (r: Option<nat>)
    ensures r.Some? ==> p + r.value <= |s|
  {
    if !WordBoundary(s, p) then None
    else OrElse(OrElse(DateWith(s, p, 2, 2), DateWith(s, p, 2, 1)),
                OrElse(DateWith(s, p, 1, 2), DateWith(s, p, 1, 1)))
  }

  // ---------------------------------------------------------------------
  // Time: \b\d{1,2}\:\d{2}(\:\d{2}|)\b  (the seconds alternative first)

  function TimeWith(s: string, p: nat, hours: nat): (r: Option<nat>)
    ensures r.Some? ==> p + r.value <= |s|
  {
    var e := p + hours + 3;
    if DigitsAt(s, p, hours) && CharAt(s, p + hours, ':') && DigitsAt(s, p + hours + 1, 2) then
      if CharAt(s, e, ':') && DigitsAt(s, e + 1, 2) && WordBoundary(s, e + 3) then Some(hours + 6)
      else if WordBoundary(s, e) then Some(hours + 3)
      else None
    else None
  }

  function TimeAt(s: string, p: nat): (r: Option<nat>)
    ensures r.Some? ==> p + r.value <= |s|
  {
    if !WordBoundary(s, p) then None else OrElse(TimeWith(s, p, 2), TimeWith(s, p, 1))
  }

  // ---------------------------------------------------------------------
  // VAT: \d{1,2}(\,|\.|)\d{0,2}(\%|\ \%)

  /** One way of reading a VAT token: the lengths of the integer digits, the
      separator, the fraction digits and the `%` or ` %` tail. */
  datatype VatShape = VatShape(whole: nat, sep: nat, frac: nat, tail: nat)

  function VatLength(sh: VatShape): nat
  {
    sh.whole + sh.sep + sh.frac + sh.tail
  }

  predicate VatFits(s: string, p: nat, sh: VatShape)
  {
    var q := p + sh.whole + sh.sep + sh.frac;
    && 1 <= sh.whole <= 2 && DigitsAt(s, p, sh.whole)
    && sh.sep <= 1 && (sh.sep == 1 ==> CharAt(s, p + sh.whole, ',') || CharAt(s, p + sh.whole, '.'))
    && sh.frac <= 2 && DigitsAt(s, p + sh.whole + sh.sep, sh.frac)
    && ((sh.tail == 1 && CharAt(s, q, '%')) || (sh.tail == 2 && CharAt(s, q, ' ') && CharAt(s, q + 1, '%')))
  }

  /** The readings in the order the engine tries them: two integer digits
      before one, a separator before none (`,` and `.` never both fit), two
      fraction digits before one before none, `%` before ` %`. */
  function VatShapes(): (r: seq<VatShape>)
    ensures |r| == 24
  {
    seq(24, i requires 0 <= i < 24 => VatShape(2 - i / 12, 1 - (i / 6) % 2, 2 - (i / 2) % 3, 1 + i % 2))
  }

  /** VatShapes() lists readings the pattern allows, each one tried before
      all that follow it. */
  lemma VatShapesOrder()
    ensures forall j :: 0 <= j < 24 ==> ShapeInRange(VatShapes()[j])
    ensures forall i, j :: 0 <= i < j < 24 ==> TriedBefore(VatShapes()[i], VatShapes()[j])
  {
    var r := VatShapes();
    forall j | 0 <= j < 24 ensures ShapeInRange(r[j]) {
      ShapeAtRank(j);
    }
    forall i, j | 0 <= i < j < 24 ensures TriedBefore(r[i], r[j]) {
      ShapeAtRank(i);
      ShapeAtRank(j);
      RankOrder(r[i], r[j]);
    }
  }

  /** Reading number i: the tail varies fastest, then the fraction digits,
      then the separator, then the integer digits. */
  function ShapeAt(i: int): VatShape
    requires 0 <= i < 24
  {
    var pairs := i / 2;
    var withFrac := pairs / 3;
    VatShape(2 - withFrac / 2, 1 - withFrac % 2, 2 - pairs % 3, 1 + i % 2)
  }

  lemma ShapeAtRank(i: int)
    requires 0 <= i < 24
    ensures VatShapes()[i] == ShapeAt(i)
    ensures ShapeInRange(ShapeAt(i)) && ShapeRank(ShapeAt(i)) == i
  {
    var pairs := i / 2;
    var withFrac := pairs / 3;
    assert i / 6 == withFrac;
    assert i / 12 == withFrac / 2;
  }

  /** The readings `\d{1,2}[.,]?\d{0,2} ?%` allows. */
  predicate ShapeInRange(sh: VatShape)
  {
    1 <= sh.whole <= 2 && sh.sep <= 1 && sh.frac <= 2 && 1 <= sh.tail <= 2
  }

  /** The engine tries `a` before `b`: greedy counts first, more integer
      digits, then a separator, then more fraction digits, then the
      shorter tail. */
  predicate TriedBefore(a: VatShape, b: VatShape)
  {
    || a.whole > b.whole
    || (a.whole == b.whole && a.sep > b.sep)
    || (a.whole == b.whole && a.sep == b.sep && a.frac > b.frac)
    || (a.whole == b.whole && a.sep == b.sep && a.frac == b.frac && a.tail < b.tail)
  }

  function ShapeRank(sh: VatShape): int
  {
    (2 - sh.whole) * 12 + (1 - sh.sep) * 6 + (2 - sh.frac) * 2 + (sh.tail - 1)
  }

  lemma RankOrder(a: VatShape, b: VatShape)
    requires ShapeInRange(a) && ShapeInRange(b) && ShapeRank(a) < ShapeRank(b)
    ensures TriedBefore(a, b)
  {
  }

  /** The first reading, from index i of VatShapes() on, that fits at p. */
  function VatFirstFit(s: string, p: nat, i: nat): (r: Option<VatShape>)
    requires i <= 24
    ensures r.Some? ==> VatFits(s, p, r.value)
    ensures r.None? ==> forall j :: i <= j < 24 ==> !VatFits(s, p, VatShapes()[j])
    decreases 24 - i
  {
    if i == 24 then None
    else if VatFits(s, p, VatShapes()[i]) then Some(VatShapes()[i])
    else VatFirstFit(s, p, i + 1)
  }

  /** VatFirstFit finds the first reading from index i on that fits: every
      reading tried before it does not fit. */
  lemma VatFirstFitIsFirst(s: string, p: nat, i: nat)
    requires i <= 24
    ensures var r := VatFirstFit(s, p, i);
            r.Some? ==> exists j :: i <= j < 24 && r.value == VatShapes()[j]
                                  && forall k :: i <= k < j ==> !VatFits(s, p, VatShapes()[k])
  {
    var j := VatFirstFitIndex(s, p, i);
  }

  /** The index of the reading VatFirstFit finds. */
  lemma {:induction false} VatFirstFitIndex(s: string, p: nat, i: nat) returns (j: nat)
    requires i <= 24
    ensures var r := VatFirstFit(s, p, i);
            r.Some? ==> i <= j < 24 && r.value == VatShapes()[j]
                        && forall k :: i <= k < j ==> !VatFits(s, p, VatShapes()[k])
    decreases 24 - i
  {
    j := i;
    if i < 24 {
      var here := VatShapes()[i];
      if !VatFits(s, p, here) {
        j := VatFirstFitIndex(s, p, i + 1);
        assert VatFirstFit(s, p, i) == VatFirstFit(s, p, i + 1);
        if VatFirstFit(s, p, i).Some? {
          forall k | i <= k < j ensures !VatFits(s, p, VatShapes()[k]) {
            if k == i { assert VatShapes()[k] == here; }
          }
        }
      }
    }
  }

  function VatAt(s: string, p: nat): (r: Option<nat>)
    ensures r.Some? ==> p + r.value <= |s|
  {
    var sh := VatFirstFit(s, p, 0);
    if sh.Some? then Some(VatLength(sh.value)) else None
  }

  // ---------------------------------------------------------------------
  // Rotation: (?<=Rotate: )\d+

  /** The length of the run of ASCII digits starting at i. */
  function DigitRun(s: string, i: nat): (n: nat)
    requires i <= |s|
    ensures i + n <= |s| && DigitsAt(s, i, n)
    ensures i + n == |s| || !IsAsciiDigit(s[i + n])
    decreases |s| - i
  {
    if i < |s| && IsAsciiDigit(s[i]) then 1 + DigitRun(s, i + 1) else 0
  }

  function RotateAt(s: string, p: nat): (r: Option<nat>)
    ensures r.Some? ==> p + r.value <= |s|
  {
    if 8 <= p < |s| && s[p - 8..p] == "Rotate: " && IsAsciiDigit(s[p]) then Some(DigitRun(s, p))
    else None
  }

  // ---------------------------------------------------------------------

  /** The length of the match of `pat` starting at p, if there is one. */
  function MatchAt(pat: Pattern, s: string, p: nat): (r: Option<nat>)
    ensures r.Some? ==> p + r.value <= |s|
  {
    match pat
    case DatePattern => DateAt(s, p)
    case TimePattern => TimeAt(s, p)
    case VatPattern => VatAt(s, p)
    case RotatePattern => RotateAt(s, p)
  }

  ghost predicate IsFirstMatch(pat: Pattern, s: string, p: nat)
  {
    p <= |s| && MatchAt(pat, s, p).Some? && forall q :: 0 <= q < p ==> MatchAt(pat, s, q).None?
  }

  /** `re.search(pat, s)` scanning from position `from`: the leftmost match. */
  function Search(pat: Pattern, s: string, from: nat): (r: Option<nat>)
    requires from <= |s|
    ensures r.Some? ==> from <= r.value <= |s| && MatchAt(pat, s, r.value).Some?
    ensures r.Some? ==> forall q :: from <= q < r.value ==> MatchAt(pat, s, q).None?
    ensures r.None? ==> forall q :: from <= q <= |s| ==> MatchAt(pat, s, q).None?
    decreases |s| - from
  {
    if MatchAt(pat, s, from).Some? then Some(from)
    else if from == |s| then None
    else Search(pat, s, from + 1)
  }

  /** `match.group()` of a match at p. */
  function Token(pat: Pattern, s: string, p: nat): string
    requires p <= |s| && MatchAt(pat, s, p).Some?
  {
    s[p..p + MatchAt(pat, s, p).value]
  }

  /** The outcome of `re.search` from the start: exactly the leftmost match. */
  lemma SearchIsFirstMatch(pat: Pattern, s: string)
    ensures Search(pat, s, 0).Some? <==> exists p :: 0 <= p <= |s| && MatchAt(pat, s, p).Some?
    ensures Search(pat, s, 0).Some? ==> IsFirstMatch(pat, s, Search(pat, s, 0).value)
  {
  }
}
