/** The VAT part of `detect_text_from_img`: for each VAT keyword, a
    `while words_found` loop that visits the first occurrence of the keyword
    on each line of `text.lower()` (the search resumes at that line's end),
    reads a percentage from the occurrence's line and keeps it according to
    the comparison the code makes.

    The loop is specified by `Run`, its first n iterations of the step
    function `VatStep` on the state (position, vat); the method
    `ScanVatKeyword` is proved to end exactly as those runs do, including
    the case where the position never advances and Python loops forever. */
module Vat {
  import opened Python
  import opened Regex
  import opened Numbers
  import opened Extractor

  /** The keywords the loop searches for: non-empty, not starting with a
      newline. */
  predicate IsKeyword(kw: string)
  {
    |kw| > 0 && kw[0] != '\n'
  }

  // ---------------------------------------------------------------------
  // One occurrence

  /** `vat_text` for the hit at `index`: the stripped line, or, when that line
      holds a `%`, the stripped text from the line start up to and including
      the hit's first character. */
  function PercentText(text: string, index: nat): string
  {
    var line := LineText(text, index);
    if Contains(line, '%') then Strip(Slice(text, LineStart(text, index), index + 1)) else line
  }

  lemma StripKeepsLastChar(x: string)
    requires |x| > 0 && !IsSpace(x[|x| - 1])
    ensures Strip(x) != [] && Strip(x)[|Strip(x)| - 1] == x[|x| - 1]
  {
    var a := LeadingSpaces(x);
    var y := StripLeft(x);
    assert y[|y| - 1] == x[|x| - 1];
    assert StripRight(y) == y;
  }

  /** When the line holds a `%`, the narrowed text ends with the hit's first
      character: everything after the keyword's first character is cut. */
  lemma NarrowedTextEndsAtHit(text: string, index: nat)
    requires index < |text| && !IsSpace(text[index]) && Contains(LineText(text, index), '%')
    ensures var n := PercentText(text, index); n != [] && n[|n| - 1] == text[index]
  {
    var ls := LineStart(text, index);
    assert PercentText(text, index) == Strip(Slice(text, ls, index + 1));
    LineStartBounds(text, index);
    NarrowedEndsAt(text, ls, index);
  }

  /** Stripping the slice `[ls:index + 1]` keeps its last character when
      that is not white space. */
  lemma NarrowedEndsAt(text: string, ls: int, index: nat)
    requires 0 <= ls <= index < |text| && !IsSpace(text[index])
    ensures var n := Strip(Slice(text, ls, index + 1)); n != [] && n[|n| - 1] == text[index]
  {
    var x := text[ls..index + 1];
    assert Slice(text, ls, index + 1) == x;
    StripKeepsLastChar(x);
  }

  /** A number text `<w digits><sep separators><f digits>` as the VAT
      pattern admits it. */
  predicate VatNumberShape(core: string, w: nat, sep: nat, f: nat)
  {
    && 1 <= w <= 2 && sep <= 1 && f <= 2 && |core| == w + sep + f
    && forall k :: 0 <= k < |core| ==>
         if sep == 1 && k == w then IsSeparator(core[k]) else IsAsciiDigit(core[k])
  }

  lemma VatNumberValid(core: string, w: nat, sep: nat, f: nat)
    requires VatNumberShape(core, w, sep, f)
    ensures AllNumeric(core) && ValidNumber(core)
  {
    assert AllNumeric(core) by {
      forall k | 0 <= k < |core| ensures IsNumericChar(core[k]) {
        if sep == 1 && k == w { } else { }
      }
    }
    assert IsAsciiDigit(core[0]);
    forall k | 0 <= k < |core| ensures !IsSuperscriptDigit(core[k]) {
      if sep == 1 && k == w { } else { }
    }
    forall i, j | 0 <= i < j < |core| && IsSeparator(core[i]) ensures !IsSeparator(core[j]) {
      assert sep == 1 && i == w;
      assert IsAsciiDigit(core[j]);
    }
  }

  /** How `str_to_float` splits such a text: at the separator, if any. */
  lemma VatNumberSplit(core: string, w: nat, sep: nat, f: nat)
    requires VatNumberShape(core, w, sep, f) && AllNumeric(core) && StrToFloat(core).Ok?
    ensures var d := StrToFloat(core).value;
            |d.whole| == (if sep == 1 then w else w + f) && |d.frac| == (if sep == 1 then f else 0)
  {
    if sep == 1 {
      SplitWithSeparator(core, w, f);
    } else {
      SplitWithoutSeparator(core, w, f);
    }
  }

  lemma SplitWithSeparator(core: string, w: nat, f: nat)
    requires VatNumberShape(core, w, 1, f) && AllNumeric(core) && StrToFloat(core).Ok?
    ensures |StrToFloat(core).value.whole| == w && |StrToFloat(core).value.frac| == f
  {
    var d := StrToFloat(core).value;
    var t := ReplaceCommas(core);
    assert t[w] == '.';
    PointSplit(t, w);
    assert AllAsciiDigits(t[..w]) by {
      forall k | 0 <= k < w ensures IsAsciiDigit(t[..w][k]) { assert t[..w][k] == t[k]; }
    }
    assert !AllAsciiDigits(t);
    SplitAtPoint(t[..w], t[w + 1..], d.whole, d.frac);
  }

  lemma SplitWithoutSeparator(core: string, w: nat, f: nat)
    requires VatNumberShape(core, w, 0, f) && AllNumeric(core) && StrToFloat(core).Ok?
    ensures |StrToFloat(core).value.whole| == w + f && StrToFloat(core).value.frac == ""
  {
    var d := StrToFloat(core).value;
    var t := ReplaceCommas(core);
    assert AllAsciiDigits(t) by {
      forall k | 0 <= k < |t| ensures IsAsciiDigit(t[k]) { assert t[k] == core[k]; }
    }
    DigitsHaveNoPoint(t, d.whole, d.frac);
  }

  /** A digit string is not a text with a point. */
  lemma DigitsHaveNoPoint(t: string, u: string, c: string)
    requires AllAsciiDigits(t)
    ensures t != u + "." + c
  {
    assert (u + "." + c)[|u|] == '.';
  }

  lemma VatNumberParses(core: string, w: nat, sep: nat, f: nat)
    requires VatNumberShape(core, w, sep, f)
    ensures AllNumeric(core)
    ensures StrToFloat(core).Ok?
    ensures var d := StrToFloat(core).value;
            1 <= |d.whole| <= 4 && |d.frac| <= 2 && DigitsValue(d.whole) < 10000
  {
    VatNumberValid(core, w, sep, f);
    VatNumberSplit(core, w, sep, f);
    var d := StrToFloat(core).value;
    DigitsValueBound(d.whole);
    assert Pow10(|d.whole|) <= 10000 by {
      assert Pow10(1) == 10 && Pow10(2) == 100 && Pow10(3) == 1000 && Pow10(4) == 10000;
    }
  }

  lemma VatFitShape(s: string, p: nat, sh: VatShape)
    requires VatFits(s, p, sh)
    ensures VatNumberShape(s[p..p + sh.whole + sh.sep + sh.frac], sh.whole, sh.sep, sh.frac)
  {
    var core := s[p..p + sh.whole + sh.sep + sh.frac];
    forall k | 0 <= k < |core|
      ensures if sh.sep == 1 && k == sh.whole then IsSeparator(core[k]) else IsAsciiDigit(core[k])
    {
      assert core[k] == s[p + k];
    }
  }

  lemma TailKeepsNothing(tail: string)
    requires tail == "%" || tail == " %"
    ensures KeepNumeric(tail) == []
  {
    if tail == "%" {
      assert tail[..0] == [];
    } else {
      assert tail[..1] == " " && tail[..1][..0] == [];
    }
  }

  /** The tail of a fitting VAT reading is `%` or ` %`. */
  lemma VatFitTail(s: string, p: nat, sh: VatShape)
    requires VatFits(s, p, sh)
    ensures p + VatLength(sh) <= |s|
    ensures var n := sh.whole + sh.sep + sh.frac;
            s[p + n..p + VatLength(sh)] == "%" || s[p + n..p + VatLength(sh)] == " %"
  {
    var n := sh.whole + sh.sep + sh.frac;
    var tail := s[p + n..p + VatLength(sh)];
    if sh.tail == 1 { assert tail == [s[p + n]]; } else { assert tail == [s[p + n], s[p + n + 1]]; }
  }

  /** The digits and separator kept from a text a VAT reading fits: the
      text without its `%` or ` %` tail. */
  lemma VatFitDigits(s: string, p: nat, sh: VatShape)
    requires VatFits(s, p, sh)
    ensures p + VatLength(sh) <= |s|
    ensures var core := KeepNumeric(s[p..p + VatLength(sh)]);
            core == s[p..p + sh.whole + sh.sep + sh.frac]
            && VatNumberShape(core, sh.whole, sh.sep, sh.frac)
  {
    var n := sh.whole + sh.sep + sh.frac;
    VatFitTail(s, p, sh);
    var core, tail := s[p..p + n], s[p + n..p + VatLength(sh)];
    assert s[p..p + VatLength(sh)] == core + tail;
    TailKeepsNothing(tail);
    KeepNumericAppend(core, tail);
    VatFitShape(s, p, sh);
    VatNumberValid(core, sh.whole, sh.sep, sh.frac);
    KeepNumericOfNumeric(core);
    calc {
      KeepNumeric(s[p..p + VatLength(sh)]);
      KeepNumeric(core + tail);
      KeepNumeric(core) + KeepNumeric(tail);
      core;
    }
  }

  /** The matched VAT token, of the form `<1-2 digits><separator?><0-2
      digits>%`, always parses: `str_to_float` cannot raise here, and the
      number has at most four digits and at most two fraction digits. */
  lemma VatTokenParses(s: string, p: nat)
    requires p <= |s| && MatchAt(VatPattern, s, p).Some?
    ensures StrToFloat(KeepNumeric(Token(VatPattern, s, p))).Ok?
    ensures var d := StrToFloat(KeepNumeric(Token(VatPattern, s, p))).value;
            1 <= |d.whole| <= 4 && |d.frac| <= 2 && DigitsValue(d.whole) < 10000
  {
    var sh := VatFirstFit(s, p, 0).value;
    assert Token(VatPattern, s, p) == s[p..p + VatLength(sh)];
    VatFitDigits(s, p, sh);
    VatNumberParses(KeepNumeric(Token(VatPattern, s, p)), sh.whole, sh.sep, sh.frac);
  }

  /** `v` reads back as exactly the number of the VAT token matched at `p`
      in `s`, a value below 10000. */
  predicate ReadsAsToken(s: string, p: nat, v: string)
    requires p <= |s| && MatchAt(VatPattern, s, p).Some?
  {
    VatTokenParses(s, p);
    var d := StrToFloat(KeepNumeric(Token(VatPattern, s, p))).value;
    ReadsAs(v, ExactFixed(d)) && ExactFixed(d).units < 10000
  }

  /** `v` reads back as exactly the number of the first VAT token of `t`. */
  predicate ReadsAsFirstToken(t: string, v: string)
  {
    var m := Search(VatPattern, t, 0);
    m.Some? && ReadsAsToken(t, m.value, v)
  }

  /** What the hit at `index` yields: the formatted first VAT token of its
      text, or nothing when the text holds none. */
  function VatCandidate(text: string, index: nat, round: Rounder): (r: Option<string>)
    ensures r.Some? <==> exists p :: 0 <= p <= |PercentText(text, index)|
                                     && MatchAt(VatPattern, PercentText(text, index), p).Some?
    ensures r.Some? ==> TwoFractionDigits(r.value)
  {
    var t := PercentText(text, index);
    SearchIsFirstMatch(VatPattern, t);
    var m := Search(VatPattern, t, 0);
    if m.None? then None
    else
      VatTokenParses(t, m.value);
      Some(Format2(StrToFloat(KeepNumeric(Token(VatPattern, t, m.value))).value, round))
  }

  /** The candidate's value: it reads back as exactly the number of the
      first VAT token of the hit's text, a value below 10000. */
  lemma VatCandidateValue(text: string, index: nat, round: Rounder)
    ensures var r := VatCandidate(text, index, round);
            r.Some? ==> ReadsAsFirstToken(PercentText(text, index), r.value)
  {
    var t := PercentText(text, index);
    var m := Search(VatPattern, t, 0);
    if m.Some? {
      VatTokenParses(t, m.value);
      FormatReadsBack(StrToFloat(KeepNumeric(Token(VatPattern, t, m.value))).value, round);
    }
  }

  /** The VAT update: the first read is taken; after that the read
      replaces the VAT so far when `formatted_price`, the last price the
      price loop formatted, sorts after it.  When no price was formatted
      that name is unbound and the comparison raises. */
  function VatUpdate(vat: Option<string>, formattedVat: string, formattedPrice: Option<string>): (r: Result<Option<string>>)
    ensures r.Raise? <==> vat.Some? && formattedPrice.None?
    ensures r.Raise? ==> r.error == UnboundLocalError
    ensures r.Ok? ==> r.value == vat || r.value == Some(formattedVat)
    ensures r.Ok? && r.value != vat ==> vat.None? || LexLess(vat.value, formattedPrice.value)
    ensures vat.None? ==> r == Ok(Some(formattedVat))
    ensures vat.Some? && formattedPrice.Some? ==>
              && (LexLess(vat.value, formattedPrice.value) ==> r == Ok(Some(formattedVat)))
              && (!LexLess(vat.value, formattedPrice.value) ==> r == Ok(vat))
  {
    if vat.None? then Ok(Some(formattedVat))
    else if formattedPrice.None? then Raise(UnboundLocalError)
    else if LexLess(vat.value, formattedPrice.value) then Ok(Some(formattedVat))
    else Ok(vat)
  }

  /** The update does not compare the VAT read against the kept one: a
      larger rate read after 14.00 is dropped when the last price sorts
      before 14.00, and a smaller one replaces 24.00 when the price sorts
      after it. */
  lemma VatUpdateIgnoresRead()
    ensures VatUpdate(Some("14.00"), "24.00", Some("10.00")) == Ok(Some("14.00"))
    ensures VatUpdate(Some("24.00"), "14.00", Some("50.00")) == Ok(Some("14.00"))
  {
    assert LexLess("24.00", "50.00") by { assert "24.00"[0] < "50.00"[0]; }
    assert !LexLess("14.00", "10.00") by {
      assert "14.00"[1..] == "4.00" && "10.00"[1..] == "0.00";
      assert !LexLess("4.00", "0.00");
    }
  }

  // ---------------------------------------------------------------------
  // The loop over the occurrences of one keyword

  /** The loop variables `position` and `result["vat"]`. */
  datatype ScanState = ScanState(position: int, vat: Option<string>)

  /** Where one iteration leaves the loop: still running, ended by
      `words_found = False`, or ended by an exception. */
  datatype Step = Running(state: ScanState) | Stopped(vat: Option<string>) | Failed(error: PyError)

  /** One iteration of `while words_found` for keyword `kw`, with
      `formattedPrice` the value `formatted_price` was left with. */
  function VatStep(text: string, kw: string, formattedPrice: Option<string>, round: Rounder, s: ScanState): Step
  {
    var index := Find(Lower(text), kw, s.position);
    if index == -1 then Stopped(s.vat)
    else
      var next := LineEnd(text, index);
      match VatCandidate(text, index, round)
      case None => Running(ScanState(next, s.vat))
      case Some(fv) =>
        match VatUpdate(s.vat, fv, formattedPrice)
        case Raise(e) => Failed(e)
        case Ok(v) => Running(ScanState(next, v))
  }

  /** The iteration one call of `VatStep` performs, as a value. */
  function StepOf(text: string, kw: string, formattedPrice: Option<string>, round: Rounder): ScanState -> Step
  {
    s => VatStep(text, kw, formattedPrice, round, s)
  }

  /** Where a loop with iteration `step` is after n iterations from `s0`. */
  function Run(n: nat, step: ScanState -> Step, s0: ScanState): Step
  {
    if n == 0 then Running(s0)
    else
      match Run(n - 1, step, s0)
      case Running(t) => step(t)
      case other => other
  }

  /** Once the loop has ended it stays ended. */
  lemma {:induction false} RunEnded(n: nat, m: nat, step: ScanState -> Step, s0: ScanState)
    requires n <= m && !Run(n, step, s0).Running?
    ensures Run(m, step, s0) == Run(n, step, s0)
    decreases m
  {
    if m > n { RunEnded(n, m - 1, step, s0); }
  }

  /** A state that one iteration leaves unchanged is kept for ever. */
  lemma {:induction false} RunStuckAt(n: nat, m: nat, step: ScanState -> Step, s0: ScanState, s: ScanState)
    requires n <= m && Run(n, step, s0) == Running(s) && step(s) == Running(s)
    ensures Run(m, step, s0) == Running(s)
    decreases m
  {
    if m > n { RunStuckAt(n, m - 1, step, s0, s); }
  }

  /** ... so the loop then never ends. */
  lemma RunStuck(n: nat, step: ScanState -> Step, s0: ScanState, s: ScanState)
    requires Run(n, step, s0) == Running(s) && step(s) == Running(s)
    ensures forall m: nat :: Run(m, step, s0).Running?
  {
    forall m: nat ensures Run(m, step, s0).Running? {
      if m < n {
        if !Run(m, step, s0).Running? { RunEnded(m, n, step, s0); }
      } else {
        RunStuckAt(n, m, step, s0, s);
      }
    }
  }

  /** How a loop ends: `Returned(vat)` when some iteration sets
      `words_found = False`, `Raised(e)` when one raises, `Diverges` when
      every iteration leaves it running. */
  ghost predicate Ends(step: ScanState -> Step, s0: ScanState, out: Outcome<Option<string>>)
  {
    match out
    case Returned(v) => exists n: nat :: Run(n, step, s0) == Stopped(v)
    case Raised(e) => exists n: nat :: Run(n, step, s0) == Failed(e)
    case Diverges => forall n: nat :: Run(n, step, s0).Running?
  }

  /** The loop is deterministic: it ends in one way only. */
  lemma EndsUnique(step: ScanState -> Step, s0: ScanState, out1: Outcome<Option<string>>, out2: Outcome<Option<string>>)
    requires Ends(step, s0, out1) && Ends(step, s0, out2)
    ensures out1 == out2
  {
    if !out1.Diverges? && !out2.Diverges? {
      var n1: nat :| Run(n1, step, s0) == (if out1.Returned? then Stopped(out1.value) else Failed(out1.error));
      var n2: nat :| Run(n2, step, s0) == (if out2.Returned? then Stopped(out2.value) else Failed(out2.error));
      if n1 <= n2 { RunEnded(n1, n2, step, s0); } else { RunEnded(n2, n1, step, s0); }
    }
  }

  /** The `while words_found` loop for keyword `kw`, started with
      `position = 0` and the VAT kept so far. */
  ghost predicate VatLoopEnds(text: string, kw: string, formattedPrice: Option<string>, round: Rounder,
                              vat0: Option<string>, out: Outcome<Option<string>>)
  {
    Ends(StepOf(text, kw, formattedPrice, round), ScanState(0, vat0), out)
  }

  // ---------------------------------------------------------------------
  // Progress of one iteration

  /** An iteration that keeps running found a hit and moved `position` to
      the end of the hit's line. */
  lemma VatStepRunning(text: string, kw: string, formattedPrice: Option<string>, round: Rounder, s: ScanState, s': ScanState)
    requires VatStep(text, kw, formattedPrice, round, s) == Running(s')
    ensures Find(Lower(text), kw, s.position) != -1
    ensures s'.position == LineEnd(text, Find(Lower(text), kw, s.position))
  {
  }

  /** Searching again from the end of a hit's line: the new start is past
      the old one, or -1 when no newline follows.  With the old start at
      the last character and no newline after it, the hit is the keyword's
      first character there, which needs a one-character keyword. */
  lemma HitProgress(text: string, kw: string, position: int, next: int)
    requires IsKeyword(kw) && Find(Lower(text), kw, position) != -1
    requires next == LineEnd(text, Find(Lower(text), kw, position))
    ensures NormStart(position, |text|) < |text|
    ensures next == -1 || (NormStart(position, |text|) < next < |text| && text[next] == '\n')
    ensures next == -1 && NormStart(position, |text|) == |text| - 1
            ==> |kw| == 1 && LowerChar(text[|text| - 1]) == kw[0]
  {
    var index := Find(Lower(text), kw, position);
    KeywordHit(text, kw, position);
    LineEndBounds(text, index);
  }

  /** An iteration that keeps running moves `position` to the newline ending
      the hit's line, past the position it searched from, or to -1 when no
      newline follows. */
  lemma VatStepProgress(text: string, kw: string, formattedPrice: Option<string>, round: Rounder, s: ScanState, s': ScanState)
    requires IsKeyword(kw) && VatStep(text, kw, formattedPrice, round, s) == Running(s')
    ensures NormStart(s.position, |text|) < |text|
    ensures s'.position == -1 || (NormStart(s.position, |text|) < s'.position < |text| && text[s'.position] == '\n')
    ensures s'.position == -1 && NormStart(s.position, |text|) == |text| - 1
            ==> |kw| == 1 && LowerChar(text[|text| - 1]) == kw[0]
  {
    VatStepRunning(text, kw, formattedPrice, round, s, s');
    HitProgress(text, kw, s.position, s'.position);
  }

  /** What the hit at the current position still offers to the VAT field:
      2 while the field is empty, 1 while the hit's value differs from it,
      0 otherwise.  It decreases when the loop rereads the same hit. */
  ghost function VatRank(text: string, kw: string, round: Rounder, s: ScanState): nat
  {
    var index := Find(Lower(text), kw, s.position);
    if index == -1 then 0
    else
      match VatCandidate(text, index, round)
      case None => 0
      case Some(fv) => if s.vat.None? then 2 else if s.vat == Some(fv) then 0 else 1
  }

  /** Positions the loop can be at: -1 or an index up to the text's length. */
  predicate PositionOk(text: string, position: int)
  {
    position == -1 || 0 <= position <= |text|
  }

  /** An iteration that changes the state either moves the search start
      forward, or moves `position` from a start at the last character to
      -1 (the same start), or, at -1, takes the hit's value into the field. */
  lemma VatStepDecreases(text: string, kw: string, formattedPrice: Option<string>, round: Rounder, s: ScanState, s': ScanState)
    requires IsKeyword(kw) && PositionOk(text, s.position)
    requires VatStep(text, kw, formattedPrice, round, s) == Running(s') && s' != s
    ensures PositionOk(text, s'.position)
    ensures || NormStart(s'.position, |text|) > NormStart(s.position, |text|)
            || (NormStart(s'.position, |text|) == NormStart(s.position, |text|) && s.position != -1 && s'.position == -1)
            || (s.position == -1 && s'.position == -1
                && VatRank(text, kw, round, s') < VatRank(text, kw, round, s))
  {
    VatStepProgress(text, kw, formattedPrice, round, s, s');
  }

  /** An iteration can leave the state unchanged only for the keyword `%`,
      at the end of a text whose last character is `%`. */
  lemma VatFixedPoint(text: string, kw: string, formattedPrice: Option<string>, round: Rounder, s: ScanState)
    requires kw in VatKeywords && VatStep(text, kw, formattedPrice, round, s) == Running(s)
    ensures kw == "%" && |text| > 0 && text[|text| - 1] == '%' && s.position == -1
  {
    VatStepProgress(text, kw, formattedPrice, round, s, s);
    assert s.position == -1;
    assert |kw| == 1;
    var c := text[|text| - 1];
    assert kw == "%";
    assert LowerChar(c) == '%';
    assert !IsUpper(c);
  }

  /** An iteration stops only when no hit is left, and then with the VAT
      field as it was. */
  lemma VatStepStops(text: string, kw: string, formattedPrice: Option<string>, round: Rounder, s: ScanState)
    requires VatStep(text, kw, formattedPrice, round, s).Stopped?
    ensures Find(Lower(text), kw, s.position) == -1
    ensures VatStep(text, kw, formattedPrice, round, s).vat == s.vat
  {
  }

  /** An iteration raises only when comparing against a `formatted_price`
      that was never assigned. */
  lemma VatStepFails(text: string, kw: string, formattedPrice: Option<string>, round: Rounder, s: ScanState)
    requires VatStep(text, kw, formattedPrice, round, s).Failed?
    ensures formattedPrice.None? && s.vat.Some?
    ensures VatStep(text, kw, formattedPrice, round, s).error == UnboundLocalError
  {
  }

  /** An iteration keeps the VAT field empty or formatted. */
  lemma VatStepKeepsFormatted(text: string, kw: string, formattedPrice: Option<string>, round: Rounder, s: ScanState)
    requires VatStep(text, kw, formattedPrice, round, s).Running? && FormattedOrNone(s.vat)
    ensures FormattedOrNone(VatStep(text, kw, formattedPrice, round, s).state.vat)
  {
    var index := Find(Lower(text), kw, s.position);
    var c := VatCandidate(text, index, round);
    if c.Some? {
      var u := VatUpdate(s.vat, c.value, formattedPrice);
      assert u.Ok? && (u.value == s.vat || u.value == c);
    }
  }

  /** Once a price was formatted, the loop never raises. */
  lemma {:induction false} PricedLoopNeverRaises(n: nat, text: string, kw: string, formattedPrice: Option<string>, round: Rounder, vat0: Option<string>)
    requires formattedPrice.Some?
    ensures !Run(n, StepOf(text, kw, formattedPrice, round), ScanState(0, vat0)).Failed?
  {
    if n > 0 {
      PricedLoopNeverRaises(n - 1, text, kw, formattedPrice, round, vat0);
      var r := Run(n - 1, StepOf(text, kw, formattedPrice, round), ScanState(0, vat0));
      if r.Running? && VatStep(text, kw, formattedPrice, round, r.state).Failed? {
        VatStepFails(text, kw, formattedPrice, round, r.state);
      }
    }
  }

  /** With a text ending in `%`, an iteration of the `%` loop that starts
      searching at or before the last character finds a hit, and does not
      move the start past the last character. */
  lemma PercentEndStep(text: string, formattedPrice: Option<string>, round: Rounder, t: ScanState)
    requires |text| > 0 && text[|text| - 1] == '%' && NormStart(t.position, |text|) <= |text| - 1
    ensures var r := VatStep(text, "%", formattedPrice, round, t);
            r.Failed? || (r.Running? && NormStart(r.state.position, |text|) <= |text| - 1)
  {
    var last := |text| - 1;
    assert OccursAt(Lower(text), "%", last) by {
      assert Lower(text)[last..last + 1] == [LowerChar(text[last])];
    }
    assert Find(Lower(text), "%", t.position) != -1;
    var r := VatStep(text, "%", formattedPrice, round, t);
    if r.Running? {
      VatStepRunning(text, "%", formattedPrice, round, t, r.state);
      HitProgress(text, "%", t.position, r.state.position);
    }
  }

  /** ... so the `%` loop keeps hitting for ever, unless it raises. */
  lemma {:induction false} PercentEndKeepsHitting(n: nat, text: string, formattedPrice: Option<string>, round: Rounder, vat0: Option<string>)
    requires |text| > 0 && text[|text| - 1] == '%'
    ensures var r := Run(n, StepOf(text, "%", formattedPrice, round), ScanState(0, vat0));
            r.Failed? || (r.Running? && NormStart(r.state.position, |text|) <= |text| - 1)
  {
    if n > 0 {
      var step := StepOf(text, "%", formattedPrice, round);
      PercentEndKeepsHitting(n - 1, text, formattedPrice, round, vat0);
      var r := Run(n - 1, step, ScanState(0, vat0));
      if r.Running? {
        PercentEndStep(text, formattedPrice, round, r.state);
        assert Run(n, step, ScanState(0, vat0)) == VatStep(text, "%", formattedPrice, round, r.state);
      } else {
        assert Run(n, step, ScanState(0, vat0)) == r;
      }
    }
  }

  /** The `%` loop over a text whose last character is `%` never finishes:
      it raises, or, when a price was formatted, runs for ever. */
  lemma PercentEndNeverStops(text: string, formattedPrice: Option<string>, round: Rounder, vat0: Option<string>)
    requires |text| > 0 && text[|text| - 1] == '%'
    ensures forall v :: !VatLoopEnds(text, "%", formattedPrice, round, vat0, Returned(v))
    ensures formattedPrice.Some? ==> VatLoopEnds(text, "%", formattedPrice, round, vat0, Diverges)
  {
    var step := StepOf(text, "%", formattedPrice, round);
    var s0 := ScanState(0, vat0);
    forall n: nat ensures !Run(n, step, s0).Stopped? {
      PercentEndKeepsHitting(n, text, formattedPrice, round, vat0);
    }
    if formattedPrice.Some? {
      forall n: nat ensures Run(n, step, s0).Running? {
        PercentEndKeepsHitting(n, text, formattedPrice, round, vat0);
        PricedLoopNeverRaises(n, text, "%", formattedPrice, round, vat0);
      }
    }
  }

  // ---------------------------------------------------------------------
  // The loop

  /** What the loop needs to know about how one iteration ends: a stop
      keeps the field, a failure is the unassigned `formatted_price`, and
      a running iteration keeps the field formatted. */
  lemma VatIterationEnds(text: string, kw: string, formattedPrice: Option<string>, round: Rounder, s: ScanState, r: Step)
    requires r == VatStep(text, kw, formattedPrice, round, s)
    ensures r.Stopped? ==> r.vat == s.vat
    ensures r.Failed? ==> formattedPrice.None? && r.error == UnboundLocalError
    ensures r.Running? && FormattedOrNone(s.vat) ==> FormattedOrNone(r.state.vat)
  {
    if r.Stopped? {
      VatStepStops(text, kw, formattedPrice, round, s);
    } else if r.Failed? {
      VatStepFails(text, kw, formattedPrice, round, s);
    } else if FormattedOrNone(s.vat) {
      VatStepKeepsFormatted(text, kw, formattedPrice, round, s);
    }
  }

  /** What the loop needs to know about a running iteration: it makes
      progress unless it is stuck for ever at a final `%`. */
  lemma VatIterationMoves(text: string, kw: string, formattedPrice: Option<string>, round: Rounder, s: ScanState, r: Step)
    requires kw in VatKeywords && PositionOk(text, s.position)
    requires r == VatStep(text, kw, formattedPrice, round, s) && r.Running?
    ensures r.state == s ==> kw == "%" && |text| > 0 && text[|text| - 1] == '%'
    ensures r.state != s ==>
            && PositionOk(text, r.state.position)
            && (|| NormStart(r.state.position, |text|) > NormStart(s.position, |text|)
                || (NormStart(r.state.position, |text|) == NormStart(s.position, |text|)
                    && s.position != -1 && r.state.position == -1)
                || (s.position == -1 && r.state.position == -1
                    && VatRank(text, kw, round, r.state) < VatRank(text, kw, round, s)))
  {
    if r.state == s {
      VatFixedPoint(text, kw, formattedPrice, round, s);
    } else {
      VatStepDecreases(text, kw, formattedPrice, round, s, r.state);
    }
  }

  lemma EndsReturned(n: nat, step: ScanState -> Step, s0: ScanState, v: Option<string>)
    requires Run(n, step, s0) == Stopped(v)
    ensures Ends(step, s0, Returned(v))
  {
  }

  lemma EndsRaised(n: nat, step: ScanState -> Step, s0: ScanState, e: PyError)
    requires Run(n, step, s0) == Failed(e)
    ensures Ends(step, s0, Raised(e))
  {
  }

  /** The part of the loop body that reads the hit at `index`: the end of
      its line and the formatted VAT of its text, if any. */
  method ReadVat(text: string, index: nat, round: Rounder) returns (lineEnd: int, formattedVat: Option<string>)
    ensures lineEnd == LineEnd(text, index)
    ensures formattedVat == VatCandidate(text, index, round)
  {
    var lineStart := RFind(text, "\n", 0, index) + 1;
    lineEnd := Find(text, "\n", index);
    var vatText := Strip(Slice(text, lineStart, lineEnd));
    if Contains(vatText, '%') {
      vatText := Strip(Slice(text, lineStart, index + 1));
    }
    assert vatText == PercentText(text, index);
    var m := Search(VatPattern, vatText, 0);
    if m.None? {
      return lineEnd, None;
    }
    var withExtras := Token(VatPattern, vatText, m.value);
    var cleaned := CleanNumeric(withExtras);
    VatTokenParses(vatText, m.value);
    formattedVat := Some(Format2(StrToFloat(cleaned).value, round));
  }

  /** The body of `while words_found`: search from `position`, read the
      hit's line, update the VAT field. */
  method VatIteration(text: string, kw: string, formattedPrice: Option<string>, round: Rounder, position: int, vat: Option<string>)
    returns (r: Step)
    ensures r == VatStep(text, kw, formattedPrice, round, ScanState(position, vat))
  {
    var index := Find(Lower(text), kw, position);
    if index == -1 {
      return Stopped(vat);
    }
    var lineEnd, formattedVat := ReadVat(text, index, round);
    if formattedVat.None? {
      return Running(ScanState(lineEnd, vat));
    }
    if vat.None? {
      return Running(ScanState(lineEnd, formattedVat));
    } else if formattedPrice.None? {
      return Failed(UnboundLocalError);
    } else if LexLess(vat.value, formattedPrice.value) {
      return Running(ScanState(lineEnd, formattedVat));
    }
    return Running(ScanState(lineEnd, vat));
  }

  /** `position = 0; words_found = True; while words_found: ...` for one VAT
      keyword, starting from the VAT kept so far.  It ends as the iteration
      `VatStep` ends; when an iteration leaves the state unchanged it reports
      that Python would loop for ever. */
  method ScanVatKeyword(text: string, kw: string, formattedPrice: Option<string>, round: Rounder, vat0: Option<string>)
    returns (out: Outcome<Option<string>>)
    requires kw in VatKeywords
    ensures VatLoopEnds(text, kw, formattedPrice, round, vat0, out)
    ensures out.Raised? ==> formattedPrice.None? && out.error == UnboundLocalError
    ensures out.Diverges? ==> kw == "%" && |text| > 0 && text[|text| - 1] == '%'
    ensures out.Returned? && FormattedOrNone(vat0) ==> FormattedOrNone(out.value)
  {
    ghost var step := StepOf(text, kw, formattedPrice, round);
    ghost var s0 := ScanState(0, vat0);
    ghost var steps: nat := 0;
    var position := 0;
    var vat := vat0;
    var wordsFound := true;
    while wordsFound
      invariant Run(steps, step, s0) == if wordsFound then Running(ScanState(position, vat)) else Stopped(vat)
      invariant PositionOk(text, position)
      invariant FormattedOrNone(vat0) ==> FormattedOrNone(vat)
      decreases wordsFound, |text| + 1 - NormStart(position, |text|), if position == -1 then 0 else 1,
                VatRank(text, kw, round, ScanState(position, vat))
    {
      var before := ScanState(position, vat);
      var r := VatIteration(text, kw, formattedPrice, round, position, vat);
      VatIterationEnds(text, kw, formattedPrice, round, before, r);
      if r.Running? {
        VatIterationMoves(text, kw, formattedPrice, round, before, r);
      }
      steps := steps + 1;
      assert Run(steps, step, s0) == r;
      match r {
        case Stopped(v) =>
          wordsFound := false;
        case Failed(e) =>
          EndsRaised(steps, step, s0, e);
          return Raised(e);
        case Running(t) =>
          if t == before {
            RunStuck(steps - 1, step, s0, before);
            return Diverges;
          }
          position, vat := t.position, t.vat;
      }
    }
    EndsReturned(steps, step, s0, vat);
    return Returned(vat);
  }
}
