/** `detect_text_from_img` after the OCR call: the field extraction over the
    recognised text, and the parse of the rotation hint from the
    orientation report. */
module Extractor {
  import opened Python
  import opened Regex
  import opened Numbers

  /** The `result` dictionary: three optional fields. */
  datatype Receipt = Receipt(dateTime: Option<string>, price: Option<string>, vat: Option<string>)

  /** How a Python computation ends: with a value, with an exception, or not
      at all. */
  datatype Outcome<T> = Returned(value: T) | Raised(error: PyError) | Diverges

  const PriceKeywords: seq<string> := ["summa", "amount", "yhteens\U{E4}", "yht"]
  const VatKeywords: seq<string> := ["alv", "vat", "%"]

  predicate NonEmptyWords(kws: seq<string>)
  {
    forall i :: 0 <= i < |kws| ==> kws[i] != ""
  }

  // ---------------------------------------------------------------------
  // Rotation hint

  /** The rotation read from the orientation report: the value of the first
      digit run after `Rotate: `, or 0 when the report is missing (the
      orientation call raised) or has no such run (the `try` swallows the
      error of taking a group of no match). */
  function RotateHint(osd: Option<string>): (r: nat)
    ensures osd.None? ==> r == 0
    ensures osd.Some? && (forall p :: 0 <= p <= |osd.value| ==> MatchAt(RotatePattern, osd.value, p).None?) ==> r == 0
    ensures osd.Some? ==> forall p :: IsFirstMatch(RotatePattern, osd.value, p) ==>
              AllAsciiDigits(Token(RotatePattern, osd.value, p))
              && r == DigitsValue(Token(RotatePattern, osd.value, p))
  {
    if osd.None? then 0
    else
      var s := osd.value;
      var m := Search(RotatePattern, s, 0);
      if m.None? then 0
      else
        var t := Token(RotatePattern, s, m.value);
        assert AllAsciiDigits(t);
        DigitsValue(t)
  }

  // ---------------------------------------------------------------------
  // Date and time

  /** The first time token of the whole text, or the placeholder "00:00". */
  function TimeText(text: string): (t: string)
    ensures || (exists q :: IsFirstMatch(TimePattern, text, q) && t == Token(TimePattern, text, q))
            || ((forall q :: 0 <= q <= |text| ==> MatchAt(TimePattern, text, q).None?) && t == "00:00")
  {
    var m := Search(TimePattern, text, 0);
    if m.Some? then
      assert IsFirstMatch(TimePattern, text, m.value);
      Token(TimePattern, text, m.value)
    else "00:00"
  }

  /** `result["date_time"]`: absent unless a date token exists; otherwise the
      first date token, a space, and the first time token or "00:00". */
  function DateTimeField(text: string): (r: Option<string>)
    ensures r.None? <==> forall p :: 0 <= p <= |text| ==> MatchAt(DatePattern, text, p).None?
    ensures r.Some? ==> exists p :: IsFirstMatch(DatePattern, text, p)
                                    && r.value == Token(DatePattern, text, p) + " " + TimeText(text)
  {
    var m := Search(DatePattern, text, 0);
    if m.Some? then
      assert IsFirstMatch(DatePattern, text, m.value);
      Some(Token(DatePattern, text, m.value) + " " + TimeText(text))
    else None
  }

  // ---------------------------------------------------------------------
  // The line around a keyword hit

  /** `text.rfind('\n', 0, index) + 1` */
  function LineStart(text: string, index: nat): int
  {
    RFind(text, "\n", 0, index) + 1
  }

  /** `text.find('\n', index)`: -1 when no newline follows. */
  function LineEnd(text: string, index: nat): int
  {
    Find(text, "\n", index)
  }

  /** A keyword found in `text.lower()` lies inside `text`, and its first
      character is not a newline. */
  lemma KeywordHit(text: string, kw: string, start: int)
    requires kw != "" && kw[0] != '\n' && Find(Lower(text), kw, start) != -1
    ensures var i := Find(Lower(text), kw, start);
            NormStart(start, |text|) <= i < |text| && text[i] != '\n' && LowerChar(text[i]) == kw[0]
  {
    var i := Find(Lower(text), kw, start);
    assert Lower(text)[i..i + |kw|][0] == kw[0];
  }

  /** The line containing position `index` starts after the nearest newline
      before it. */
  lemma LineStartBounds(text: string, index: nat)
    requires index < |text|
    ensures 0 <= LineStart(text, index) <= index
    ensures LineStart(text, index) == 0 || text[LineStart(text, index) - 1] == '\n'
    ensures forall k :: LineStart(text, index) <= k < index ==> text[k] != '\n'
  {
    var ls := LineStart(text, index);
    if ls > 0 {
      assert OccursAt(text, "\n", ls - 1);
      assert text[ls - 1..ls][0] == text[ls - 1];
    }
    forall k | ls <= k < index ensures text[k] != '\n' {
      assert !OccursAt(text, "\n", k);
      assert text[k..k + 1] == [text[k]];
    }
  }

  /** The line ends at the nearest newline at or after `index`, or -1. */
  lemma LineEndBounds(text: string, index: nat)
    requires index < |text|
    ensures LineEnd(text, index) == -1 || (index <= LineEnd(text, index) < |text| && text[LineEnd(text, index)] == '\n')
    ensures forall k :: index <= k < |text| && (LineEnd(text, index) == -1 || k < LineEnd(text, index)) ==> text[k] != '\n'
  {
    var le := LineEnd(text, index);
    if le != -1 {
      assert text[le..le + 1][0] == text[le];
    }
    forall k | index <= k < |text| && (le == -1 || k < le) ensures text[k] != '\n' {
      assert !OccursAt(text, "\n", k);
      assert text[k..k + 1] == [text[k]];
    }
  }

  /** `text[line_start:line_end]`: with no newline after the hit, the end -1
      makes the slice drop the text's last character. */
  lemma LineSlice(text: string, index: nat)
    requires index < |text|
    ensures Slice(text, LineStart(text, index), LineEnd(text, index))
            == if LineEnd(text, index) == -1 then text[LineStart(text, index)..|text| - 1]
               else text[LineStart(text, index)..LineEnd(text, index)]
  {
    LineStartBounds(text, index);
    LineEndBounds(text, index);
  }

  // ---------------------------------------------------------------------
  // Price

  /** The stripped line slice of the hit at `index`. */
  function LineText(text: string, index: nat): string
  {
    Strip(Slice(text, LineStart(text, index), LineEnd(text, index)))
  }

  /** What one price keyword contributes: nothing when it does not occur in
      `text.lower()`, the exception of `str_to_float` when its line holds no
      parsable number, the formatted price otherwise. */
  function PriceCandidate(text: string, kw: string, round: Rounder): (r: Result<Option<string>>)
    requires kw != ""
    ensures r == Ok(None) <==> Find(Lower(text), kw, 0) == -1
    ensures r.Raise? <==> Find(Lower(text), kw, 0) != -1
                          && !ValidNumber(KeepNumeric(LineText(text, Find(Lower(text), kw, 0))))
    ensures r.Raise? ==> r.error == ValueError
    ensures r.Ok? && r.value.Some? ==> TwoFractionDigits(r.value.value)
    ensures r.Ok? && r.value.Some? ==>
              var d := StrToFloat(KeepNumeric(LineText(text, Find(Lower(text), kw, 0)))).value;
              ReadsAs(r.value.value, if |d.frac| <= 2 then ExactFixed(d) else round(d))
  {
    var index := Find(Lower(text), kw, 0);
    if index == -1 then Ok(None)
    else
      match StrToFloat(KeepNumeric(LineText(text, index)))
      case Raise(e) => Raise(e)
      case Ok(d) =>
        FormatReadsBack(d, round);
        Ok(Some(Format2(d, round)))
  }

  /** A keyword line without any ASCII digit, such as a lone "SUMMA", makes
      that keyword's candidate raise (`DigitlessPriceLineAborts` carries it
      to the whole price loop). */
  lemma DigitlessPriceLineRaises(text: string, kw: string, round: Rounder)
    requires kw != "" && Find(Lower(text), kw, 0) != -1
    requires var line := Slice(text, LineStart(text, Find(Lower(text), kw, 0)), LineEnd(text, Find(Lower(text), kw, 0)));
             forall k :: 0 <= k < |line| ==> !IsAsciiDigit(line[k])
    ensures PriceCandidate(text, kw, round) == Raise(ValueError)
  {
    var index := Find(Lower(text), kw, 0);
    var line := Slice(text, LineStart(text, index), LineEnd(text, index));
    KeepNumericOfStrip(line);
    NoDigitsKept(line);
    assert !ValidNumber(KeepNumeric(LineText(text, index)));
  }

  lemma {:induction false} NoDigitsKept(s: string)
    requires forall k :: 0 <= k < |s| ==> !IsAsciiDigit(s[k])
    ensures forall k :: 0 <= k < |KeepNumeric(s)| ==> !IsAsciiDigit(KeepNumeric(s)[k])
    decreases |s|
  {
    if |s| > 0 { NoDigitsKept(s[..|s| - 1]); }
  }

  /** The running best price and the last formatted price (`formatted_price`,
      which outlives the loop). */
  datatype PriceAcc = PriceAcc(price: Option<string>, last: Option<string>)

  /** The price update: the first price is taken, and a later one replaces
      the price so far when it sorts after it as a string.  The result is
      one of the two and sorts no lower than either. */
  function KeepLarger(cur: Option<string>, f: string): (r: Option<string>)
    ensures r == Some(f) || r == cur
    ensures r.Some? && !LexLess(r.value, f)
    ensures cur.Some? ==> !LexLess(r.value, cur.value)
  {
    LexLessIrreflexive(f);
    if cur.None? then Some(f)
    else
      LexLessIrreflexive(cur.value);
      if LexLess(cur.value, f) then
        LexLessAsymmetric(cur.value, f);
        Some(f)
      else cur
  }

  /** Prices compare as strings: "9.00" is kept over "22.00". */
  lemma KeepLargerIsTextual()
    ensures KeepLarger(Some("9.00"), "22.00") == Some("9.00")
  {
    assert !LexLess("9.00", "22.00");
  }

  /** What each keyword of `kws` contributes, in order. */
  function PriceCandidates(text: string, kws: seq<string>, round: Rounder): (r: seq<Result<Option<string>>>)
    requires NonEmptyWords(kws)
    ensures |r| == |kws| && forall i :: 0 <= i < |kws| ==> r[i] == PriceCandidate(text, kws[i], round)
  {
    seq(|kws|, i requires 0 <= i < |kws| => PriceCandidate(text, kws[i], round))
  }

  /** The price loop over the candidates `cands` of successive keywords,
      from accumulator `acc`: the first exception ends it. */
  function PriceFold(cands: seq<Result<Option<string>>>, acc: PriceAcc): Result<PriceAcc>
    decreases |cands|
  {
    if cands == [] then Ok(acc)
    else
      match cands[0]
      case Raise(e) => Raise(e)
      case Ok(None) => PriceFold(cands[1..], acc)
      case Ok(Some(f)) => PriceFold(cands[1..], PriceAcc(KeepLarger(acc.price, f), Some(f)))
  }

  /** The price loop resumed at candidate `i` takes that candidate's turn
      and resumes at the next one. */
  lemma PriceFoldStep(cands: seq<Result<Option<string>>>, i: nat, acc: PriceAcc)
    requires i < |cands|
    ensures PriceFold(cands[i..], acc)
            == match cands[i]
               case Raise(e) => Raise(e)
               case Ok(None) => PriceFold(cands[i + 1..], acc)
               case Ok(Some(f)) => PriceFold(cands[i + 1..], PriceAcc(KeepLarger(acc.price, f), Some(f)))
  {
    assert cands[i..][0] == cands[i] && cands[i..][1..] == cands[i + 1..];
  }

  /** The price loop raises exactly when some candidate raises, and then
      with the first such candidate's exception. */
  lemma {:induction false} PriceFoldRaises(cands: seq<Result<Option<string>>>, acc: PriceAcc)
    ensures PriceFold(cands, acc).Raise? <==> exists i :: 0 <= i < |cands| && cands[i].Raise?
    ensures PriceFold(cands, acc).Raise? ==>
              exists i :: 0 <= i < |cands| && cands[i] == Raise(PriceFold(cands, acc).error)
                          && forall j :: 0 <= j < i ==> cands[j].Ok?
    decreases |cands|
  {
    if cands != [] {
      var c := cands[0];
      var rest := cands[1..];
      var acc' := if c.Ok? && c.value.Some? then PriceAcc(KeepLarger(acc.price, c.value.value), c.value) else acc;
      PriceFoldRaises(rest, acc');
      assert forall i :: 0 <= i < |rest| ==> rest[i] == cands[i + 1];
      if c.Ok? && PriceFold(cands, acc).Raise? {
        var i :| 0 <= i < |rest| && rest[i] == Raise(PriceFold(rest, acc').error)
                 && forall j :: 0 <= j < i ==> rest[j].Ok?;
        assert cands[i + 1] == Raise(PriceFold(cands, acc).error);
        assert forall j :: 0 <= j < i + 1 ==> cands[j].Ok? by {
          forall j | 0 <= j < i + 1 ensures cands[j].Ok? {
            if j > 0 { assert cands[j] == rest[j - 1]; }
          }
        }
      }
    }
  }

  /** The final price is the string maximum of the candidates (and of the
      starting value), and `formatted_price` is the last candidate. */
  lemma {:induction false} PriceFoldIsMax(cands: seq<Result<Option<string>>>, acc0: PriceAcc, acc: PriceAcc)
    requires PriceFold(cands, acc0) == Ok(acc)
    ensures forall i :: 0 <= i < |cands| ==> cands[i].Ok?
    ensures forall i :: 0 <= i < |cands| && cands[i].Ok? && cands[i].value.Some? ==>
              acc.price.Some? && !LexLess(acc.price.value, cands[i].value.value)
    ensures acc0.price.Some? ==> acc.price.Some? && !LexLess(acc.price.value, acc0.price.value)
    ensures acc.price == acc0.price || exists i :: 0 <= i < |cands| && cands[i] == Ok(acc.price)
    ensures (forall i :: 0 <= i < |cands| ==> cands[i] == Ok(None)) ==> acc == acc0
    ensures forall i :: 0 <= i < |cands| && cands[i].Ok? && cands[i].value.Some?
                        && (forall j :: i < j < |cands| ==> cands[j] == Ok(None)) ==>
              acc.last == cands[i].value
    decreases |cands|
  {
    if cands == [] {
      if acc0.price.Some? { LexLessIrreflexive(acc0.price.value); }
    } else {
      var c := cands[0];
      var rest := cands[1..];
      assert forall i :: 0 <= i < |rest| ==> rest[i] == cands[i + 1];
      if c.value.None? {
        PriceFoldIsMax(rest, acc0, acc);
      } else {
        var f := c.value.value;
        var acc1 := PriceAcc(KeepLarger(acc0.price, f), Some(f));
        PriceFoldIsMax(rest, acc1, acc);
        assert !LexLess(acc.price.value, f) by {
          if acc1.price.value != f {
            assert acc1.price == acc0.price && !LexLess(acc0.price.value, f);
            LexLessTotal(acc0.price.value, f);
            if LexLess(acc.price.value, f) { LexLessTransitive(acc.price.value, f, acc0.price.value); }
          }
        }
        if acc0.price.Some? {
          if LexLess(acc0.price.value, f) {
            assert acc1.price == Some(f);
            if LexLess(acc.price.value, acc0.price.value) {
              LexLessTransitive(acc.price.value, acc0.price.value, f);
            }
          } else {
            assert acc1.price == acc0.price;
          }
        }
      }
    }
  }

  /** The price loop's candidates stay `{:.2f}` texts, and so does the kept
      price. */
  lemma {:induction false} PriceFoldFormatted(cands: seq<Result<Option<string>>>, acc0: PriceAcc, acc: PriceAcc)
    requires PriceFold(cands, acc0) == Ok(acc)
    requires forall i :: 0 <= i < |cands| && cands[i].Ok? && cands[i].value.Some? ==> TwoFractionDigits(cands[i].value.value)
    requires acc0.price.None? || TwoFractionDigits(acc0.price.value)
    requires acc0.last.None? || TwoFractionDigits(acc0.last.value)
    ensures acc.price.None? || TwoFractionDigits(acc.price.value)
    ensures acc.last.None? || TwoFractionDigits(acc.last.value)
    decreases |cands|
  {
    if cands != [] {
      var rest := cands[1..];
      assert forall i :: 0 <= i < |rest| ==> rest[i] == cands[i + 1];
      var c := cands[0];
      if c.value.None? {
        PriceFoldFormatted(rest, acc0, acc);
      } else {
        PriceFoldFormatted(rest, PriceAcc(KeepLarger(acc0.price, c.value.value), c.value), acc);
      }
    }
  }

  /** The price loop of `detect_text_from_img` as a value. */
  function PriceResult(text: string, round: Rounder): Result<PriceAcc>
  {
    PriceFold(PriceCandidates(text, PriceKeywords, round), PriceAcc(None, None))
  }

  /** The price loop raises only `str_to_float`'s ValueError, and leaves
      both the price and `formatted_price` empty or `{:.2f}` texts. */
  lemma PriceResultFacts(text: string, round: Rounder)
    ensures PriceResult(text, round).Raise? ==> PriceResult(text, round).error == ValueError
    ensures PriceResult(text, round).Ok? ==> FormattedOrNone(PriceResult(text, round).value.price)
                                             && FormattedOrNone(PriceResult(text, round).value.last)
  {
    var cands := PriceCandidates(text, PriceKeywords, round);
    PriceFoldRaises(cands, PriceAcc(None, None));
    if PriceResult(text, round).Ok? {
      PriceFoldFormatted(cands, PriceAcc(None, None), PriceResult(text, round).value);
    }
  }

  /** A price keyword of the code whose line holds no ASCII digit aborts
      the price loop, and with it the extraction, with `ValueError`: no
      handler surrounds `str_to_float`. */
  lemma DigitlessPriceLineAborts(text: string, kw: string, round: Rounder)
    requires kw in PriceKeywords && Find(Lower(text), kw, 0) != -1
    requires var line := Slice(text, LineStart(text, Find(Lower(text), kw, 0)), LineEnd(text, Find(Lower(text), kw, 0)));
             forall k :: 0 <= k < |line| ==> !IsAsciiDigit(line[k])
    ensures PriceResult(text, round) == Raise(ValueError)
  {
    var cands := PriceCandidates(text, PriceKeywords, round);
    var i :| 0 <= i < |PriceKeywords| && PriceKeywords[i] == kw;
    DigitlessPriceLineRaises(text, kw, round);
    assert cands[i].Raise?;
    PriceFoldRaises(cands, PriceAcc(None, None));
    PriceResultFacts(text, round);
  }

  /** One keyword's turn of the price loop, up to the formatted price. */
  method ReadPrice(text: string, keyword: string, round: Rounder) returns (c: Result<Option<string>>)
    requires keyword != ""
    ensures c == PriceCandidate(text, keyword, round)
  {
    var index := Find(Lower(text), keyword, 0);
    if index == -1 {
      return Ok(None);
    }
    var lineStart := RFind(text, "\n", 0, index) + 1;
    var lineEnd := Find(text, "\n", index);
    var priceText := Strip(Slice(text, lineStart, lineEnd));
    var cleaned := CleanNumeric(priceText);
    var parsed := StrToFloat(cleaned);
    if parsed.Raise? {
      return Raise(parsed.error);
    }
    return Ok(Some(Format2(parsed.value, round)));
  }

  /** The price loop of `detect_text_from_img`. */
  method ScanPrices(text: string, round: Rounder) returns (r: Result<PriceAcc>)
    ensures r == PriceResult(text, round)
  {
    ghost var cands := PriceCandidates(text, PriceKeywords, round);
    var price: Option<string> := None;
    var formattedPrice: Option<string> := None;
    for i := 0 to |PriceKeywords|
      invariant PriceFold(cands[i..], PriceAcc(price, formattedPrice)) == PriceFold(cands, PriceAcc(None, None))
    {
      var keyword := PriceKeywords[i];
      PriceFoldStep(cands, i, PriceAcc(price, formattedPrice));
      var c := ReadPrice(text, keyword, round);
      assert c == cands[i];
      match c {
        case Raise(e) =>
          return Raise(e);
        case Ok(None) =>
        case Ok(Some(formatted)) =>
          formattedPrice := Some(formatted);
          if price.None? {
            price := Some(formatted);
          } else if LexLess(price.value, formatted) {
            price := Some(formatted);
          }
      }
    }
    return Ok(PriceAcc(price, formattedPrice));
  }
}
