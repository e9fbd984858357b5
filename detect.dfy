/** `detect_text_from_img` from the recognised text on: the date and time
    search, the price loop and the three VAT loops, filling the `result`
    dictionary.  The recognised text is a parameter (the image, its
    preprocessing, the rotation and the OCR calls are not modelled), and so
    is the rounding of numbers with more than two fraction digits. */
module Detect {
  import opened Python
  import opened Numbers
  import opened Extractor
  import opened Vat

  /** The VAT loops for the keywords `kws` in turn, starting from VAT `vat`:
      each loop starts where the previous one left the field, and the first
      that raises or runs for ever ends the whole. */
  ghost predicate VatChain(text: string, kws: seq<string>, formattedPrice: Option<string>, round: Rounder,
                           vat: Option<string>, out: Outcome<Option<string>>)
    decreases |kws|
  {
    if kws == [] then out == Returned(vat)
    else
      exists o :: VatLoopEnds(text, kws[0], formattedPrice, round, vat, o)
                  && if o.Returned? then VatChain(text, kws[1..], formattedPrice, round, o.value, out) else out == o
  }

  /** The chain of VAT loops ends in one way only. */
  lemma {:induction false} VatChainUnique(text: string, kws: seq<string>, formattedPrice: Option<string>, round: Rounder,
                                          vat: Option<string>, out1: Outcome<Option<string>>, out2: Outcome<Option<string>>)
    requires VatChain(text, kws, formattedPrice, round, vat, out1)
    requires VatChain(text, kws, formattedPrice, round, vat, out2)
    ensures out1 == out2
    decreases |kws|
  {
    if kws != [] {
      var o1 :| VatLoopEnds(text, kws[0], formattedPrice, round, vat, o1)
                && if o1.Returned? then VatChain(text, kws[1..], formattedPrice, round, o1.value, out1) else out1 == o1;
      var o2 :| VatLoopEnds(text, kws[0], formattedPrice, round, vat, o2)
                && if o2.Returned? then VatChain(text, kws[1..], formattedPrice, round, o2.value, out2) else out2 == o2;
      EndsUnique(StepOf(text, kws[0], formattedPrice, round), ScanState(0, vat), o1, o2);
      if o1.Returned? {
        VatChainUnique(text, kws[1..], formattedPrice, round, o1.value, out1, out2);
      }
    }
  }

  /** A chain continues with the outcome of its first loop. */
  lemma ChainStep(text: string, kws: seq<string>, formattedPrice: Option<string>, round: Rounder,
                  vat: Option<string>, o: Outcome<Option<string>>)
    requires kws != [] && VatLoopEnds(text, kws[0], formattedPrice, round, vat, o)
    ensures !o.Returned? ==> VatChain(text, kws, formattedPrice, round, vat, o)
    ensures o.Returned? ==> forall out :: VatChain(text, kws[1..], formattedPrice, round, o.value, out)
                                          ==> VatChain(text, kws, formattedPrice, round, vat, out)
  {
  }

  /** How `detect_text_from_img` ends on the recognised text `text`: with
      the exception of the price loop, or else as the VAT loops end, the
      returned dictionary holding the date and time, the price that sorts
      last as a string and the VAT. */
  ghost predicate ExtractsTo(text: string, round: Rounder, out: Outcome<Receipt>)
  {
    var priced := PriceResult(text, round);
    if priced.Raise? then out == Raised(priced.error)
    else
      exists vo :: VatChain(text, VatKeywords, priced.value.last, round, None, vo)
                   && out == match vo
                             case Returned(v) => Returned(Receipt(DateTimeField(text), priced.value.price, v))
                             case Raised(e) => Raised(e)
                             case Diverges => Diverges
  }

  /** The extraction is deterministic. */
  lemma ExtractsToUnique(text: string, round: Rounder, out1: Outcome<Receipt>, out2: Outcome<Receipt>)
    requires ExtractsTo(text, round, out1) && ExtractsTo(text, round, out2)
    ensures out1 == out2
  {
    var priced := PriceResult(text, round);
    if priced.Ok? {
      var v1 :| VatChain(text, VatKeywords, priced.value.last, round, None, v1)
                && out1 == match v1
                            case Returned(v) => Returned(Receipt(DateTimeField(text), priced.value.price, v))
                            case Raised(e) => Raised(e)
                            case Diverges => Diverges;
      var v2 :| VatChain(text, VatKeywords, priced.value.last, round, None, v2)
                && out2 == match v2
                            case Returned(v) => Returned(Receipt(DateTimeField(text), priced.value.price, v))
                            case Raised(e) => Raised(e)
                            case Diverges => Diverges;
      VatChainUnique(text, VatKeywords, priced.value.last, round, None, v1, v2);
    }
  }

  /** `detect_text_from_img` after the OCR call. */
  method DetectText(text: string, round: Rounder) returns (out: Outcome<Receipt>)
    ensures ExtractsTo(text, round, out)
    ensures out.Raised? ==> out.error == ValueError || (PriceResult(text, round).Ok? && PriceResult(text, round).value.last.None?)
    ensures out.Diverges? ==> |text| > 0 && text[|text| - 1] == '%'
    ensures (&& PriceResult(text, round).Ok? && PriceResult(text, round).value.last.Some?
             && |text| > 0 && text[|text| - 1] == '%') ==> out.Diverges?
    ensures out.Returned? ==> out.value.dateTime == DateTimeField(text)
                              && FormattedOrNone(out.value.price) && FormattedOrNone(out.value.vat)
  {
    var dateTime := DateTimeField(text);
    var priced := ScanPrices(text, round);
    PriceResultFacts(text, round);
    if priced.Raise? {
      return Raised(priced.error);
    }
    var price, formattedPrice := priced.value.price, priced.value.last;
    var vat: Option<string> := None;
    for k := 0 to |VatKeywords|
      invariant forall o :: VatChain(text, VatKeywords[k..], formattedPrice, round, vat, o)
                            ==> VatChain(text, VatKeywords, formattedPrice, round, None, o)
      invariant FormattedOrNone(vat)
      invariant formattedPrice.Some? && |text| > 0 && text[|text| - 1] == '%' ==> k < 3
    {
      var keyword := VatKeywords[k];
      assert VatKeywords[k..][0] == keyword && VatKeywords[k..][1..] == VatKeywords[k + 1..];
      var o := ScanVatKeyword(text, keyword, formattedPrice, round, vat);
      ChainStep(text, VatKeywords[k..], formattedPrice, round, vat, o);
      match o {
        case Returned(v) =>
          if keyword == "%" && |text| > 0 && text[|text| - 1] == '%' {
            PercentEndNeverStops(text, formattedPrice, round, vat);
          }
          vat := v;
        case Raised(e) =>
          return Raised(e);
        case Diverges =>
          return Diverges;
      }
    }
    assert VatChain(text, VatKeywords[3..], formattedPrice, round, vat, Returned(vat));
    return Returned(Receipt(dateTime, price, vat));
  }
}
