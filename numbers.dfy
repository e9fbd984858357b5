/** Number handling of the receipt reader: the character filter that keeps
    digits, `.` and `,` (the `for character in ...` loops of
    text_recognition.py), `str_to_float`, and `"{:.2f}".format`.

    A parsed number is kept as the exact decimal its text denotes.  Formatting
    it with two fraction digits is exact when it has at most two fraction
    digits; the rounding Python applies to the binary float of a longer
    fraction is not modelled and is supplied by the caller as a `Rounder`. */
module Numbers {
  import opened Python

  predicate IsNumericChar(c: char) { IsDigit(c) || c == '.' || c == ',' }

  predicate AllNumeric(s: string)
  {
    forall i :: 0 <= i < |s| ==> IsNumericChar(s[i])
  }

  /** The characters of `s` that are digits, `.` or `,`, in order. */
  function KeepNumeric(s: string): (r: string)
    ensures |r| <= |s| && AllNumeric(r)
    decreases |s|
  {
    if |s| == 0 then []
    else KeepNumeric(s[..|s| - 1]) + (if IsNumericChar(s[|s| - 1]) then [s[|s| - 1]] else [])
  }

  /** The loop that builds `price_text_cleaned` / `vat_text_cleaned`. */
  method CleanNumeric(s: string) returns (cleaned: string)
    ensures cleaned == KeepNumeric(s)
    ensures AllNumeric(cleaned)
  {
    cleaned := "";
    for i := 0 to |s|
      invariant cleaned == KeepNumeric(s[..i])
    {
      assert s[..i + 1][..i] == s[..i];
      if IsNumericChar(s[i]) {
        cleaned := cleaned + [s[i]];
      }
    }
    assert s[..|s|] == s;
  }

  lemma {:induction false} KeepNumericAppend(a: string, b: string)
    ensures KeepNumeric(a + b) == KeepNumeric(a) + KeepNumeric(b)
    decreases |b|
  {
    if |b| == 0 {
      assert a + b == a;
    } else {
      var b' := b[..|b| - 1];
      assert (a + b)[..|a + b| - 1] == a + b';
      KeepNumericAppend(a, b');
    }
  }

  /** Filtering a string that is already numeric changes nothing. */
  lemma {:induction false} KeepNumericOfNumeric(s: string)
    requires AllNumeric(s)
    ensures KeepNumeric(s) == s
    decreases |s|
  {
    if |s| > 0 {
      KeepNumericOfNumeric(s[..|s| - 1]);
      assert s[..|s| - 1] + [s[|s| - 1]] == s;
    }
  }

  lemma {:induction false} KeepNumericOfStripLeft(s: string)
    ensures KeepNumeric(StripLeft(s)) == KeepNumeric(s)
    decreases |s|
  {
    if |s| > 0 && IsSpace(s[0]) {
      KeepNumericOfStripLeft(s[1..]);
      assert s == [s[0]] + s[1..];
      KeepNumericAppend([s[0]], s[1..]);
      assert KeepNumeric([s[0]]) == [] by { assert [s[0]][..0] == []; }
    }
  }

  lemma {:induction false} KeepNumericOfStripRight(s: string)
    ensures KeepNumeric(StripRight(s)) == KeepNumeric(s)
    decreases |s|
  {
    if |s| > 0 && IsSpace(s[|s| - 1]) {
      KeepNumericOfStripRight(s[..|s| - 1]);
    }
  }

  /** Stripping before filtering makes no difference: white space is never
      kept by the filter. */
  lemma KeepNumericOfStrip(s: string)
    ensures KeepNumeric(Strip(s)) == KeepNumeric(s)
  {
    KeepNumericOfStripLeft(s);
    KeepNumericOfStripRight(StripLeft(s));
  }

  // ---------------------------------------------------------------------
  // str_to_float

  /** The exact decimal a number text denotes: the digits before and after
      the point. */
  datatype Decimal = Decimal(whole: string, frac: string)

  predicate IsSeparator(c: char) { c == '.' || c == ',' }

  /** When `float(s.replace(",", "."))` succeeds on a filtered string: some
      ASCII digit, no superscript digit, and at most one separator. */
  ghost predicate ValidNumber(s: string)
  {
    && (exists i :: 0 <= i < |s| && IsAsciiDigit(s[i]))
    && (forall i :: 0 <= i < |s| ==> !IsSuperscriptDigit(s[i]))
    && (forall i, j :: 0 <= i < j < |s| && IsSeparator(s[i]) ==> !IsSeparator(s[j]))
  }

  /** `s.replace(",", ".")`. */
  function ReplaceCommas(s: string): (r: string)
    ensures |r| == |s|
    ensures forall i :: 0 <= i < |s| ==> r[i] == (if s[i] == ',' then '.' else s[i])
    ensures ',' !in r
  {
    seq(|s|, i requires 0 <= i < |s| => if s[i] == ',' then '.' else s[i])
  }

  /** Some character of `s` is a superscript digit. */
  predicate HasSuperscript(s: string)
    decreases |s|
  {
    |s| > 0 && (IsSuperscriptDigit(s[|s| - 1]) || HasSuperscript(s[..|s| - 1]))
  }

  lemma {:induction false} HasSuperscriptIff(s: string)
    ensures HasSuperscript(s) <==> exists i :: 0 <= i < |s| && IsSuperscriptDigit(s[i])
    decreases |s|
  {
    if |s| > 0 {
      var u := s[..|s| - 1];
      HasSuperscriptIff(u);
      assert forall i :: 0 <= i < |u| ==> u[i] == s[i];
    }
  }

  /** No point lies between `from` and the first point found from there. */
  lemma PointsBefore(t: string, from: nat)
    ensures var r := Find(t, ".", from);
            forall k :: from <= k < (if r == -1 then |t| else r) ==> t[k] != '.'
  {
    var r := Find(t, ".", from);
    forall k | from <= k < (if r == -1 then |t| else r) ensures t[k] != '.' {
      assert !OccursAt(t, ".", k);
      assert t[k..k + 1] == [t[k]];
    }
  }

  lemma TwoSeparatorsInvalid(s: string, i: nat, j: nat)
    requires i < j < |s| && IsSeparator(s[i]) && IsSeparator(s[j])
    ensures !ValidNumber(s)
  {
  }

  /** A filtered text without superscripts whose only possible separator is
      at k, and which has a character besides it, is a number `float`
      accepts; its other characters are ASCII digits.  (k == |s| stands for
      no separator.) */
  lemma OneSeparatorValid(s: string, k: nat)
    requires AllNumeric(s) && k <= |s| && |s| >= (if k < |s| then 2 else 1)
    requires !HasSuperscript(s)
    requires forall i :: 0 <= i < |s| && i != k ==> !IsSeparator(s[i])
    ensures ValidNumber(s)
    ensures AllAsciiDigits(ReplaceCommas(s)[..k])
    ensures k < |s| ==> AllAsciiDigits(ReplaceCommas(s)[k + 1..])
  {
    HasSuperscriptIff(s);
    var t := ReplaceCommas(s);
    forall i | 0 <= i < |s| && i != k ensures IsAsciiDigit(s[i]) && t[i] == s[i] {
      assert IsNumericChar(s[i]) && !IsSuperscriptDigit(s[i]);
    }
    var d := if k == 0 then 1 else 0;
    assert IsAsciiDigit(s[d]);
    var w := t[..k];
    forall i | 0 <= i < |w| ensures IsAsciiDigit(w[i]) { assert w[i] == t[i]; }
    if k < |s| {
      var f := t[k + 1..];
      forall i | 0 <= i < |f| ensures IsAsciiDigit(f[i]) { assert f[i] == t[k + 1 + i]; }
    }
  }

  /** A superscript digit makes `float` fail. */
  lemma SuperscriptCase(s: string)
    requires HasSuperscript(s)
    ensures !ValidNumber(s)
  {
    HasSuperscriptIff(s);
  }

  /** Without a separator, a filtered text is accepted exactly when it is not
      empty, and then it is all ASCII digits. */
  lemma NoPointCase(s: string)
    requires AllNumeric(s) && !HasSuperscript(s) && Find(ReplaceCommas(s), ".", 0) == -1
    ensures ValidNumber(s) <==> |s| > 0
    ensures AllAsciiDigits(ReplaceCommas(s))
  {
    var t := ReplaceCommas(s);
    PointsBefore(t, 0);
    if |s| > 0 {
      forall i | 0 <= i < |s| ensures !IsSeparator(s[i]) {
        assert t[i] != '.';
      }
      OneSeparatorValid(s, |s|);
      assert t[..|s|] == t;
    }
  }

  /** An occurrence of "." is a point character. */
  lemma PointAt(t: string, i: int)
    requires OccursAt(t, ".", i)
    ensures 0 <= i < |t| && t[i] == '.'
  {
    assert t[i..i + 1][0] == t[i];
  }

  /** With two separators, a filtered text is rejected. */
  lemma TwoPointsCase(s: string)
    requires Find(ReplaceCommas(s), ".", 0) != -1
    requires Find(ReplaceCommas(s), ".", Find(ReplaceCommas(s), ".", 0) + 1) != -1
    ensures !ValidNumber(s)
  {
    var t := ReplaceCommas(s);
    var dot := Find(t, ".", 0);
    var next := Find(t, ".", dot + 1);
    PointAt(t, dot);
    PointAt(t, next);
    TwoSeparatorsInvalid(s, dot, next);
  }

  /** The point `find` returns first, when no other point follows it, is
      the only separator of the original text. */
  lemma OnlySeparator(s: string, dot: nat)
    requires dot == Find(ReplaceCommas(s), ".", 0) && Find(ReplaceCommas(s), ".", dot + 1) == -1
    ensures dot < |s| && IsSeparator(s[dot])
    ensures forall i :: 0 <= i < |s| && i != dot ==> !IsSeparator(s[i])
  {
    var t := ReplaceCommas(s);
    assert t[dot..dot + 1] == ".";
    PointsBefore(t, 0);
    PointsBefore(t, dot + 1);
    forall i | 0 <= i < |s| && i != dot ensures !IsSeparator(s[i]) {
      assert t[i] != '.';
    }
  }

  /** With exactly one separator, a filtered text is accepted exactly when
      it has another character, and the parts around the point are ASCII
      digits. */
  lemma OnePointCase(s: string, dot: nat)
    requires AllNumeric(s) && !HasSuperscript(s)
    requires dot == Find(ReplaceCommas(s), ".", 0) && Find(ReplaceCommas(s), ".", dot + 1) == -1
    ensures dot < |s| && (ValidNumber(s) <==> |s| > 1)
    ensures ReplaceCommas(s) == ReplaceCommas(s)[..dot] + "." + ReplaceCommas(s)[dot + 1..]
    ensures AllAsciiDigits(ReplaceCommas(s)[..dot]) && AllAsciiDigits(ReplaceCommas(s)[dot + 1..])
  {
    OnlySeparator(s, dot);
    PointSplit(ReplaceCommas(s), dot);
    if |s| > 1 {
      OneSeparatorValid(s, dot);
    } else {
      assert |s| == 1 && dot == 0;
      assert forall i :: 0 <= i < |s| ==> !IsAsciiDigit(s[i]);
    }
  }

  /** A text splits around any of its points. */
  lemma PointSplit(t: string, dot: nat)
    requires dot < |t| && t[dot] == '.'
    ensures t == t[..dot] + "." + t[dot + 1..]
  {
  }

  /** `str_to_float` on a string of digits, `.` and `,`: `float` of the text
      with commas turned into points.  It accepts digits with at most one
      point, at least one digit, and no superscript digit. */
  function StrToFloat(s: string): (r: Result<Decimal>)
    requires AllNumeric(s)
    ensures r.Ok? <==> ValidNumber(s)
    ensures r.Raise? ==> r.error == ValueError
    ensures r.Ok? ==> AllAsciiDigits(r.value.whole) && AllAsciiDigits(r.value.frac)
    ensures r.Ok? ==> ReplaceCommas(s) == r.value.whole + "." + r.value.frac
                      || (ReplaceCommas(s) == r.value.whole && r.value.frac == "")
  {
    var t := ReplaceCommas(s);
    var dot := Find(t, ".", 0);
    if HasSuperscript(s) then
      SuperscriptCase(s);
      Raise(ValueError)
    else if dot == -1 then
      NoPointCase(s);
      if |t| == 0 then Raise(ValueError) else Ok(Decimal(t, ""))
    else if Find(t, ".", dot + 1) != -1 then
      TwoPointsCase(s);
      Raise(ValueError)
    else
      OnePointCase(s, dot);
      if |t| == 1 then Raise(ValueError) else Ok(Decimal(t[..dot], t[dot + 1..]))
  }

  // ---------------------------------------------------------------------
  // "{:.2f}".format

  type Cents = c: nat | c < 100

  /** A number with exactly two fraction digits. */
  datatype Fixed = Fixed(units: nat, cents: Cents)

  /** Python's rounding of a decimal with more than two fraction digits. */
  type Rounder = Decimal -> Fixed

  /** The digits of a fraction of at most two digits, padded with zeros. */
  function Pad2(frac: string): (r: string)
    requires |frac| <= 2
    ensures |r| == 2 && r[..|frac|] == frac
    ensures forall i :: |frac| <= i < 2 ==> r[i] == '0'
  {
    frac + seq(2 - |frac|, _ => '0')
  }

  lemma TwoDigitValue(s: string)
    requires |s| == 2 && AllAsciiDigits(s)
    ensures DigitsValue(s) < 100
    ensures DigitsValue(s) == (s[0] as int - '0' as int) * 10 + (s[1] as int - '0' as int)
  {
    var a := s[..1];
    assert a[..0] == [] && a[0] == s[0];
    assert DigitsValue(a) == s[0] as int - '0' as int;
    assert s[..|s| - 1] == a;
  }

  /** The value of a decimal with at most two fraction digits, in hundredths. */
  function ExactFixed(d: Decimal): (f: Fixed)
    requires AllAsciiDigits(d.whole) && AllAsciiDigits(d.frac) && |d.frac| <= 2
  {
    var p := Pad2(d.frac);
    assert AllAsciiDigits(p) by {
      forall i | 0 <= i < 2 ensures IsAsciiDigit(p[i]) {
        if i < |d.frac| { assert p[i] == p[..|d.frac|][i]; }
      }
    }
    TwoDigitValue(p);
    Fixed(DigitsValue(d.whole), DigitsValue(p))
  }

  /** The hundredths of a decimal with at most two fraction digits: its
      whole part times 100 plus its fraction digits scaled up to two places
      (so `5` is 500, `15,5` is 1550, `24,05` is 2405). */
  lemma ExactFixedValue(d: Decimal)
    requires AllAsciiDigits(d.whole) && AllAsciiDigits(d.frac) && |d.frac| <= 2
    ensures 100 * ExactFixed(d).units + ExactFixed(d).cents
            == 100 * DigitsValue(d.whole) + DigitsValue(d.frac) * Pow10(2 - |d.frac|)
  {
    var p := Pad2(d.frac);
    assert AllAsciiDigits(p) by {
      forall i | 0 <= i < 2 ensures IsAsciiDigit(p[i]) {
        if i < |d.frac| { assert p[i] == p[..|d.frac|][i]; }
      }
    }
    TwoDigitValue(p);
    assert Pow10(1) == 10 && Pow10(2) == 100;
    if |d.frac| == 0 {
      assert p[0] == '0' && p[1] == '0';
    } else if |d.frac| == 1 {
      assert p[0] == p[..1][0] == d.frac[0] && p[1] == '0';
      assert d.frac[..0] == [];
    } else {
      assert p == p[..2] == d.frac;
    }
  }

  /** A text of the form `<integer>.<two digits>`, as produced by `{:.2f}`. */
  predicate TwoFractionDigits(r: string)
  {
    && |r| >= 4 && r[|r| - 3] == '.'
    && AllAsciiDigits(r[..|r| - 3]) && AllAsciiDigits(r[|r| - 2..])
    && (|r| > 4 ==> r[0] != '0')
  }

  /** An optional field that is empty or a `{:.2f}` text. */
  predicate FormattedOrNone(field: Option<string>)
  {
    field.None? || TwoFractionDigits(field.value)
  }

  function FixedToString(f: Fixed): (r: string)
    ensures TwoFractionDigits(r)
  {
    var u := NatToString(f.units);
    var r := u + "." + [DigitChar(f.cents / 10), DigitChar(f.cents % 10)];
    assert r[..|r| - 3] == u;
    r
  }

  /** `"{:.2f}".format(float(...))`. */
  function Format2(d: Decimal, round: Rounder): (r: string)
    requires AllAsciiDigits(d.whole) && AllAsciiDigits(d.frac)
    ensures TwoFractionDigits(r)
  {
    FixedToString(if |d.frac| <= 2 then ExactFixed(d) else round(d))
  }

  lemma FirstPointAfterDigits(u: string, c: string)
    requires AllAsciiDigits(u)
    ensures Find(u + "." + c, ".", 0) == |u|
  {
    var x := u + "." + c;
    assert OccursAt(x, ".", |u|) by { assert x[|u|..|u| + 1] == "."; }
    forall k | 0 <= k < |u| ensures !OccursAt(x, ".", k) {
      assert x[k] == u[k];
      assert x[k..k + 1] == [x[k]];
    }
  }

  /** A text `<digits>.<rest>` splits at its first point in one way only. */
  lemma SplitAtPoint(u: string, c: string, w: string, f: string)
    requires AllAsciiDigits(u) && AllAsciiDigits(w)
    requires u + "." + c == w + "." + f
    ensures u == w && c == f
  {
    var r := u + "." + c;
    FirstPointAfterDigits(u, c);
    FirstPointAfterDigits(w, f);
    assert r[..|u|] == u && (w + "." + f)[..|w|] == w;
    assert r[|u| + 1..] == c && (w + "." + f)[|w| + 1..] == f;
  }

  /** `float` reads `<digits>.<digits>` as exactly those digits. */
  lemma ParsePointed(u: string, c: string)
    requires AllAsciiDigits(u) && AllAsciiDigits(c) && |u| >= 1
    ensures AllNumeric(u + "." + c)
    ensures StrToFloat(u + "." + c) == Ok(Decimal(u, c))
  {
    var r := u + "." + c;
    assert forall i :: 0 <= i < |r| && i != |u| ==> IsAsciiDigit(r[i]) by {
      forall i | 0 <= i < |r| && i != |u| ensures IsAsciiDigit(r[i]) {
        if i < |u| { assert r[i] == u[i]; } else { assert r[i] == c[i - |u| - 1]; }
      }
    }
    assert r[|u|] == '.';
    assert AllNumeric(r);
    HasSuperscriptIff(r);
    OneSeparatorValid(r, |u|);
    assert ReplaceCommas(r) == r;
    var e := StrToFloat(r).value;
    assert r != e.whole;
    SplitAtPoint(u, c, e.whole, e.frac);
  }

  /** `float` reads `s` as a number of at most two fraction digits whose
      value in hundredths is `f`. */
  predicate ReadsAs(s: string, f: Fixed)
  {
    && AllNumeric(s) && StrToFloat(s).Ok? && |StrToFloat(s).value.frac| <= 2
    && ExactFixed(StrToFloat(s).value) == f
  }

  /** Every `{:.2f}` text reads back as the value it was printed from. */
  lemma FixedReadsBack(f: Fixed)
    ensures ReadsAs(FixedToString(f), f)
  {
    var u := NatToString(f.units);
    var c := [DigitChar(f.cents / 10), DigitChar(f.cents % 10)];
    assert FixedToString(f) == u + "." + c;
    ParsePointed(u, c);
    NatToStringValue(f.units);
    TwoDigitValue(c);
    assert Pad2(c) == c;
  }

  /** The formatted text reads back as the decimal itself when it has at
      most two fraction digits, and as the rounder's value otherwise. */
  lemma FormatReadsBack(d: Decimal, round: Rounder)
    requires AllAsciiDigits(d.whole) && AllAsciiDigits(d.frac)
    ensures ReadsAs(Format2(d, round), if |d.frac| <= 2 then ExactFixed(d) else round(d))
  {
    FixedReadsBack(if |d.frac| <= 2 then ExactFixed(d) else round(d));
  }
}
