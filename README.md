# Receipt reader: text extraction and database paging

This project is a Dafny model of two parts of a receipt scanner.

1. **Field extraction** (`detect_text_from_img` and `str_to_float` in
   `text_recognition.py`). The recogniser's text becomes a result record
   with three fields:
   - the date and time: the first `d.m.yyyy` token, then a space, then the
     first `h:mm[:ss]` token or `00:00`;
   - the price that sorts last as a string (so "9.00" beats "22.00"):
     found on the line of each price keyword (`summa`,
     `amount`, `yhteensä`, `yht`), keeping digits, points and commas, parsed
     as a float and formatted with two decimals;
   - the VAT: from the first occurrence of `alv`, `vat` and `%` on each
     line (the search resumes at that line's end).

   It also models the parse of the rotation hint from the orientation
   report.
2. **Database viewer paging** (`Database_window` in `image_gui.py`). This
   covers:
   - the page index;
   - the guards of `fill_rows`;
   - the label `refresh_page_text` builds, with `fetch_amount = 1000`
     from `db_helper.py`.

Modules:

| file | module | contents |
|---|---|---|
| python.dfy | `Python` | the Python string operations the code uses: `lower`, `strip`, `find`, `rfind`, slicing with negative ends, `in`, string `<`, `str` of an int |
| regex.dfy | `Regex` | the four regular expressions as matchers that try their alternatives in the same order as the regex engine, and `re.search` as the leftmost match |
| numbers.dfy | `Numbers` | the digit filter, `str_to_float` and the `{:.2f}` formatting |
| extractor.dfy | `Extractor` | the record, the rotation hint, the date and time field, the line arithmetic and the price loop |
| vat.dfy | `Vat` | one VAT read, the VAT update and the `while words_found` loop, as a step function with its runs |
| detect.dfy | `Detect` | the whole extraction after the OCR call |
| paging.dfy | `Paging` | the database window's paging state as a class |

Termination is modelled too. The VAT loop of the source can run forever, so
every outcome is `Returned`, `Raised` (a `ValueError` or an
`UnboundLocalError`) or `Diverges`. Each loop is specified by
`Vat.VatLoopEnds`, a predicate over the runs of the loop's step function.
`Vat.ScanVatKeyword` is an imperative loop proved against it. It reports
`Diverges` exactly when the loop reaches a state it can never leave.

Three things are not computed inside the model:
- floats are exact decimals;
- rounding to two decimals is a parameter (`Rounder`), used only for numbers
  with more than two fraction digits;
- the recognised text and the row count are parameters.

## Model

| member | source | states |
|---|---|---|
| Python.LowerChar | text_recognition.py:113 | `lower` on one Latin-1 character: an upper-case letter moves up by 32, every other character is kept, and the result is never upper case |
| Python.LowerKeepsMarks | text_recognition.py:148 | a character lowers to `%`, a newline or an ASCII digit exactly when it is that character |
| Python.LowerIdempotent | text_recognition.py:113 | lowering a lowered text changes nothing |
| Python.IsDigit | text_recognition.py:124 | `str.isdigit` on one Latin-1 character: the ASCII digits and ¹ ² ³ |
| Python.IsSpace | text_recognition.py:119 | `str.isspace` on one Latin-1 character |
| Python.IsWordChar | text_recognition.py:99 | the regex class `\w` on one Latin-1 character, which `\b` tests |
| Python.IsUpper | text_recognition.py:113 | the Latin-1 upper-case letters `lower` maps 32 code points up |
| Python.Lower | text_recognition.py:148 | `text.lower()` keeps the length and lowers each character |
| Python.LeadingSpaces | text_recognition.py:119 | left stripping removes exactly the longest prefix made of white space: what is left is the rest of the string and does not start with white space |
| Python.StripLeft | text_recognition.py:119 | left stripping: white space is dropped from the front |
| Python.StripRight | text_recognition.py:119 | right stripping: white space is dropped from the end |
| Python.Strip | text_recognition.py:119 | `strip()`: right stripping after left stripping |
| Python.KeptLength | text_recognition.py:155 | right stripping removes exactly the longest suffix made of white space: what is left is a prefix that does not end with white space |
| Python.StripIsInfix | text_recognition.py:157 | `strip()` gives a slice of its input with only white space cut on both sides, and the result starts and ends with something other than white space |
| Python.NormEnd | text_recognition.py:119 | a slice end, counted from the end when negative, always falls inside the string |
| Python.NormStart | text_recognition.py:148 | the start argument of `find`: a negative start counts from the end and is clamped at 0, a start past the end is kept |
| Python.Slice | text_recognition.py:119 | `s[i:j]`: both bounds normalised, empty when they cross |
| Python.Contains | text_recognition.py:156 | `c in s` for one character |
| Python.FindFrom | text_recognition.py:116 | a bounded search returns the first occurrence at or after the start, or -1 when none lies inside the bound |
| Python.Find | text_recognition.py:148 | `find(sub, start)` returns the first occurrence at or after the normalised start, and -1 exactly when there is none |
| Python.RFindFrom | text_recognition.py:115 | a backward search returns the last occurrence at or before `k` and not below `lo`, or -1 |
| Python.RFind | text_recognition.py:150 | `rfind(sub, start, end)` returns the last occurrence inside the normalised bounds, and nothing later in them occurs |
| Python.LexLess | text_recognition.py:136 | string `<`: code points compared lexicographically, a proper prefix being smaller |
| Python.LexLessIrreflexive | text_recognition.py:136 | string `<` is irreflexive |
| Python.LexLessAsymmetric | text_recognition.py:136 | string `<` is asymmetric |
| Python.LexLessTransitive | text_recognition.py:136 | string `<` is transitive |
| Python.LexLessTotal | text_recognition.py:179 | two different strings are ordered one way or the other |
| Python.NatToString | image_gui.py:332 | `str(n)` of a natural number is a non-empty digit string without a leading zero |
| Python.NatToStringValue | image_gui.py:334 | the digits `str(n)` prints read back as `n` |
| Python.IntToString | image_gui.py:332 | `str(i)` of any integer: a minus sign before the digits of a negative one |
| Python.DigitsValue | image_gui.py:332 | the number an ASCII digit string denotes |
| Python.DigitsValueBound | text_recognition.py:196 | a digit string of length `n` is worth less than 10^n |
| Regex.DateWith | text_recognition.py:99 | one reading of the date pattern, with a given number of day and month digits, ends inside the text |
| Regex.DateAt | text_recognition.py:99 | a date match at a position ends inside the text |
| Regex.TimeWith | text_recognition.py:103 | one reading of the time pattern, with a given number of hour digits, ends inside the text |
| Regex.TimeAt | text_recognition.py:103 | a time match at a position ends inside the text |
| Regex.WordBoundary | text_recognition.py:99 | `\b`: a word character on exactly one side of the position |
| Regex.VatShapes | text_recognition.py:160 | the VAT pattern has 24 readings |
| Regex.VatShapesOrder | text_recognition.py:160 | every reading lies in the pattern's ranges, and each is tried before all later ones: more whole digits first, then a separator before none, then more fraction digits, then `%` before ` %` |
| Regex.ShapeAtRank | text_recognition.py:160 | reading number i lies in the pattern's ranges and has rank i in the engine's order |
| Regex.RankOrder | text_recognition.py:160 | a reading of lower rank is tried before one of higher rank |
| Regex.VatFirstFit | text_recognition.py:160 | the reading found fits the text, and when none is found, no remaining reading fits |
| Regex.VatFirstFitIsFirst | text_recognition.py:160 | the reading found is the first from index i on that fits; every reading tried before it does not fit |
| Regex.VatAt | text_recognition.py:160 | a VAT match at a position ends inside the text |
| Regex.DigitRun | text_recognition.py:81 | the greedy `\d+` takes digits up to the first non-digit or the end |
| Regex.RotateAt | text_recognition.py:81 | a rotation match at a position ends inside the report |
| Regex.MatchAt | text_recognition.py:99-103 | a match of any of the four patterns at a position ends inside the text |
| Regex.Search | text_recognition.py:81 | `re.search` finds a match at the position it returns, none before it, and returns nothing only when there is no match at all |
| Regex.SearchIsFirstMatch | text_recognition.py:160 | the search succeeds exactly when some position matches, and it then returns the leftmost one |
| Regex.Token | text_recognition.py:162 | `match.group()`: the text the match at a position covers |
| Numbers.KeepNumeric | text_recognition.py:122-126 | the filtered text is no longer than its input and keeps only digits, points and commas |
| Numbers.CleanNumeric | text_recognition.py:165-169 | the character loop builds exactly the filtered text |
| Numbers.KeepNumericAppend | text_recognition.py:123-125 | filtering distributes over concatenation |
| Numbers.KeepNumericOfNumeric | text_recognition.py:166-168 | filtering a text made only of kept characters gives it back unchanged |
| Numbers.KeepNumericOfStripLeft | text_recognition.py:119 | left stripping does not change what the filter keeps |
| Numbers.KeepNumericOfStripRight | text_recognition.py:155 | right stripping does not change what the filter keeps |
| Numbers.KeepNumericOfStrip | text_recognition.py:119-125 | stripping before filtering makes no difference to the cleaned text |
| Numbers.IsNumericChar | text_recognition.py:124 | the characters the filter keeps: `isdigit` characters, `.` and `,` |
| Numbers.AllNumeric | text_recognition.py:122-126 | a text made only of characters the filter keeps |
| Numbers.ReplaceCommas | text_recognition.py:193-194 | `replace(",", ".")` keeps the length and turns each comma into a point, leaving every other character alone, so no comma is left |
| Numbers.HasSuperscriptIff | text_recognition.py:196 | the superscript test holds exactly when the text holds one of ¹ ² ³ |
| Numbers.HasSuperscript | text_recognition.py:196 | some character is ¹, ² or ³ |
| Numbers.ValidNumber | text_recognition.py:196 | the filtered texts `float` accepts after comma replacement: some ASCII digit, no superscript digit, at most one separator |
| Numbers.PointsBefore | text_recognition.py:196 | no point lies between the start of a search and the first point `find` returns, or the end when it returns -1 |
| Numbers.TwoSeparatorsInvalid | text_recognition.py:196 | a text with two separators is not a number `float` accepts |
| Numbers.OneSeparatorValid | text_recognition.py:196 | a text of digits with at most one separator and at least one digit is accepted, and its parts are ASCII digits |
| Numbers.SuperscriptCase | text_recognition.py:196 | a superscript digit makes `float` reject the text |
| Numbers.NoPointCase | text_recognition.py:192-196 | without a separator, a filtered text is accepted exactly when it is not empty, and it is then all ASCII digits |
| Numbers.TwoPointsCase | text_recognition.py:193-196 | when the comma-replaced text has a second point, `float` rejects it |
| Numbers.OnlySeparator | text_recognition.py:193-194 | the first point of the comma-replaced text, with no point after it, is the only separator of the original |
| Numbers.OnePointCase | text_recognition.py:192-196 | with exactly one separator, the text is accepted exactly when it has another character, and it splits around the point into ASCII digits |
| Numbers.PointSplit | text_recognition.py:196 | a text splits into the part before a point, the point and the part after it |
| Numbers.StrToFloat | text_recognition.py:192-196 | `str_to_float` succeeds exactly on valid numbers and otherwise raises `ValueError`; the value is the digits before and after the single point of the comma-replaced text |
| Numbers.Pad2 | text_recognition.py:130 | two-digit zero padding of a fraction keeps its digits |
| Numbers.TwoDigitValue | text_recognition.py:130 | a two-digit string is worth its tens digit times ten plus its units digit, below 100 |
| Numbers.ExactFixed | text_recognition.py:130 | the value of a decimal with at most two fraction digits, as units and cents |
| Numbers.ExactFixedValue | text_recognition.py:130 | that value in hundredths is the whole part times 100 plus the fraction digits scaled to two places, so the padding adds zeros |
| Numbers.FixedToString | text_recognition.py:130 | a value in cents prints with exactly two fraction digits |
| Numbers.TwoFractionDigits | text_recognition.py:130 | the shape `{:.2f}` prints: an integer without leading zero, a point and two digits |
| Numbers.Format2 | text_recognition.py:173 | `"{:.2f}".format` always gives digits, a point and two fraction digits |
| Numbers.FirstPointAfterDigits | text_recognition.py:196 | in digits, a point and more, the first point is right after the digits |
| Numbers.SplitAtPoint | text_recognition.py:196 | digits, a point and a tail split in one way only |
| Numbers.ParsePointed | text_recognition.py:192-196 | `str_to_float` of digits, a point and digits gives exactly those parts |
| Numbers.ReadsAs | text_recognition.py:192-196 | `str_to_float` reads a text as a number of at most two fraction digits with a given value |
| Numbers.FixedReadsBack | text_recognition.py:130 | every `{:.2f}` text reads back through `str_to_float` as the value it was printed from |
| Numbers.FormatReadsBack | text_recognition.py:130 | a formatted number reads back as the number itself when it has at most two fraction digits, and as the rounded value otherwise |
| Extractor.RotateHint | text_recognition.py:78-83 | the rotation is 0 when the report is missing or has no `Rotate: ` followed by digits; otherwise it is the value of the first such digit run |
| Extractor.TimeText | text_recognition.py:103-107 | the time part is the first time token, or `00:00` when the text has none |
| Extractor.DateTimeField | text_recognition.py:98-107 | the field is empty exactly when no date matches; otherwise it is the first date token, a space and the time part |
| Extractor.KeywordHit | text_recognition.py:113 | a keyword found in the lowered text lies inside the text, on a character other than a newline, which lowers to the keyword's first letter |
| Extractor.LineStartBounds | text_recognition.py:115 | the line start is 0 or just after a newline, at or before the hit, with no newline in between |
| Extractor.LineStart | text_recognition.py:115 | `text.rfind('\n', 0, index) + 1` |
| Extractor.LineEnd | text_recognition.py:116 | `text.find('\n', index)` |
| Extractor.LineEndBounds | text_recognition.py:116 | the line end is -1 or the first newline at or after the hit |
| Extractor.LineSlice | text_recognition.py:119 | the slice runs from the line start to the newline, or to one before the end when there is no newline |
| Extractor.LineText | text_recognition.py:119 | the stripped slice of the hit's line |
| Extractor.PriceCandidate | text_recognition.py:113-130 | a keyword gives nothing exactly when it is absent; it raises `ValueError` exactly when its line cleans to something `float` rejects; otherwise it gives a `{:.2f}` text that reads back as the line's number (exactly when that has at most two fraction digits, otherwise as its rounding) |
| Extractor.DigitlessPriceLineRaises | text_recognition.py:119-129 | a price keyword whose line has no ASCII digit makes that keyword's candidate raise `ValueError` |
| Extractor.DigitlessPriceLineAborts | text_recognition.py:110-129 | such a line under any of the code's price keywords makes the whole price loop raise `ValueError` |
| Extractor.NoDigitsKept | text_recognition.py:122-126 | filtering adds no digit to a text without one |
| Extractor.KeepLarger | text_recognition.py:133-137 | the price update gives the new price or keeps the old one, and the result sorts no lower (as a string) than either |
| Extractor.KeepLargerIsTextual | text_recognition.py:136 | prices compare as strings: "9.00" is kept over "22.00" |
| Extractor.PriceCandidates | text_recognition.py:111-112 | the candidates are those of the four keywords, in list order |
| Extractor.PriceFold | text_recognition.py:112-137 | the price loop over the candidates: the first raise ends it, each price goes through the update, and `formatted_price` keeps the last |
| Extractor.PriceResult | text_recognition.py:111-137 | the price loop over the four keywords from an empty record |
| Extractor.PriceFoldRaises | text_recognition.py:112-129 | the price loop raises exactly when some keyword raises, and then with the first such keyword's error |
| Extractor.PriceFoldIsMax | text_recognition.py:132-137 | after the loop the price is no smaller (as a string) than any candidate or the start, it is the start or one candidate, and `formatted_price` is the last candidate found |
| Extractor.PriceFoldFormatted | text_recognition.py:130-137 | the price loop keeps the price and `formatted_price` empty or in `{:.2f}` form |
| Extractor.PriceResultFacts | text_recognition.py:111-140 | the price loop raises only `ValueError`, and both its results are empty or `{:.2f}` texts |
| Extractor.ReadPrice | text_recognition.py:113-130 | one keyword's turn of the price loop computes the keyword's candidate |
| Extractor.ScanPrices | text_recognition.py:111-140 | the imperative price loop computes the fold of the candidates |
| Vat.StripKeepsLastChar | text_recognition.py:157 | stripping text that ends in something other than white space keeps that last character |
| Vat.PercentText | text_recognition.py:155-157 | the text a hit is read from: the stripped line, or the stripped slice up to the hit when the line contains `%` |
| Vat.NarrowedTextEndsAtHit | text_recognition.py:156-157 | when the line contains `%`, the narrowed text ends at the keyword's first character |
| Vat.NarrowedEndsAt | text_recognition.py:157 | the stripped slice up to and including a non-blank character ends with that character |
| Vat.VatNumberValid | text_recognition.py:160-172 | a number of 1-2 digits, an optional separator and 0-2 digits is accepted by `float` |
| Vat.VatNumberSplit | text_recognition.py:172 | the parsed VAT has as many whole and fraction digits as the token has before and after its separator (all whole digits when there is none) |
| Vat.SplitWithSeparator | text_recognition.py:172 | a token with a separator parses into exactly its whole and fraction digits |
| Vat.SplitWithoutSeparator | text_recognition.py:172 | a token without a separator parses into all its digits as the whole part and no fraction |
| Vat.DigitsHaveNoPoint | text_recognition.py:172 | a text of digits never equals a text with a point |
| Vat.VatNumberParses | text_recognition.py:160-172 | such a number parses, into the digit parts before and after the separator |
| Vat.VatFitShape | text_recognition.py:160 | the characters of a fitting reading have the reading's shape: digits and at most one separator |
| Vat.TailKeepsNothing | text_recognition.py:160-168 | the `%` or ` %` tail leaves nothing after filtering |
| Vat.VatFitDigits | text_recognition.py:160-169 | the filtered VAT token is the number's digits and separator alone |
| Vat.VatTokenParses | text_recognition.py:160-172 | a matched VAT token always parses: 1 to 4 whole digits (a separator can be missing), at most 2 fraction digits, worth less than 10000 |
| Vat.VatCandidate | text_recognition.py:155-173 | one occurrence yields a VAT exactly when the pattern matches somewhere in the (possibly narrowed) line, and the VAT is in `{:.2f}` form |
| Vat.VatCandidateValue | text_recognition.py:155-173 | the VAT an occurrence yields reads back as exactly the number of the first VAT token of its text, a value below 10000 |
| Vat.VatUpdate | text_recognition.py:176-180 | with no VAT set the update takes the new read; with a VAT set it raises `UnboundLocalError` exactly when no price keyword matched, and otherwise takes the new read exactly when the VAT so far sorts below the formatted price, keeping the VAT if not |
| Vat.VatUpdateIgnoresRead | text_recognition.py:179-180 | the update compares the price, not the new read: a larger read is dropped when the price is small, and a smaller read replaces a VAT below the price |
| Vat.VatStep | text_recognition.py:148-185 | one iteration of `while words_found`: stop when the keyword is not found, else move to the line end and update the VAT by the hit's candidate |
| Vat.StepOf | text_recognition.py:148-185 | that iteration as a function of the loop state |
| Vat.Run | text_recognition.py:147 | the loop state after n iterations |
| Vat.Ends | text_recognition.py:147-185 | how a loop ends: returning after some iterations, raising after some, or running on at every count |
| Vat.VatLoopEnds | text_recognition.py:145-186 | how the loop for one keyword ends from position 0 |
| Vat.RunEnded | text_recognition.py:147 | once a run of the loop has stopped or failed, more steps do not change it |
| Vat.RunStuckAt | text_recognition.py:147 | a state that steps to itself is kept forever from the step it is reached on |
| Vat.RunStuck | text_recognition.py:147 | a run that reaches a state stepping to itself runs forever |
| Vat.EndsUnique | text_recognition.py:147-185 | a loop ends in one way only |
| Vat.VatStepRunning | text_recognition.py:148-152 | a step that goes on found the keyword and moved the position to that line's newline |
| Vat.HitProgress | text_recognition.py:148-152 | a hit lies inside the text; the new position is a later newline or -1; -1 from the last character happens only for a one-letter keyword there |
| Vat.VatStepProgress | text_recognition.py:148-152 | each step that goes on moves to a later newline or to -1, and -1 from the last character needs a one-letter keyword there |
| Vat.VatStepDecreases | text_recognition.py:147-152 | each step that changes the state moves forward, or to -1, or (at -1) decreases a measure |
| Vat.VatFixedPoint | text_recognition.py:147-152 | the loop can only get stuck on `%` with position -1 in a text that ends in `%` |
| Vat.VatStepFails | text_recognition.py:176-179 | a step fails only with `UnboundLocalError`, when a VAT is set and there is no price |
| Vat.PricedLoopNeverRaises | text_recognition.py:179 | with a price set, the VAT loop never raises |
| Vat.PercentEndStep | text_recognition.py:148-152 | in a text ending in `%`, a step of the `%` loop that starts at or before the last character raises, or goes on without passing the last character |
| Vat.PercentEndKeepsHitting | text_recognition.py:147-152 | in a text ending in `%`, every run of the `%` loop has raised or is still going, never stopped |
| Vat.PercentEndNeverStops | text_recognition.py:144-185 | in a text ending in `%`, the `%` loop never returns, and with a price it runs forever |
| Vat.VatStepKeepsFormatted | text_recognition.py:173-180 | an iteration keeps the VAT empty or in `{:.2f}` form |
| Vat.VatIterationEnds | text_recognition.py:148-180 | one iteration keeps the VAT on stopping, fails only without a price, and keeps the VAT formatted |
| Vat.VatIterationMoves | text_recognition.py:148-185 | a running iteration either stays put (only at the `%` end of the text) or makes progress |
| Vat.EndsReturned | text_recognition.py:185 | a run that stops with a VAT is a loop that returns it |
| Vat.EndsRaised | text_recognition.py:179 | a run that fails is a loop that raises |
| Vat.ReadVat | text_recognition.py:150-173 | the read computes the line end and the VAT candidate of one occurrence |
| Vat.VatIteration | text_recognition.py:148-185 | one iteration of the loop body computes the step function |
| Vat.ScanVatKeyword | text_recognition.py:145-186 | the loop for one keyword ends as the step function's runs end; it raises only `UnboundLocalError` without a price, runs forever only on `%` in a text ending in `%`, and keeps the VAT formatted |
| Detect.VatChainUnique | text_recognition.py:143-188 | the three VAT loops in turn end in one way only |
| Detect.VatChain | text_recognition.py:143-188 | the three VAT loops in turn, each starting from the VAT the previous left |
| Detect.ChainStep | text_recognition.py:144 | the chain continues with the outcome of its first loop |
| Detect.ExtractsToUnique | text_recognition.py:95-189 | the extraction is deterministic |
| Detect.ExtractsTo | text_recognition.py:95-189 | the extraction's outcome: the price loop's exception, or the VAT chain's outcome with the record of date field, price and VAT |
| Detect.DetectText | text_recognition.py:95-189 | the extraction's outcome: only the price loop raises `ValueError`, and `UnboundLocalError` needs a missing price; it runs forever only when the text ends in `%`, and always then when a price keyword matched; the record holds the date field and formatted price and VAT |
| Paging.NextPageIndex | image_gui.py:306-315 | the page index moves by `direction` exactly when the page guard and the move guard hold and the index is positive |
| Paging.ShowsPage | image_gui.py:306 | the guard of `fill_rows`: a non-negative index within the rows and a non-empty table |
| Paging.MayMove | image_gui.py:313 | the move guard, read as `(A and B) or (C and D)` |
| Paging.FirstPageStays | image_gui.py:314 | from page 0 the index never moves |
| Paging.PageAfter | image_gui.py:304-315 | the page index after a sequence of button presses |
| Paging.AlwaysFirstPage | image_gui.py:245-315 | from the initial page 0, any sequence of page moves over any row counts stays on page 0 |
| Paging.PageUpper | image_gui.py:330-334 | the label's upper row is the end of the page cut at the count |
| Paging.PageLabel | image_gui.py:328-335 | the label text `first/upper of count` |
| Paging.PageLabelReadsBack | image_gui.py:328-335 | the label reads as the first row, the upper row (not past the count) and the count |
| Paging.DatabaseWindow.constructor | image_gui.py:245-262 | a new window is on page 0 with the label of page 0, or an empty label for an empty table |
| Paging.DatabaseWindow.FillRows | image_gui.py:304-325 | `fill_rows` moves the index as the guards say, refreshes the label only on a shown page, and keeps page 0 |
| Paging.DatabaseWindow.RefreshPageText | image_gui.py:328-335 | the label is `first/upper of count` for the current page, and the index is unchanged |
| Paging.Browse | image_gui.py:262-315 | a window opened and paged any number of times is on page 0 |

## Behaviour of the code

The model follows what the code does, including where that departs from
what its own comments and names describe:

- text_recognition.py:128-129 converts the cleaned price line with no guard.
  A price keyword whose line holds no ASCII digit therefore hands
  `str_to_float` a text with no ASCII digit (empty, or only points and
  commas). That raises `ValueError`, and no handler catches it
  (`Extractor.DigitlessPriceLineRaises`, `Extractor.DigitlessPriceLineAborts`).
- The comment at text_recognition.py:175 reads "apply new vat value if none
  or higher than previous", as the price comment at :132 does. The test at
  :179 compares `formatted_price`, not `formatted_vat`, with the VAT so far
  (`Vat.VatUpdateIgnoresRead`). When no price keyword matched,
  `formatted_price` was never assigned. So once a VAT is set, a later hit
  whose text yields a VAT token raises `UnboundLocalError`
  (`Vat.VatUpdate`). A hit whose text holds no token compares nothing and
  raises nothing.
- The comment at text_recognition.py:157 says "strip everything after %".
  The slice `text[line_start:index+1]` ends at the keyword's first
  character, not at the `%` (`Vat.NarrowedTextEndsAtHit`).
- The comment at text_recognition.py:148 says "find keywords starting from
  index(position)". Line 152 sets `position` to `line_end`, which is -1 on
  the last line. A search from -1 starts at the last character. A text that
  ends in `%` therefore makes the `%` loop find that same `%` again, for
  ever. With a price set this never ends. With no price, it raises exactly
  when the repeated hit yields a VAT token (the first such visit sets the
  VAT, the next raises), and it runs for ever otherwise
  (`Detect.DetectText`). In `"5%\n4%"`, for
  example, the repeated hit's text is `4` and holds no token, so the loop
  runs for ever without raising.
- The comment at image_gui.py:311 reads "get next X amount of rows", but the
  guard at :314 only moves a page index that is already positive, and the
  window starts on page 0. So the viewer never leaves the first page
  (`Paging.AlwaysFirstPage`).

## Left out

- The image side is not modelled: `preprocess`, the orientation and OCR
  calls, and the image rotation. The recognised text is a parameter of
  `Detect.DetectText`. The rotation of the image is not modelled. Only the
  parse of the rotation from the orientation report is
  (`Extractor.RotateHint`), with the missing report as `None`.
- Numbers.Format2: binary floating point is not modelled. Numbers are exact
  decimals. Rounding to two fraction digits is an arbitrary `Rounder`,
  applied only to numbers with more than two fraction digits. Values with at
  most two fraction digits are formatted exactly. Python agrees for any
  realistic amount: a double keeps every decimal of fifteen significant
  digits, so it keeps every amount below 10^13 with two fraction digits.
- Numbers.StrToFloat: only texts of digits, points and commas are
  modelled, because these are the only texts the callers pass. The rest of
  `float()`'s syntax (signs, exponents, `inf`, `nan`, underscores, white
  space) does not arise.
- Only Latin-1 text is modelled. `lower`, `isdigit` and `isspace` are
  modelled on Latin-1, with ¹ ² ³ as digits `float` rejects. Other Unicode
  case mappings and digits are left out.
- Paging.DatabaseWindow.FillRows: the guard `page_index <= count /
  fetch_amount` uses true division. It is modelled as `page_index * 1000 <=
  count`, which agrees with the float comparison for any realistic row
  count.
- The Tk widgets, `db.count()` and `db.get_rows` are not modelled. The count
  is a parameter, and the rows shown are not modelled.
- The result dictionary is modelled as three local variables and the
  `Receipt` record.
- Vat.ScanVatKeyword: the source's non-terminating loop is reported as the
  `Diverges` outcome. The model finds it when a step leaves the state
  unchanged; the lemmas show that this is the only way the loop can fail to
  end.
