# Problem Difficulty Analyzer — feature pipeline model

The Problem Difficulty Analyzer takes three text fields of a programming
problem: the description, the input section and the output section. It
predicts a difficulty class and a difficulty score. The fitted TF-IDF
vectorizer, classifier and regressor are opaque. The logic around them is
small, pure and exact, and this project models it in Dafny:

- `clean_text`, the normaliser applied before the vectorizer. It deletes
  `$`, lower-cases, turns newlines into spaces, collapses whitespace runs
  and strips. Its model is `Normalizer.CleanText`.
- the two integer counts under `extract_structural_features`: the
  `split()` word count and the `"."` count (`Extractors.WordCount`,
  `Extractors.PeriodCount`).
- `SPATIAL_WORDS` and `spatial_count`. This sums Python `str.count`
  substring occurrences of 22 terms in the lower-cased text, so `"y"`
  matches inside `"your"`. Its model is `Extractors.SpatialCount`.
- the integer under `fet2`: the largest value of a maximal digit run, or
  0 when there is none (`Extractors.MaxNumber`). `Extractors.Fet2` adds
  the two ways `fet2` raises. `int` refuses a run of more than 4300 digits,
  which is CPython's default `sys.int_max_str_digits` from 3.11 on.
  `np.log1p` refuses an integer of `2 ** 64` or more.
- `CLASS_RANGES` and `denormalize_score` (`Scores.Denormalize`). The class
  is looked up first, and an unknown class fails. The relative difficulty
  is clipped to [0, 1] and then placed linearly in the class's range.
- the handler of the Analyze button (`Pipeline.Analyze`). It refuses a
  blank description and builds `full_text = desc + " " + inp + " " + out`.
  It vectorises the cleaned text, runs the extractors on the raw text and
  lays the row out as `[text columns][words][periods][maxnum][spatial]`.
  It then classifies, regresses and denormalises. An exception from
  `fet2` ends the request before the models run.

Modules:

- `Chars`: the character classes. Whitespace is the full set Python uses
  for `str.split`, `str.strip` and regex `\s`.
- `CharRuns`: maximal runs of one character class. `split()` is runs of
  non-whitespace and `re.findall(r"\d+")` is runs of digits.
- `Strings`: the `str` methods used.
- `Normalizer`, `Extractors`, `Scores`, `Pipeline`: the four parts above.
- `Errors`: the failure outcomes. A blank description gets a warning and
  no prediction. `fet2` can raise `ValueError` or `TypeError`. An unknown
  class raises `KeyError` from the table. All of them are `Result` values,
  not preconditions.

The main characterisations proved against independent definitions:

- `clean_text` equals the `split()` words of the `$`-free, lower-cased
  text joined by single spaces. Its fixed points are exactly the strings
  in normal form, and it is idempotent.
- The word count equals a one-character scan that counts run starts.
- The period count equals the number of `'.'` characters.
- `fet2`'s maximum equals a single-pass digit scanner, and run values obey
  positional notation.
- `split()` and `re.findall(r"\d+")` return the maximal runs, at
  increasing positions that `CharRuns.Spans` computes.
- `str.count` is positive exactly when the term occurs, and it resumes
  after the leftmost occurrence.
- On [0, 1], `denormalize_score` is a bijection onto the class range.

## Model

| member | source | states |
|---|---|---|
| Chars.LowerChar | app.py:19 | lower-cases an ASCII capital by the fixed code offset, leaves every other character alone, and never returns a capital |
| Chars.DigitValue | app.py:50 | the value of one decimal digit is at most 9, and it is the digit whose character it is |
| Chars.DigitChar | app.py:50 | every value 0 to 9 has a digit character, and reading that character gives the value back |
| CharRuns.TakeWhile | app.py:21 | the leading run is a prefix, lies in the class, and is followed by a character outside it or by the end |
| CharRuns.Runs | app.py:26 | every maximal run returned is non-empty and lies wholly inside the character class |
| CharRuns.Filter | app.py:18 | keeps every class character as often as it occurs and drops every other character |
| CharRuns.Spans | app.py:26 | the positions of the maximal runs: each span is non-empty and in the class, cannot be extended on either side, and spans come left to right without touching |
| CharRuns.RunsAreSpans | app.py:26 | scanning from a run boundary, the k-th run is the slice of the text at the k-th span |
| CharRuns.RunsMaximal | app.py:50 | the runs of the whole text are exactly the slices at its maximal-run spans, in order of position |
| CharRuns.RunsCount | app.py:26-28 | the number of runs equals the number of positions where a run begins, counted by an independent one-character scan |
| CharRuns.RunsEmpty | app.py:26 | there is no run exactly when no character is in the class |
| CharRuns.RunsConcat | app.py:26 | the runs put back together are exactly the class characters of the text, in order |
| CharRuns.RunsAcrossSeparator | app.py:79 | a character outside the class splits the runs: the runs of `a + [c] + b` are those of `a` then those of `b` |
| CharRuns.RunsSameClass | app.py:20 | swapping characters outside the class for other characters outside it leaves the runs unchanged |
| CharRuns.RunsKeep | app.py:26 | a property of every character of the text holds of every character of every run |
| Strings.RemoveChar | app.py:18 | `replace("$", "")` leaves no `$` and keeps every other character as often as it occurs |
| Strings.Lower | app.py:19 | `lower()` keeps the length, leaves no capital and keeps every character that is not a capital |
| Strings.ReplaceChar | app.py:20 | `replace("\n", " ")` keeps the length, turns every `c` into `d`, leaves no `c` when they differ and keeps every other character |
| Strings.TrimLeft | app.py:21 | the left half of `strip()`: a suffix that does not begin with whitespace, and everything dropped is whitespace |
| Strings.TrimRight | app.py:21 | the right half of `strip()`: a prefix that does not end with whitespace, and everything dropped is whitespace |
| Strings.Strip | app.py:21 | `strip()` is a slice of the text that neither begins nor ends with whitespace, and everything cut off around it is whitespace |
| Strings.Split | app.py:26 | `split()` returns a list of non-empty words without whitespace |
| Strings.Join | app.py:21 | `" ".join` of a non-empty word list is as long as the words together plus one separator for each gap between them |
| Strings.StripBlank | app.py:75 | `s.strip()` is empty exactly when `s` is empty or all whitespace |
| Strings.TrimLeftSpaces | app.py:21 | stripping whitespace in front of text that starts with a non-space leaves that text |
| Strings.TrimRightSpaces | app.py:21 | stripping whitespace after text that ends with a non-space leaves that text |
| Strings.RemoveCharAbsent | app.py:18 | `replace("$", "")` leaves a string without `$` unchanged |
| Strings.LowerIdempotent | app.py:19 | lower-casing twice is lower-casing once |
| Strings.LowerNoUpper | app.py:19 | lower-casing leaves a string without capitals unchanged |
| Strings.LowerAppend | app.py:45 | lower-casing distributes over concatenation |
| Strings.JoinSingleSpaced | app.py:21 | `" ".join` of words gives a single-spaced string, which is empty only when there are no words |
| Strings.JoinSplit | app.py:21 | a single-spaced string is `" ".join` of its own `split()` |
| Strings.JoinAll | app.py:21 | a property of every word's characters that ' ' also has holds of every character of the join |
| Strings.Count | app.py:46 | the greedy non-overlapping count of a non-empty term finds at most as many occurrences as the term's length fits into the text's length |
| Strings.CountPositive | app.py:46 | the count of a non-empty term is positive exactly when the term occurs somewhere in the text |
| Strings.CountLeftmost | app.py:46 | the count takes the leftmost occurrence and resumes right after it |
| Strings.CountExamples | app.py:29 | `"aaa".count("aa") == 1`, `"abcab".count("ab") == 2` and `"ab".count("") == 3` |
| Strings.CountChar | app.py:29 | `count` of a one-character string is the number of times that character occurs |
| Strings.CountSuperadditive | app.py:46 | counting in `a + b` finds at least the occurrences in `a` plus those in `b` |
| Strings.CountAcrossSeparator | app.py:46 | a character the term lacks separates occurrences: the count in `a + [c] + b` is the count in `a` plus the count in `b` |
| Normalizer.CollapseWhitespace | app.py:21 | `re.sub(r"\s+", " ", ·)` is no longer than its input, empty only for empty input, starts with whitespace exactly when the input does, uses only ' ' as whitespace and never two in a row |
| Normalizer.CleanText | app.py:17-22 | `clean_text(t)` is the `split()` words of `t`, with `$` deleted and letters lower-cased, joined by single spaces; the newline step changes nothing |
| Normalizer.CollapseUnindented | app.py:21 | on text that does not start with whitespace, `re.sub(r"\s+", " ", ·)` gives the words joined by single spaces, plus one ' ' when the text ends in whitespace |
| Normalizer.CollapseShape | app.py:21 | `re.sub(r"\s+", " ", ·)` gives the words joined by single spaces, with one ' ' in place of leading and of trailing whitespace |
| Normalizer.StripPadded | app.py:21 | `strip()` removes whitespace padding from both ends of a single-spaced string |
| Normalizer.StripCollapse | app.py:21 | collapsing whitespace then stripping equals `" ".join(s.split())` |
| Normalizer.NewlineToSpace | app.py:20 | `replace("\n", " ")` swaps one whitespace character for another and keeps every other character, so the words are unchanged |
| Normalizer.CleanTextNormalForm | app.py:18-21 | the output has no `$`, no newline, no capital; its only whitespace is ' '; it has no leading, trailing or adjacent whitespace |
| Normalizer.CleanTextFixedPoint | app.py:17-22 | `clean_text(s) == s` exactly when `s` is in that normal form |
| Normalizer.CleanTextIdempotent | app.py:17-22 | `clean_text(clean_text(t)) == clean_text(t)` |
| Extractors.WordCount | app.py:26-28 | the word count is 0 exactly when the text is empty or all whitespace |
| Extractors.PeriodCount | app.py:29 | the period count is the number of '.' characters |
| Extractors.WordCountIsRunStarts | app.py:26-28 | the word count is the number of maximal non-whitespace runs, counted by a one-character scan |
| Extractors.WordCountJoin | app.py:26-28 | joining two texts with a space adds their word counts |
| Extractors.PeriodCountJoin | app.py:29 | joining two texts with a space adds their period counts |
| Extractors.SpatialWordsLowerCase | app.py:34-42 | the vocabulary has 22 non-empty terms, all already lower-case |
| Extractors.SpatialWordsHaveNoSpace | app.py:34-42 | no vocabulary term contains a space |
| Extractors.CountAll | app.py:46 | the sum over the vocabulary is at least the count of each single term |
| Extractors.SpatialCount | app.py:44-46 | `spatial_count` is at least the count of every vocabulary term in the lower-cased text |
| Extractors.SpatialCountIgnoresCase | app.py:44-46 | `spatial_count(t.lower()) == spatial_count(t)` |
| Extractors.SpatialCountLetters | app.py:41-46 | the count is at least the number of 'x' and 'y' letters of the lower-cased text, because single letters match inside words |
| Extractors.SpatialCountSuperadditive | app.py:44-46 | the count of `a + b` is at least the count of `a` plus the count of `b` |
| Extractors.SpatialCountJoin | app.py:44-46 | joining two texts with a space adds their spatial counts exactly |
| Extractors.CountAllSplit | app.py:46 | the sum over the vocabulary splits at any index into the sums over the two parts |
| Extractors.DigitRuns | app.py:50 | `re.findall(r"\d+")` returns non-empty all-digit runs, and none exactly when the text has no digit |
| Extractors.DecimalValue | app.py:50 | `int(d)` of a string of `n` digits is below `10 ** n` |
| Extractors.DecimalValueAppend | app.py:50 | positional notation: the value of `a + b` is the value of `a` shifted by `len(b)` places plus the value of `b` |
| Extractors.DecimalValueLeading | app.py:50 | a run's value is at least its leading digit times `10 ** (len - 1)` |
| Extractors.LeadingZero | app.py:50 | a leading zero does not change a run's value, as with `int("007")` |
| Extractors.Values | app.py:50 | `[int(n) for n in runs]` keeps one value per run, in order |
| Extractors.MaxOrZero | app.py:51 | `max(xs) if xs else 0`: 0 for no values, otherwise one of the values and no smaller than any |
| Extractors.MaxNumber | app.py:49-51 | the number is 0 when the text has no digit run and no smaller than the value of any run |
| Extractors.MaxNumberNoDigit | app.py:49-51 | with no digit in the text the result is 0 |
| Extractors.MaxNumberIsLargestRun | app.py:49-51 | with a digit in the text the result is the value of some maximal digit run and at least the value of every one |
| Extractors.ScanMaxAgrees | app.py:49-51 | a single left-to-right digit scanner finds the same maximum |
| Extractors.MaxOrZeroAppend | app.py:51 | the maximum over two lists is the larger of their maxima |
| Extractors.MaxNumberJoin | app.py:49-51 | a non-digit between two texts never merges numbers: the maximum is the larger of the parts' maxima |
| Extractors.DigitRunsWhole | app.py:50 | a text of digits only is a single run |
| Extractors.MaxNumberWhole | app.py:49-51 | the number of a text of digits only is its value |
| Extractors.MaxNumberFortyTwo | app.py:49-51 | the number of `"42"` is 42 |
| Extractors.MaxNumberExampleTail | app.py:49-51 | the number of `"x 42"` is 42 |
| Extractors.MaxNumberExample | app.py:49-51 | the number of `"3 x 42"` is 42 |
| Extractors.Fet2 | app.py:49-51 | `fet2` either fails or succeeds with the text's number, which is then below `2 ** 64`; its only failures are the digit limit and the too-large number |
| Extractors.Fet2Succeeds | app.py:49-51 | when every run has at most 19 digits, `fet2` succeeds with the largest number |
| Extractors.Fet2DigitLimit | app.py:50 | a run of more than 4300 digits makes `int` raise, whatever else the text holds |
| Extractors.DecimalValueTooLarge | app.py:51 | 21 or more digits without a leading zero, or 20 digits led by 2 or more, make a value of at least `2 ** 64` |
| Extractors.Fet2TooLarge | app.py:51 | with every run within the digit limit, such a run makes `np.log1p` raise |
| Extractors.Fet2Example | app.py:51 | twenty nines make `np.log1p` raise |
| Scores.Clip | app.py:62 | `np.clip(y, 0, 1)` lies in [0, 1], is `y` inside it, 0 below and 1 above |
| Scores.Denormalize | app.py:60-63 | the lookup fails with the class's name exactly when the class is not in the table, whatever `y_rel` is, and succeeds otherwise |
| Scores.RangesTile | app.py:54-58 | the table holds exactly easy, medium and hard; every range is non-empty; together they tile [1.1, 9.7] in that order |
| Scores.DenormalizeInRange | app.py:60-63 | a known class gets a score inside its `[lo, hi]` |
| Scores.DenormalizeSaturates | app.py:60-63 | `y_rel <= 0` gives `lo` and `y_rel >= 1` gives `hi` |
| Scores.DenormalizeMonotone | app.py:60-63 | a higher relative difficulty never gives a lower score |
| Scores.DenormalizeInverse | app.py:60-63 | on [0, 1], `(score - lo) / (hi - lo)` gives back `y_rel` |
| Scores.DenormalizeOnto | app.py:60-63 | every score in a class's range comes from some `y_rel` in [0, 1] |
| Scores.DenormalizeOrdersClasses | app.py:54-63 | an easy score never exceeds a medium one, and a medium score never exceeds a hard one |
| Scores.DenormalizeExamples | app.py:54-63 | the range ends, clipping on either side, a midpoint, and failure on a label whose case differs from the table's |
| Pipeline.FullText | app.py:79 | the combined text is the description, a space, the input section, a space and the output section, each field recoverable at its offset |
| Pipeline.FeatureRow | app.py:89-95 | the row is the text columns in order, then exactly log1p(words), log1p(periods), log1p(max number) and the raw spatial count |
| Pipeline.Analyze | app.py:74-104 | a prediction is produced only when the description has a non-whitespace character and the combined text's number fits `np.log1p` |
| Pipeline.AnalyzeRejectsBlank | app.py:75-76 | the request is refused as empty exactly when the description is empty or all whitespace, whatever the other fields and models are |
| Pipeline.AnalyzeOutcome | app.py:79-104 | with a non-blank description, an exception from `fet2` is the outcome; otherwise a known predicted class yields that class with the regressor's output denormalised in its range, and an unknown class yields the unknown-class error |
| Pipeline.AnalyzeShortNumbers | app.py:79-104 | when no number in the combined text has more than 19 digits, a non-blank request ends in a prediction or the unknown-class error |
| Pipeline.FullTextFeatures | app.py:79-87 | on the combined text, words, periods and spatial terms are the sums over the three fields, and the maximum number is the largest of the three fields' maxima |

## Left out

- The Streamlit page is not modelled: the title, text areas, button, the
  warning, the success message and the metric display (app.py:1, 65-74,
  102-104). Presentation I/O only.
- Loading the fitted models with `joblib` and caching them with
  `st.cache_resource` (app.py:8-15) are not modelled. This is file I/O and
  runtime caching.
- `tfidf.transform`, `clf.predict` and `reg.predict` (app.py:82, 98-99) are
  the function parameters of `Pipeline.Analyze`. Their fitted internals are
  not modelled.
- The sparse matrices of `hstack` and `csr_matrix` (app.py:91-95) are not
  modelled. The row is a sequence, so only the column order and contents
  are kept.
- `np.log1p` (app.py:28-29, 51) is not computed. `Pipeline.Column.Log1p(n)`
  stands for the floating-point value NumPy returns for the integer `n`.
  `fet2`'s `0.0` for no digits is `Log1p(0)`. Where `np.log1p` raises on
  an integer of `2 ** 64` or more is modelled (`Extractors.Fet2`). The
  word and period counts can never reach that size, so those two calls
  never raise.
- Extractors.Fet2: takes the digit limit to be CPython's default of 4300.
  A different `sys.int_max_str_digits`, or a Python before 3.11 without
  the limit, is not modelled.
- `round(…, 3)` on the reported score (app.py:104) is not modelled.
- Scores.Denormalize: exact real arithmetic stands in for floating point,
  so rounding in `lo + y*(hi - lo)` is not modelled. Neither is a NaN
  `y_rel`, which `np.clip` passes through.
- Chars.LowerChar: covers only the ASCII letters A-Z. Python's
  `str.lower` also maps other Unicode capitals, and some of those change
  length.
- Chars.IsDigit: covers only the ASCII digits 0-9. Python's `\d` and
  `int` also accept other Unicode decimal digits.
- Pipeline.Analyze: in the source, "Prediction Complete" and the predicted
  class are displayed before `denormalize_score` raises `KeyError` for an
  unknown class. The model returns only the error, because display order
  is presentation.
