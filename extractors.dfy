/** The numeric feature extractors, all applied to the raw (un-normalised)
    text: the counts behind `extract_structural_features`, `spatial_count`
    over the fixed spatial vocabulary, and the integer behind `fet2`. */
module Extractors {
  import opened Chars
  import opened CharRuns
  import opened Strings
  import opened Errors

  function Max(a: nat, b: nat): nat {
    if a >= b then a else b
  }

  // ----- extract_structural_features: the two counts under log1p -----

  /** `len(text.split())`: zero exactly when the text is empty or all
      whitespace. */
  function WordCount(text: string): (n: nat)
    ensures n == 0 <==> forall i :: 0 <= i < |text| ==> IsSpace(text[i])
  {
    RunsEmpty(text, NotSpace);
    |Split(text)|
  }

  /** `text.count(".")`: the number of '.' characters. */
  function PeriodCount(text: string): (n: nat)
    ensures n == multiset(text)['.']
  {
    CountChar(text, '.');
    Count(text, ".")
  }

  /** The word count is the number of maximal non-whitespace runs, counted
      by a one-character-at-a-time scan for run starts. */
  lemma WordCountIsRunStarts(text: string)
    ensures WordCount(text) == RunStarts(text, NotSpace, true)
  {
    RunsCount(text, NotSpace);
  }



  /** Joining two texts with a space adds their word counts: no word
      straddles the separator. */
  lemma WordCountJoin(a: string, b: string)
    ensures WordCount(a + " " + b) == WordCount(a) + WordCount(b)
  {
    RunsAcrossSeparator(a, ' ', b, NotSpace);
  }

  /** Joining two texts with a space adds their period counts. */
  lemma PeriodCountJoin(a: string, b: string)
    ensures PeriodCount(a + " " + b) == PeriodCount(a) + PeriodCount(b)
  {
  }

  // ----- spatial_count -----

  /** `SPATIAL_WORDS`. */
  const SpatialWords: seq<string> := [
    "grid", "matrix", "cell", "square",
    "row", "column",
    "coordinate", "position", "location",
    "distance", "path", "move", "step",
    "neighbor", "adjacent", "direction",
    "north", "south", "left", "right",
    "x", "y"
  ]

  /** `sum(s.count(w) for w in terms)`. */
  function CountAll(s: string, terms: seq<string>): (n: nat)
    ensures forall k :: 0 <= k < |terms| ==> Count(s, terms[k]) <= n
  {
    if terms == [] then 0
    else
      var rest := CountAll(s, terms[1..]);
      assert forall k :: 1 <= k < |terms| ==> terms[k] == terms[1..][k - 1];
      Count(s, terms[0]) + rest
  }

  /** `spatial_count(text)`: substring occurrences (not whole words) of each
      vocabulary term in the lower-cased text, summed. */
  function SpatialCount(text: string): (n: nat)
    ensures forall k :: 0 <= k < |SpatialWords| ==> Count(Lower(text), SpatialWords[k]) <= n
  {
    CountAll(Lower(text), SpatialWords)
  }

  /** The vocabulary has 22 non-empty terms, already in lower case, so that
      matching them against the lower-cased text ignores case. */
  lemma SpatialWordsLowerCase()
    ensures |SpatialWords| == 22
    ensures forall k :: 0 <= k < |SpatialWords| ==>
      SpatialWords[k] != [] && Lower(SpatialWords[k]) == SpatialWords[k]
  {
  }

  /** No vocabulary term contains a space. */
  lemma SpatialWordsHaveNoSpace()
    ensures forall k, i :: 0 <= k < |SpatialWords| && 0 <= i < |SpatialWords[k]| ==>
      SpatialWords[k][i] != ' '
  {
  }

  lemma {:induction false} CountAllAcrossSeparator(a: string, c: char, b: string, terms: seq<string>)
    requires forall k :: 0 <= k < |terms| ==> terms[k] != []
    requires forall k, i :: 0 <= k < |terms| && 0 <= i < |terms[k]| ==> terms[k][i] != c
    ensures CountAll(a + [c] + b, terms) == CountAll(a, terms) + CountAll(b, terms)
    decreases |terms|
  {
    if terms != [] {
      CountAcrossSeparator(a, c, b, terms[0]);
      CountAllAcrossSeparator(a, c, b, terms[1..]);
    }
  }

  /** Joining two texts with a space adds their spatial counts: no term
      contains a space, so no occurrence straddles the separator. */
  lemma SpatialCountJoin(a: string, b: string)
    ensures SpatialCount(a + " " + b) == SpatialCount(a) + SpatialCount(b)
  {
    LowerAppend(a + " ", b);
    LowerAppend(a, " ");
    assert Lower(" ") == [' '];
    assert Lower(a + " " + b) == Lower(a) + [' '] + Lower(b);
    SpatialWordsLowerCase();
    SpatialWordsHaveNoSpace();
    CountAllAcrossSeparator(Lower(a), ' ', Lower(b), SpatialWords);
  }

  /** The spatial count ignores case. */
  lemma SpatialCountIgnoresCase(text: string)
    ensures SpatialCount(Lower(text)) == SpatialCount(text)
  {
    LowerIdempotent(text);
  }

  lemma {:induction false} CountAllSplit(s: string, terms: seq<string>, k: nat)
    requires k <= |terms|
    ensures CountAll(s, terms) == CountAll(s, terms[..k]) + CountAll(s, terms[k..])
    decreases k
  {
    if k > 0 {
      assert terms[..k][1..] == terms[1..][..k - 1];
      assert terms[k..] == terms[1..][k - 1..];
      CountAllSplit(s, terms[1..], k - 1);
    } else {
      assert terms[k..] == terms;
    }
  }

  /** The single-letter terms "x" and "y" match inside any word: the spatial
      count is at least the number of 'x' and 'y' letters in the text, in
      either case. */
  lemma SpatialCountLetters(text: string)
    ensures SpatialCount(text) >= multiset(Lower(text))['x'] + multiset(Lower(text))['y']
  {
    var s := Lower(text);
    CountAllSplit(s, SpatialWords, 20);
    assert SpatialWords[20..] == ["x", "y"];
    assert CountAll(s, ["x", "y"]) == Count(s, "x") + Count(s, "y") by {
      assert ["x", "y"][1..] == ["y"];
      assert ["y"][1..] == [];
      assert CountAll(s, ["y"]) == Count(s, "y") + CountAll(s, []);
    }
    CountChar(s, 'x');
    CountChar(s, 'y');
  }

  lemma {:induction false} CountAllSuperadditive(a: string, b: string, terms: seq<string>)
    requires forall k :: 0 <= k < |terms| ==> terms[k] != []
    ensures CountAll(a, terms) + CountAll(b, terms) <= CountAll(a + b, terms)
    decreases |terms|
  {
    if terms != [] {
      CountSuperadditive(a, b, terms[0]);
      CountAllSuperadditive(a, b, terms[1..]);
    }
  }

  /** The spatial count of a concatenation is at least the sum of the parts'
      counts; it is larger only where a term straddles the seam. */
  lemma SpatialCountSuperadditive(a: string, b: string)
    ensures SpatialCount(a) + SpatialCount(b) <= SpatialCount(a + b)
  {
    LowerAppend(a, b);
    SpatialWordsLowerCase();
    CountAllSuperadditive(Lower(a), Lower(b), SpatialWords);
  }

  // ----- fet2: the largest integer written in the text -----

  /** `re.findall(r"\d+", text)`: the maximal digit runs. */
  function DigitRuns(text: string): (runs: seq<string>)
    ensures forall k :: 0 <= k < |runs| ==> runs[k] != [] && All(runs[k], IsDigit)
    ensures runs == [] <==> forall i :: 0 <= i < |text| ==> !IsDigit(text[i])
  {
    RunsEmpty(text, IsDigit);
    Runs(text, IsDigit)
  }

  /** `10 ** n`. */
  function Pow10(n: nat): (p: nat)
    ensures p >= 1
  {
    if n == 0 then 1 else 10 * Pow10(n - 1)
  }

  /** `int(d)` for a string of decimal digits (leading zeros allowed): a
      value with `|d|` digits is below `10 ** |d|`. */
  function DecimalValue(d: string): (v: nat)
    requires All(d, IsDigit)
    ensures v < Pow10(|d|)
  {
    if d == [] then 0
    else
      var v' := DecimalValue(d[..|d| - 1]);
      assert v' * 10 <= (Pow10(|d| - 1) - 1) * 10;
      v' * 10 + DigitValue(d[|d| - 1])
  }

  /** `[int(n) for n in runs]`. */
  function Values(runs: seq<string>): (vs: seq<nat>)
    requires forall k :: 0 <= k < |runs| ==> All(runs[k], IsDigit)
    ensures |vs| == |runs|
    ensures forall k :: 0 <= k < |runs| ==> vs[k] == DecimalValue(runs[k])
  {
    if runs == [] then [] else [DecimalValue(runs[0])] + Values(runs[1..])
  }

  /** `max(xs) if xs else 0`. */
  function MaxOrZero(xs: seq<nat>): (m: nat)
    ensures xs == [] ==> m == 0
    ensures xs != [] ==> m in xs
    ensures forall k :: 0 <= k < |xs| ==> xs[k] <= m
  {
    if xs == [] then 0
    else if |xs| == 1 then xs[0]
    else Max(xs[0], MaxOrZero(xs[1..]))
  }

  /** The integer whose `log1p` `fet2` returns: the largest value of a maximal
      digit run, or 0 when the text has no digit. */
  function MaxNumber(text: string): (m: nat)
    ensures DigitRuns(text) == [] ==> m == 0
    ensures forall k :: 0 <= k < |DigitRuns(text)| ==> DecimalValue(DigitRuns(text)[k]) <= m
  {
    MaxOrZero(Values(DigitRuns(text)))
  }

  /** A single left-to-right scan: `cur` is the value of the digit run being
      read (0 outside a run), `best` the largest run value completed so far. */
  function ScanMax(s: string, cur: nat, best: nat): nat {
    if s == [] then Max(best, cur)
    else if IsDigit(s[0]) then ScanMax(s[1..], cur * 10 + DigitValue(s[0]), best)
    else ScanMax(s[1..], 0, Max(best, cur))
  }

  /** With no digit in the text the result is 0. */
  lemma MaxNumberNoDigit(text: string)
    requires forall i :: 0 <= i < |text| ==> !IsDigit(text[i])
    ensures MaxNumber(text) == 0
  {
    RunsEmpty(text, IsDigit);
  }

  /** With some digit in the text the result is the value of one of its
      maximal digit runs, and no run has a larger value. */
  lemma MaxNumberIsLargestRun(text: string)
    requires exists i :: 0 <= i < |text| && IsDigit(text[i])
    ensures var runs := DigitRuns(text);
      && (exists k :: 0 <= k < |runs| && MaxNumber(text) == DecimalValue(runs[k]))
      && (forall k :: 0 <= k < |runs| ==> DecimalValue(runs[k]) <= MaxNumber(text))
  {
    RunsEmpty(text, IsDigit);
    var runs := DigitRuns(text);
    var vs := Values(runs);
    assert vs != [];
    var k :| 0 <= k < |vs| && vs[k] == MaxOrZero(vs);
    assert MaxNumber(text) == DecimalValue(runs[k]);
  }

  /** Leading zeros do not change a run's value, as with `int("007")`. */
  lemma {:induction false} LeadingZero(d: string)
    requires All(d, IsDigit)
    ensures DecimalValue(['0'] + d) == DecimalValue(d)
    decreases |d|
  {
    if d != [] {
      var d' := d[..|d| - 1];
      assert (['0'] + d)[..|d|] == ['0'] + d';
      LeadingZero(d');
    }
  }

  /** Reading the digits `d` continues the run value `DecimalValue(p)`. */
  lemma {:induction false} ScanDigits(p: string, d: string, rest: string, best: nat)
    requires All(p, IsDigit) && All(d, IsDigit)
    ensures All(p + d, IsDigit)
    ensures ScanMax(d + rest, DecimalValue(p), best) == ScanMax(rest, DecimalValue(p + d), best)
    decreases |d|
  {
    if d == [] {
      assert p + d == p;
      assert d + rest == rest;
    } else {
      var p' := p + [d[0]];
      assert p'[..|p'| - 1] == p;
      assert (d + rest)[1..] == d[1..] + rest;
      assert p' + d[1..] == p + d;
      ScanDigits(p', d[1..], rest, best);
    }
  }

  lemma MaxOrZeroCons(x: nat, xs: seq<nat>)
    ensures MaxOrZero([x] + xs) == Max(x, MaxOrZero(xs))
  {
    assert ([x] + xs)[1..] == xs;
  }

  /** The single-pass scanner finds the same number as `fet2`'s
      `max(int(n) for n in re.findall(r"\d+", text))`. */
  lemma {:induction false} ScanMaxAgrees(s: string, best: nat)
    ensures ScanMax(s, 0, best) == Max(best, MaxNumber(s))
    decreases |s|
  {
    if s == [] {
    } else if !IsDigit(s[0]) {
      ScanMaxAgrees(s[1..], best);
    } else {
      var d := TakeWhile(s, IsDigit);
      var rest := s[|d|..];
      assert s == d + rest;
      assert [] + d == d;
      ScanDigits([], d, rest, best);
      assert DigitRuns(s) == [d] + DigitRuns(rest);
      assert Values(DigitRuns(s)) == [DecimalValue(d)] + Values(DigitRuns(rest));
      MaxOrZeroCons(DecimalValue(d), Values(DigitRuns(rest)));
      if rest == [] {
      } else {
        assert !IsDigit(rest[0]);
        assert DigitRuns(rest) == DigitRuns(rest[1..]);
        ScanMaxAgrees(rest[1..], Max(best, DecimalValue(d)));
      }
    }
  }

  lemma {:induction false} ValuesAppend(xs: seq<string>, ys: seq<string>)
    requires forall k :: 0 <= k < |xs| ==> All(xs[k], IsDigit)
    requires forall k :: 0 <= k < |ys| ==> All(ys[k], IsDigit)
    ensures Values(xs + ys) == Values(xs) + Values(ys)
  {
  }

  lemma {:induction false} MaxOrZeroAppend(xs: seq<nat>, ys: seq<nat>)
    ensures MaxOrZero(xs + ys) == Max(MaxOrZero(xs), MaxOrZero(ys))
    decreases |xs|
  {
    if xs == [] {
      assert xs + ys == ys;
    } else {
      assert xs + ys == [xs[0]] + (xs[1..] + ys);
      assert xs == [xs[0]] + xs[1..];
      MaxOrZeroCons(xs[0], xs[1..] + ys);
      MaxOrZeroCons(xs[0], xs[1..]);
      MaxOrZeroAppend(xs[1..], ys);
    }
  }

  /** Joining two texts with a non-digit never merges numbers: the largest
      number of the whole is the larger of the parts' largest numbers. */
  lemma MaxNumberJoin(a: string, c: char, b: string)
    requires !IsDigit(c)
    ensures MaxNumber(a + [c] + b) == Max(MaxNumber(a), MaxNumber(b))
  {
    RunsAcrossSeparator(a, c, b, IsDigit);
    ValuesAppend(DigitRuns(a), DigitRuns(b));
    MaxOrZeroAppend(Values(DigitRuns(a)), Values(DigitRuns(b)));
  }

  lemma Pow10Monotone(m: nat, n: nat)
    requires m <= n
    ensures Pow10(m) <= Pow10(n)
    decreases n
  {
    if m < n {
      Pow10Monotone(m, n - 1);
    }
  }

  lemma Pow10Add(m: nat, n: nat)
    ensures Pow10(m + n) == Pow10(m) * Pow10(n)
    decreases n
  {
    if n > 0 {
      Pow10Add(m, n - 1);
      assert Pow10(m) * (10 * Pow10(n - 1)) == 10 * (Pow10(m) * Pow10(n - 1));
    }
  }

  /** One more digit on the right: `x` shifted by `n + 1` places plus the
      new lower part. */
  lemma ShiftStep(x: nat, p: nat, y: nat, c: nat)
    ensures (x * p + y) * 10 + c == x * (10 * p) + (y * 10 + c)
  {
  }

  /** Positional notation: the digits of `a` followed by those of `b` read
      as `a`'s value shifted by `|b|` places plus `b`'s value. */
  lemma {:induction false} DecimalValueAppend(a: string, b: string)
    requires All(a, IsDigit) && All(b, IsDigit)
    ensures All(a + b, IsDigit)
    ensures DecimalValue(a + b) == DecimalValue(a) * Pow10(|b|) + DecimalValue(b)
    decreases |b|
  {
    AllAppend(a, b, IsDigit);
    if b == [] {
      assert a + b == a;
    } else {
      var b' := b[..|b| - 1];
      var c := DigitValue(b[|b| - 1]);
      assert (a + b)[..|a + b| - 1] == a + b';
      assert (a + b)[|a + b| - 1] == b[|b| - 1];
      DecimalValueAppend(a, b');
      assert DecimalValue(a + b) == DecimalValue(a + b') * 10 + c;
      assert DecimalValue(b) == DecimalValue(b') * 10 + c;
      ShiftStep(DecimalValue(a), Pow10(|b'|), DecimalValue(b'), c);
    }
  }

  /** A run's value is at least its leading digit times `10 ** (|d| - 1)`,
      so a run whose leading digit is not 0 has a value of `|d|` digits. */
  lemma DecimalValueLeading(d: string)
    requires All(d, IsDigit) && d != []
    ensures DecimalValue(d) >= DigitValue(d[0]) * Pow10(|d| - 1)
  {
    var head, tail := d[..1], d[1..];
    assert d == head + tail;
    assert head[..0] == [];
    assert DecimalValue(head) == DigitValue(d[0]);
    DecimalValueAppend(head, tail);
  }

  /** An all-digit text is a single run. */
  lemma DigitRunsWhole(d: string)
    requires d != [] && All(d, IsDigit)
    ensures DigitRuns(d) == [d]
  {
    assert d + [] == d;
    TakeWhileExact(d, [], IsDigit);
    assert IsDigit(d[0]);
    assert TakeWhile(d, IsDigit) == d;
    assert Runs(d, IsDigit) == [d] + Runs(d[|d|..], IsDigit);
    assert d[|d|..] == [];
  }

  /** The number of an all-digit text is its value. */
  lemma MaxNumberWhole(d: string)
    requires d != [] && All(d, IsDigit)
    ensures MaxNumber(d) == DecimalValue(d)
  {
    DigitRunsWhole(d);
    assert Values([d]) == [DecimalValue(d)];
  }

  /** `fet2("42")` takes the log of 42. */
  lemma MaxNumberFortyTwo()
    ensures MaxNumber("42") == 42
  {
    MaxNumberWhole("42");
    assert "42"[..1] == "4" && "4"[..0] == [];
  }

  /** `fet2("x 42")` takes the log of 42: a letter has no number. */
  lemma MaxNumberExampleTail()
    ensures MaxNumber("x 42") == 42
  {
    var x, fortyTwo := "x", "42";
    MaxNumberFortyTwo();
    MaxNumberNoDigit(x);
    MaxNumberJoin(x, ' ', fortyTwo);
    assert "x 42" == x + [' '] + fortyTwo;
  }

  /** `fet2("3 x 42")` takes the log of 42: the larger run wins. */
  lemma MaxNumberExample()
    ensures MaxNumber("3 x 42") == 42
  {
    var three, tail := "3", "x 42";
    MaxNumberExampleTail();
    MaxNumberWhole(three);
    assert three[..0] == [];
    MaxNumberJoin(three, ' ', tail);
    assert "3 x 42" == three + [' '] + tail;
  }

  // ----- fet2's failure modes -----

  /** CPython's default `sys.int_max_str_digits`: `int(n)` raises
      `ValueError` for a string of more digits than this. */
  const MaxStrDigits: nat := 4300

  /** `np.log1p` takes a Python `int` as `uint64` at most; from `2 ** 64` on
      the argument becomes an object array and the call raises `TypeError`. */
  const UInt64Limit: nat := 0x1_0000_0000_0000_0000

  /** `fet2(text)` as the integer it takes the log of, or the exception it
      raises: first every run is converted with `int`, then the largest is
      handed to `np.log1p`. */
  function Fet2(text: string): (r: Result<nat>)
    ensures r.Ok? ==> r.value == MaxNumber(text) && r.value < UInt64Limit
    ensures r.Err? ==> r.error == DigitLimitExceeded || r.error == NumberTooLarge
  {
    var runs := DigitRuns(text);
    if exists k :: 0 <= k < |runs| && |runs[k]| > MaxStrDigits then Err(DigitLimitExceeded)
    else if MaxNumber(text) >= UInt64Limit then Err(NumberTooLarge)
    else Ok(MaxNumber(text))
  }

  lemma Pow10Values()
    ensures Pow10(19) == 10_000_000_000_000_000_000
    ensures Pow10(20) == 100_000_000_000_000_000_000
  {
    Pow10Add(2, 2);
    Pow10Add(4, 4);
    Pow10Add(9, 9);
  }

  /** Numbers of at most 19 digits always fit: `fet2` succeeds with the
      largest of them. */
  lemma Fet2Succeeds(text: string)
    requires forall k :: 0 <= k < |DigitRuns(text)| ==> |DigitRuns(text)[k]| <= 19
    ensures Fet2(text) == Ok(MaxNumber(text))
  {
    var runs := DigitRuns(text);
    Pow10Values();
    if runs == [] {
    } else {
      assert exists i :: 0 <= i < |text| && IsDigit(text[i]) by {
        RunsEmpty(text, IsDigit);
      }
      MaxNumberIsLargestRun(text);
      var k :| 0 <= k < |runs| && MaxNumber(text) == DecimalValue(runs[k]);
      Pow10Monotone(|runs[k]|, 19);
    }
  }

  /** A run longer than the conversion limit makes `int` raise, whatever
      else the text holds. */
  lemma Fet2DigitLimit(text: string, k: nat)
    requires k < |DigitRuns(text)| && |DigitRuns(text)[k]| > MaxStrDigits
    ensures Fet2(text) == Err(DigitLimitExceeded)
  {
  }

  /** A digit string of 21 digits or more without a leading zero, or of 20
      digits led by 2 or more, has a value of at least `2 ** 64`. */
  lemma DecimalValueTooLarge(d: string)
    requires All(d, IsDigit)
    requires (|d| >= 21 && d[0] != '0') || (|d| == 20 && d[0] >= '2')
    ensures DecimalValue(d) >= UInt64Limit
  {
    var lead, p := DigitValue(d[0]), Pow10(|d| - 1);
    DecimalValueLeading(d);
    Pow10Values();
    if |d| >= 21 {
      Pow10Monotone(20, |d| - 1);
      MulAtLeast(lead, 1, p);
    } else {
      MulAtLeast(lead, 2, p);
    }
  }

  lemma MulAtLeast(a: nat, c: nat, b: nat)
    requires a >= c
    ensures a * b >= c * b
  {
  }

  /** A run within the conversion limit whose value is `2 ** 64` or more
      makes `np.log1p` raise: 21 digits or more without a leading zero, or
      20 digits led by 2 or more. */
  lemma Fet2TooLarge(text: string, k: nat)
    requires forall j :: 0 <= j < |DigitRuns(text)| ==> |DigitRuns(text)[j]| <= MaxStrDigits
    requires k < |DigitRuns(text)|
    requires var d := DigitRuns(text)[k];
      (|d| >= 21 && d[0] != '0') || (|d| == 20 && d[0] >= '2')
    ensures Fet2(text) == Err(NumberTooLarge)
  {
    var runs := DigitRuns(text);
    DecimalValueTooLarge(runs[k]);
    assert Values(runs)[k] == DecimalValue(runs[k]);
    assert MaxNumber(text) >= DecimalValue(runs[k]);
  }

  /** Twenty nines, `"99999999999999999999"`, are a number too large for
      `np.log1p`. */
  lemma Fet2Example()
    ensures Fet2(seq(20, i => '9')) == Err(NumberTooLarge)
  {
    var d := seq(20, i => '9');
    assert DigitRuns(d) == [d] by {
      assert All(d, IsDigit);
      DigitRunsWhole(d);
    }
    Fet2TooLarge(d, 0);
  }
}
