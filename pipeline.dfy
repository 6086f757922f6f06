/** The request handler behind the Analyze button: the blank-description
    guard, the combined text, the feature row, and the two predictions. The
    fitted TF-IDF vectorizer, classifier and regressor are parameters. */
module Pipeline {
  import opened Chars
  import opened Errors
  import opened Strings
  import opened Normalizer
  import opened Extractors
  import opened Scores

  /** One column of the feature row. `np.log1p` is kept symbolic: `Log1p(n)`
      stands for the floating-point log(1 + n) NumPy computes. `fet2` returns
      `0.0` when the text has no digit, which is `Log1p(0)`. */
  datatype Column =
    | Weight(w: real)   // a TF-IDF weight of the cleaned text
    | Log1p(n: nat)     // log(1 + n) of an integer feature
    | Raw(n: nat)       // an integer feature as is

  /** A predicted class together with its denormalised score. */
  datatype Prediction = Prediction(cls: string, score: real)

  /** `f"{desc} {inp} {out}"`: the three fields in order, each followed by
      one ' ' except the last. */
  function FullText(desc: string, inp: string, out: string): (t: string)
    ensures |t| == |desc| + |inp| + |out| + 2
    ensures t[..|desc|] == desc && t[|desc|] == ' '
    ensures t[|desc| + 1..|desc| + 1 + |inp|] == inp && t[|desc| + 1 + |inp|] == ' '
    ensures t[|desc| + |inp| + 2..] == out
  {
    desc + " " + inp + " " + out
  }

  /** `X_final`: the vectorizer's columns for the cleaned text, then
      `log1p(words)`, `log1p(periods)`, `fet2` and the raw spatial count, all
      four taken from the uncleaned text. */
  function FeatureRow(weights: seq<real>, text: string): (row: seq<Column>)
    ensures |row| == |weights| + 4
    ensures forall i :: 0 <= i < |weights| ==> row[i] == Weight(weights[i])
    ensures row[|weights|..] == [
      Log1p(WordCount(text)), Log1p(PeriodCount(text)),
      Log1p(MaxNumber(text)), Raw(SpatialCount(text))]
  {
    seq(|weights|, i requires 0 <= i < |weights| => Weight(weights[i]))
      + [Log1p(WordCount(text)), Log1p(PeriodCount(text)),
         Log1p(MaxNumber(text)), Raw(SpatialCount(text))]
  }

  /** One press of Analyze. A description that `strip()`s to nothing is
      refused before anything is computed. Otherwise `fet2` may raise on the
      combined text; if it does not, the row is built, the classifier picks a
      class, the regressor a relative difficulty, and the relative difficulty
      is denormalised in the chosen class's range; a class outside the table
      fails there. */
  function Analyze(desc: string, inp: string, out: string,
                   vectorize: string -> seq<real>,
                   classify: seq<Column> -> string,
                   regress: seq<Column> -> real): (r: Result<Prediction>)
    ensures r.Ok? ==> exists i :: 0 <= i < |desc| && !IsSpace(desc[i])
    ensures r.Ok? ==> MaxNumber(FullText(desc, inp, out)) < UInt64Limit
  {
    if Strip(desc) == [] then Err(EmptyDescription)
    else
      var text := FullText(desc, inp, out);
      match Fet2(text)
      case Err(e) => Err(e)
      case Ok(_) =>
        var row := FeatureRow(vectorize(CleanText(text)), text);
        var cls := classify(row);
        match Denormalize(regress(row), cls)
        case Err(e) => Err(e)
        case Ok(score) => Ok(Prediction(cls, score))
  }

  /** The request is refused as empty exactly when the description is empty
      or all whitespace, whatever the other two fields hold and whatever the
      fitted models do. */
  lemma AnalyzeRejectsBlank(desc: string, inp: string, out: string,
                            vectorize: string -> seq<real>,
                            classify: seq<Column> -> string,
                            regress: seq<Column> -> real)
    ensures Analyze(desc, inp, out, vectorize, classify, regress) == Err(EmptyDescription)
      <==> forall i :: 0 <= i < |desc| ==> IsSpace(desc[i])
  {
    StripBlank(desc);
    if Strip(desc) != [] {
      var text := FullText(desc, inp, out);
      if Fet2(text).Ok? {
        var row := FeatureRow(vectorize(CleanText(text)), text);
        var r := Denormalize(regress(row), classify(row));
        assert r.Err? ==> r.error.UnknownClass?;
      }
    }
  }

  /** With a non-blank description: `fet2`'s exception, if it raises, is the
      outcome; otherwise the models see the feature row of the combined text,
      and the result is the predicted class with the regressor's output
      denormalised in that class's range (so inside the range) when the class
      is in the table, and an unknown-class error otherwise. */
  lemma AnalyzeOutcome(desc: string, inp: string, out: string,
                       vectorize: string -> seq<real>,
                       classify: seq<Column> -> string,
                       regress: seq<Column> -> real)
    requires exists i :: 0 <= i < |desc| && !IsSpace(desc[i])
    ensures var text := FullText(desc, inp, out);
      var row := FeatureRow(vectorize(CleanText(text)), text);
      var cls := classify(row);
      var r := Analyze(desc, inp, out, vectorize, classify, regress);
      && (Fet2(text).Err? ==> r == Err(Fet2(text).error))
      && (Fet2(text).Ok? && cls in ClassRanges ==>
            && r == Ok(Prediction(cls, Denormalize(regress(row), cls).value))
            && ClassRanges[cls].lo <= r.value.score <= ClassRanges[cls].hi)
      && (Fet2(text).Ok? && cls !in ClassRanges ==> r == Err(UnknownClass(cls)))
  {
    StripBlank(desc);
    var text := FullText(desc, inp, out);
    var row := FeatureRow(vectorize(CleanText(text)), text);
    var cls := classify(row);
    if cls in ClassRanges {
      DenormalizeInRange(regress(row), cls);
    }
  }

  /** A combined text whose numbers all have at most 19 digits never makes
      `fet2` raise, so a non-blank request then ends with a prediction or an
      unknown-class error only. */
  lemma AnalyzeShortNumbers(desc: string, inp: string, out: string,
                            vectorize: string -> seq<real>,
                            classify: seq<Column> -> string,
                            regress: seq<Column> -> real)
    requires exists i :: 0 <= i < |desc| && !IsSpace(desc[i])
    requires var runs := DigitRuns(FullText(desc, inp, out));
      forall k :: 0 <= k < |runs| ==> |runs[k]| <= 19
    ensures var r := Analyze(desc, inp, out, vectorize, classify, regress);
      r.Ok? || r.error.UnknownClass?
  {
    Fet2Succeeds(FullText(desc, inp, out));
    AnalyzeOutcome(desc, inp, out, vectorize, classify, regress);
  }

  /** The numeric features of the combined text, in terms of the three
      fields: words, periods and spatial terms add up, and the largest number
      is the largest of the three fields' numbers. The joining spaces never
      merge two words or two numbers, and no spatial term contains a space. */
  lemma FullTextFeatures(desc: string, inp: string, out: string)
    ensures var text := FullText(desc, inp, out);
      && WordCount(text) == WordCount(desc) + WordCount(inp) + WordCount(out)
      && PeriodCount(text) == PeriodCount(desc) + PeriodCount(inp) + PeriodCount(out)
      && MaxNumber(text) == Max(Max(MaxNumber(desc), MaxNumber(inp)), MaxNumber(out))
      && SpatialCount(text) == SpatialCount(desc) + SpatialCount(inp) + SpatialCount(out)
  {
    var left := desc + " " + inp;
    assert FullText(desc, inp, out) == left + " " + out;
    WordCountJoin(desc, inp);
    WordCountJoin(left, out);
    PeriodCountJoin(desc, inp);
    PeriodCountJoin(left, out);
    MaxNumberJoin(desc, ' ', inp);
    MaxNumberJoin(left, ' ', out);
    SpatialCountJoin(desc, inp);
    SpatialCountJoin(left, out);
  }
}
