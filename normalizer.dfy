/** `clean_text`: the text normaliser applied before the vectorizer. */
module Normalizer {
  import opened Chars
  import opened CharRuns
  import opened Strings

  /** `re.sub(r"\s+", " ", s)`: every maximal run of whitespace becomes one ' '. */
  function CollapseWhitespace(s: string): (r: string)
    ensures |r| <= |s|
    ensures r == [] <==> s == []
    ensures s != [] ==> (IsSpace(r[0]) <==> IsSpace(s[0]))
    ensures forall i :: 0 <= i < |r| && IsSpace(r[i]) ==> r[i] == ' '
    ensures forall i :: 0 < i < |r| ==> !(IsSpace(r[i - 1]) && IsSpace(r[i]))
    decreases |s|
  {
    if s == [] then []
    else if IsSpace(s[0]) then " " + CollapseWhitespace(TrimLeft(s))
    else [s[0]] + CollapseWhitespace(s[1..])
  }

  /** `clean_text(text)`: delete every '$', lower-case, turn newlines into
      spaces, collapse whitespace runs to one space, strip. What it produces
      is the words (`split()`) of the text with '$' deleted and letters
      lower-cased, joined by single spaces; turning newlines into spaces
      changes nothing, since a newline is whitespace already. */
  function CleanText(text: string): (r: string)
    ensures r == Join(Split(Lower(RemoveChar(text, '$'))))
  {
    var noDollar := RemoveChar(text, '$');
    var lowered := Lower(noDollar);
    var oneLine := ReplaceChar(lowered, '\n', ' ');
    StripCollapse(oneLine);
    NewlineToSpace(lowered);
    RunsSameClass(oneLine, lowered, NotSpace);
    Strip(CollapseWhitespace(oneLine))
  }

  /** A character `clean_text` can leave behind outside whitespace: no '$'
      and no upper-case letter. */
  predicate IsCleanChar(c: char) {
    c != '$' && !IsUpper(c)
  }

  /** The shape of `clean_text`'s output. */
  predicate NormalForm(s: string) {
    All(s, IsCleanChar) && SingleSpaced(s)
  }

  /** The ' ' that stands for a leading whitespace run, if any. */
  function Lead(s: string): string {
    if s != [] && IsSpace(s[0]) then " " else ""
  }

  /** The ' ' that stands for a trailing whitespace run, if any. */
  function Trail(s: string): string {
    if s != [] && IsSpace(s[|s| - 1]) then " " else ""
  }

  lemma {:induction false} CollapseWord(w: string, rest: string)
    requires All(w, NotSpace)
    ensures CollapseWhitespace(w + rest) == w + CollapseWhitespace(rest)
    decreases |w|
  {
    if w == [] {
      assert w + rest == rest;
    } else {
      assert (w + rest)[1..] == w[1..] + rest;
      CollapseWord(w[1..], rest);
    }
  }

  lemma JoinCons(w: string, ws: seq<string>)
    requires ws != []
    ensures Join([w] + ws) == w + " " + Join(ws)
  {
    assert ([w] + ws)[1..] == ws;
  }

  /** Splitting text that begins with a word. */
  lemma SplitWord(s: string)
    requires s != [] && !IsSpace(s[0])
    ensures Split(s) == [TakeWhile(s, NotSpace)] + Split(s[|TakeWhile(s, NotSpace)|..])
  {
  }

  lemma TrailWord(s: string)
    requires s != [] && !IsSpace(s[0])
    ensures var rest := s[|TakeWhile(s, NotSpace)|..];
      Trail(s) == (if rest == [] then "" else Trail(rest))
  {
    var w := TakeWhile(s, NotSpace);
    var rest := s[|w|..];
    if rest == [] {
      assert s[|s| - 1] == w[|w| - 1];
    } else {
      assert s[|s| - 1] == rest[|rest| - 1];
    }
  }

  /** Collapsing text that begins with whitespace. */
  lemma CollapseIndented(s: string)
    requires s != [] && IsSpace(s[0])
    ensures CollapseWhitespace(s) == " " + CollapseWhitespace(TrimLeft(s))
  {
  }

  /** Leading whitespace contributes no word. */
  lemma SplitTrimLeft(s: string)
    ensures Split(s) == Split(TrimLeft(s))
  {
    var t := TrimLeft(s);
    RunsSkip(s, |s| - |t|, NotSpace);
    assert s[|s| - |t|..] == t;
  }

  lemma TrailTrimLeft(s: string)
    requires s != [] && IsSpace(s[0])
    ensures Trail(s) == (if TrimLeft(s) == [] then " " else Trail(TrimLeft(s)))
  {
    var t := TrimLeft(s);
    if t == [] {
      assert IsSpace(s[|s| - 1]);
    } else {
      assert t[|t| - 1] == s[|s| - 1];
    }
  }

  lemma Reassociate(w: string, j: string, tr: string)
    ensures w + (" " + (j + tr)) == (w + " " + j) + tr
  {
  }

  /** On text that does not begin with whitespace, collapsing gives the words
      joined by single spaces, plus one ' ' when the text ends in whitespace. */
  lemma {:induction false} CollapseUnindented(s: string)
    requires s == [] || !IsSpace(s[0])
    ensures CollapseWhitespace(s) == Join(Split(s)) + Trail(s)
    decreases |s|
  {
    if s != [] {
      var w := TakeWhile(s, NotSpace);
      var rest := s[|w|..];
      assert s == w + rest;
      CollapseWord(w, rest);
      SplitWord(s);
      TrailWord(s);
      if rest == [] {
        assert CollapseWhitespace(s) == w + [];
        assert Split(s) == [w];
      } else {
        var t := TrimLeft(rest);
        CollapseIndented(rest);
        SplitTrimLeft(rest);
        TrailTrimLeft(rest);
        if t == [] {
          assert CollapseWhitespace(s) == w + (" " + []);
          assert Split(s) == [w];
        } else {
          CollapseUnindented(t);
          assert Split(t) != [];
          JoinCons(w, Split(t));
          assert CollapseWhitespace(s) == w + (" " + (Join(Split(t)) + Trail(t)));
          Reassociate(w, Join(Split(t)), Trail(t));
        }
      }
    }
  }

  /** Collapsing keeps at most one ' ' for the leading whitespace. */
  lemma CollapseLeading(s: string)
    ensures CollapseWhitespace(s)
      == Lead(s) + CollapseWhitespace(TrimLeft(s))
  {
    if s != [] && IsSpace(s[0]) {
      CollapseIndented(s);
    } else {
      assert TrimLeft(s) == s;
    }
  }

  /** Stripping removes whitespace padding around a single-spaced string. */
  lemma StripPadded(pre: string, j: string, tr: string)
    requires All(pre, IsSpace) && All(tr, IsSpace)
    requires SingleSpaced(j)
    ensures Strip(pre + (j + tr)) == j
  {
    if j == [] {
      assert pre + (j + tr) == (pre + tr) + [];
      AllAppend(pre, tr, IsSpace);
      TrimLeftSpaces(pre + tr, []);
    } else {
      TrimLeftSpaces(pre, j + tr);
      TrimRightSpaces(j, tr);
    }
  }

  /** Collapsing gives the words joined by single spaces, with one ' ' in
      place of leading and of trailing whitespace. */
  lemma CollapseShape(s: string)
    ensures CollapseWhitespace(s) == Lead(s) + (Join(Split(s)) + Trail(TrimLeft(s)))
  {
    var t := TrimLeft(s);
    SplitTrimLeft(s);
    CollapseUnindented(t);
    CollapseLeading(s);
  }

  /** Collapsing then stripping gives the words joined by single spaces. */
  lemma StripCollapse(s: string)
    ensures Strip(CollapseWhitespace(s)) == Join(Split(s))
  {
    CollapseShape(s);
    JoinSingleSpaced(Split(s));
    StripPadded(Lead(s), Join(Split(s)), Trail(TrimLeft(s)));
  }

  /** Turning newlines into spaces swaps one whitespace character for
      another and keeps every other character. */
  lemma NewlineToSpace(u: string)
    ensures SameClass(ReplaceChar(u, '\n', ' '), u, NotSpace)
  {
  }

  /** The output of `clean_text` has no '$', no newline and no upper-case
      letter; its only whitespace is ' '; it neither begins nor ends with
      whitespace; and no two whitespace characters are adjacent. */
  lemma CleanTextNormalForm(text: string)
    ensures NormalForm(CleanText(text))
    ensures var r := CleanText(text);
      && (forall i :: 0 <= i < |r| ==> r[i] != '$' && r[i] != '\n' && !IsUpper(r[i]))
      && (forall i :: 0 <= i < |r| ==> IsSpace(r[i]) ==> r[i] == ' ')
      && (r != [] ==> !IsSpace(r[0]) && !IsSpace(r[|r| - 1]))
      && (forall i :: 0 < i < |r| ==> !(IsSpace(r[i - 1]) && IsSpace(r[i])))
  {
    var noDollar := RemoveChar(text, '$');
    var u := Lower(noDollar);
    assert All(noDollar, Differs('$'));
    assert All(u, IsCleanChar);
    var ws := Split(u);
    JoinSingleSpaced(ws);
    RunsKeep(u, NotSpace, IsCleanChar);
    JoinAll(ws, IsCleanChar);
  }

  /** `clean_text` leaves a string unchanged exactly when it is already in
      normal form. */
  lemma CleanTextFixedPoint(s: string)
    ensures CleanText(s) == s <==> NormalForm(s)
  {
    if NormalForm(s) {
      RemoveCharAbsent(s, '$');
      LowerNoUpper(s);
      JoinSplit(s);
    } else {
      CleanTextNormalForm(s);
    }
  }

  /** `clean_text` is idempotent. */
  lemma CleanTextIdempotent(text: string)
    ensures CleanText(CleanText(text)) == CleanText(text)
  {
    CleanTextNormalForm(text);
    CleanTextFixedPoint(CleanText(text));
  }
}
