/** The Python `str` operations the pipeline uses: `lower`, `replace`,
    `strip`, `split`, `" ".join` and `count`. */
module Strings {
  import opened Chars
  import opened CharRuns

  /** `s.lower()`, on ASCII letters: same length, no capital left, and
      every other character kept. */
  function Lower(s: string): (r: string)
    ensures |r| == |s|
    ensures forall i :: 0 <= i < |s| ==> !IsUpper(r[i])
    ensures forall i :: 0 <= i < |s| && !IsUpper(s[i]) ==> r[i] == s[i]
  {
    seq(|s|, i requires 0 <= i < |s| => LowerChar(s[i]))
  }

  /** `s.replace(c, d)` for single characters `c` and `d`: every `c`
      becomes `d` and nothing else changes. */
  function ReplaceChar(s: string, c: char, d: char): (r: string)
    ensures |r| == |s|
    ensures c != d ==> forall i :: 0 <= i < |r| ==> r[i] != c
    ensures forall i :: 0 <= i < |s| && s[i] != c ==> r[i] == s[i]
    ensures forall i :: 0 <= i < |s| && s[i] == c ==> r[i] == d
  {
    seq(|s|, i requires 0 <= i < |s| => if s[i] == c then d else s[i])
  }

  /** The class of characters other than `c`. */
  function Differs(c: char): char -> bool {
    x => x != c
  }

  /** `s.replace(c, "")`: no `c` is left, and every other character keeps
      its number of occurrences. */
  function RemoveChar(s: string, c: char): (r: string)
    ensures forall i :: 0 <= i < |r| ==> r[i] != c
    ensures forall x :: x != c ==> multiset(r)[x] == multiset(s)[x]
  {
    Filter(s, Differs(c))
  }

  /** `s.lstrip()`: drops the leading whitespace. */
  function TrimLeft(s: string): (r: string)
    ensures |r| <= |s| && r == s[|s| - |r|..]
    ensures r == [] || !IsSpace(r[0])
    ensures forall i :: 0 <= i < |s| - |r| ==> IsSpace(s[i])
  {
    s[|TakeWhile(s, IsSpace)|..]
  }

  /** `s.rstrip()`: drops the trailing whitespace. */
  function TrimRight(s: string): (r: string)
    ensures |r| <= |s| && r == s[..|r|]
    ensures r == [] || !IsSpace(r[|r| - 1])
    ensures forall i :: |r| <= i < |s| ==> IsSpace(s[i])
  {
    if s != [] && IsSpace(s[|s| - 1]) then TrimRight(s[..|s| - 1]) else s
  }

  /** `s.strip()`: the slice of `s` left after cutting all whitespace from
      both ends. */
  function Strip(s: string): (r: string)
    ensures r == [] || (!IsSpace(r[0]) && !IsSpace(r[|r| - 1]))
    ensures exists i :: StrippedAt(s, r, i)
  {
    var t := TrimLeft(s);
    var r := TrimRight(t);
    assert StrippedAt(s, r, |s| - |t|);
    r
  }

  /** `r` is `s[i..i + |r|]` and everything of `s` around it is whitespace. */
  predicate StrippedAt(s: string, r: string, i: int) {
    && 0 <= i && i + |r| <= |s| && s[i..i + |r|] == r
    && (forall j :: 0 <= j < i ==> IsSpace(s[j]))
    && (forall j :: i + |r| <= j < |s| ==> IsSpace(s[j]))
  }

  /** `s.split()`: the maximal runs of non-whitespace characters. */
  function Split(s: string): (ws: seq<string>)
    ensures IsWordList(ws)
  {
    Runs(s, NotSpace)
  }

  /** `" ".join(ws)`: the words in order with one ' ' between each two. */
  function Join(ws: seq<string>): (r: string)
    ensures ws != [] ==> |r| == |Concat(ws)| + |ws| - 1
  {
    if ws == [] then []
    else if |ws| == 1 then ws[0]
    else ws[0] + " " + Join(ws[1..])
  }

  /** `s.count(w)`: the occurrences of `w` found scanning left to right, each
      search resuming after the previous occurrence (so occurrences never
      overlap); the empty string occurs `|s| + 1` times. */
  function Count(s: string, w: string): (n: nat)
    ensures w != [] ==> n * |w| <= |s|
    decreases |s|
  {
    if w == [] then |s| + 1
    else if |s| < |w| then 0
    else if s[..|w|] == w then 1 + Count(s[|w|..], w)
    else Count(s[1..], w)
  }

  /** A list of words as `split()` returns them: non-empty, no whitespace. */
  predicate IsWordList(ws: seq<string>) {
    forall k :: 0 <= k < |ws| ==> ws[k] != [] && All(ws[k], NotSpace)
  }

  /** Whitespace occurs only as single ' ' characters, each between two
      non-whitespace characters: no leading, trailing or repeated whitespace. */
  predicate SingleSpaced(s: string) {
    && (forall i :: 0 <= i < |s| ==> IsSpace(s[i]) ==> s[i] == ' ')
    && (s != [] ==> !IsSpace(s[0]) && !IsSpace(s[|s| - 1]))
    && (forall i :: 0 < i < |s| ==> !(IsSpace(s[i - 1]) && IsSpace(s[i])))
  }

  lemma LowerAppend(a: string, b: string)
    ensures Lower(a + b) == Lower(a) + Lower(b)
  {
    assert forall i :: 0 <= i < |a + b| ==> Lower(a + b)[i] == (Lower(a) + Lower(b))[i];
  }

  lemma LowerIdempotent(s: string)
    ensures Lower(Lower(s)) == Lower(s)
  {
  }

  /** Lower-casing changes nothing in a string without upper-case letters. */
  lemma LowerNoUpper(s: string)
    requires forall i :: 0 <= i < |s| ==> !IsUpper(s[i])
    ensures Lower(s) == s
  {
  }

  /** Removing a character that does not occur changes nothing. */
  lemma RemoveCharAbsent(s: string, c: char)
    requires forall i :: 0 <= i < |s| ==> s[i] != c
    ensures RemoveChar(s, c) == s
  {
    FilterAll(s, Differs(c));
  }

  /** `s.strip()` is empty exactly when `s` is empty or all whitespace. */
  lemma StripBlank(s: string)
    ensures Strip(s) == [] <==> forall i :: 0 <= i < |s| ==> IsSpace(s[i])
  {
    var t := TrimLeft(s);
    if Strip(s) == [] {
      assert t == [];
    }
  }

  /** Stripping `x + y`, where `x` is whitespace and `y` does not begin with
      whitespace, leaves `y`. */
  lemma TrimLeftSpaces(x: string, y: string)
    requires All(x, IsSpace)
    requires y == [] || !IsSpace(y[0])
    ensures TrimLeft(x + y) == y
  {
    TakeWhileExact(x, y, IsSpace);
  }

  /** Right-stripping `x + y`, where `y` is whitespace and `x` does not end
      with whitespace, leaves `x`. */
  lemma {:induction false} TrimRightSpaces(x: string, y: string)
    requires x == [] || !IsSpace(x[|x| - 1])
    requires All(y, IsSpace)
    ensures TrimRight(x + y) == x
    decreases |y|
  {
    if y == [] {
      assert x + y == x;
    } else {
      var y' := y[..|y| - 1];
      assert (x + y)[..|x + y| - 1] == x + y';
      TrimRightSpaces(x, y');
    }
  }

  /** A property of every word that ' ' also has holds of every character of the join. */
  lemma {:induction false} JoinAll(ws: seq<string>, q: char -> bool)
    requires q(' ')
    requires forall k :: 0 <= k < |ws| ==> All(ws[k], q)
    ensures All(Join(ws), q)
    decreases |ws|
  {
    if |ws| > 1 {
      JoinAll(ws[1..], q);
      AllAppend(ws[0], " ", q);
      AllAppend(ws[0] + " ", Join(ws[1..]), q);
    }
  }

  lemma SingleSpacedLink(a: string, b: string)
    requires a != [] && All(a, NotSpace)
    requires b != [] && SingleSpaced(b)
    ensures SingleSpaced(a + " " + b)
  {
    var s := a + " " + b;
    var n := |a|;
    forall i | 0 <= i < |s|
      ensures IsSpace(s[i]) ==> s[i] == ' '
    {
      if i < n {
        assert s[i] == a[i] && NotSpace(a[i]);
      } else if i > n {
        assert s[i] == b[i - n - 1];
      }
    }
    assert s[0] == a[0] && NotSpace(a[0]);
    assert s[|s| - 1] == b[|b| - 1];
    forall i | 0 < i < |s|
      ensures !(IsSpace(s[i - 1]) && IsSpace(s[i]))
    {
      if i < n {
        assert s[i] == a[i] && NotSpace(a[i]);
      } else if i == n {
        assert s[i - 1] == a[n - 1] && NotSpace(a[n - 1]);
      } else if i == n + 1 {
        assert s[i] == b[0];
      } else {
        assert s[i - 1] == b[i - n - 2] && s[i] == b[i - n - 1];
      }
    }
  }

  /** Joining words with single spaces gives a single-spaced string, empty only
      when there are no words. */
  lemma {:induction false} JoinSingleSpaced(ws: seq<string>)
    requires IsWordList(ws)
    ensures SingleSpaced(Join(ws))
    ensures Join(ws) == [] <==> ws == []
    decreases |ws|
  {
    if |ws| == 1 {
      assert forall i :: 0 <= i < |ws[0]| ==> NotSpace(ws[0][i]);
    } else if |ws| > 1 {
      JoinSingleSpaced(ws[1..]);
      SingleSpacedLink(ws[0], Join(ws[1..]));
    }
  }

  /** In a single-spaced string, a whitespace character is a ' ' followed by
      a single-spaced remainder. */
  lemma SingleSpacedAfterSpace(s: string, n: nat)
    requires SingleSpaced(s)
    requires n < |s| && IsSpace(s[n])
    ensures n + 1 < |s| && s[n] == ' '
    ensures SingleSpaced(s[n + 1..])
  {
    assert n < |s| - 1;
    var t := s[n + 1..];
    forall j | 0 <= j < |t|
      ensures IsSpace(t[j]) ==> t[j] == ' '
    {
      assert t[j] == s[n + 1 + j];
    }
    forall j | 0 < j < |t|
      ensures !(IsSpace(t[j - 1]) && IsSpace(t[j]))
    {
      assert t[j - 1] == s[n + j] && t[j] == s[n + 1 + j];
    }
    assert t[0] == s[n + 1];
    assert !(IsSpace(s[n]) && IsSpace(s[n + 1]));
    assert t[|t| - 1] == s[|s| - 1];
  }

  lemma SpaceBetween(s: string, w: string, rest: string, t: string)
    requires s == w + rest && rest == [' '] + t
    ensures s == w + " " + t
  {
  }

  /** A single-spaced string is the join of its own words: `split` followed by
      `" ".join` gives it back. */
  lemma {:induction false} JoinSplit(s: string)
    requires SingleSpaced(s)
    ensures Join(Split(s)) == s
    decreases |s|
  {
    if s != [] {
      var w := TakeWhile(s, NotSpace);
      var rest := s[|w|..];
      assert s == w + rest;
      assert Split(s) == [w] + Split(rest);
      if rest == [] {
        assert Split(s) == [w];
        assert s == w;
      } else {
        SingleSpacedAfterSpace(s, |w|);
        var t := s[|w| + 1..];
        assert rest == [' '] + t;
        assert Split(rest) == Split(t);
        JoinSplit(t);
        assert Split(t) != [];
        assert ([w] + Split(t))[1..] == Split(t);
        assert Join(Split(s)) == w + " " + t;
        SpaceBetween(s, w, rest, t);
      }
    }
  }

  /** `str.count` of a one-character string counts that character. */
  lemma {:induction false} CountChar(s: string, c: char)
    ensures Count(s, [c]) == multiset(s)[c]
    decreases |s|
  {
    if s != [] {
      assert s == [s[0]] + s[1..];
      CountChar(s[1..], c);
    }
  }

  /** Starting the scan later never finds more occurrences. */
  lemma {:induction false} CountSuffix(s: string, w: string, k: nat)
    requires w != [] && k <= |s|
    ensures Count(s[k..], w) <= Count(s, w)
    decreases |s|
  {
    var m := |w|;
    if k == 0 {
      assert s[k..] == s;
    } else if |s| < m {
    } else if s[..m] != w {
      assert s[1..][k - 1..] == s[k..];
      CountSuffix(s[1..], w, k - 1);
    } else if k >= m {
      assert s[m..][k - m..] == s[k..];
      CountSuffix(s[m..], w, k - m);
    } else {
      assert s[k..][m - k..] == s[m..];
      CountSkipPartial(s[k..], w, m - k);
    }
  }

  /** Skipping fewer characters than `w` has loses at most one occurrence. */
  lemma {:induction false} CountSkipPartial(b: string, w: string, j: nat)
    requires w != [] && j <= |w| && j <= |b|
    ensures Count(b, w) <= 1 + Count(b[j..], w)
    decreases |b|
  {
    var m := |w|;
    if j == 0 {
      assert b[j..] == b;
    } else if |b| < m {
    } else if b[..m] == w {
      assert b[j..][m - j..] == b[m..];
      CountSuffix(b[j..], w, m - j);
    } else {
      assert b[1..][j - 1..] == b[j..];
      CountSkipPartial(b[1..], w, j - 1);
    }
  }

  /** Counting in a concatenation finds at least the occurrences found in each
      part: the greedy left-to-right scan never does worse than counting the
      parts apart, and finds more only where an occurrence straddles the seam. */
  lemma {:induction false} CountSuperadditive(a: string, b: string, w: string)
    requires w != []
    ensures Count(a, w) + Count(b, w) <= Count(a + b, w)
    decreases |a|
  {
    var s := a + b;
    var m := |w|;
    if a == [] {
      assert s == b;
    } else if |s| < m {
    } else if s[..m] == w {
      if |a| >= m {
        assert a[..m] == s[..m];
        assert s[m..] == a[m..] + b;
        CountSuperadditive(a[m..], b, w);
      } else {
        assert s[m..] == b[m - |a|..];
        CountSkipPartial(b, w, m - |a|);
      }
    } else {
      assert s[1..] == a[1..] + b;
      CountSuperadditive(a[1..], b, w);
      if |a| >= m {
        assert a[..m] == s[..m];
      }
    }
  }

  /** A character that `w` does not contain separates occurrences: counting
      in `a + [c] + b` finds those of `a` and those of `b`, and no more. */
  lemma {:induction false} CountAcrossSeparator(a: string, c: char, b: string, w: string)
    requires w != []
    requires forall i :: 0 <= i < |w| ==> w[i] != c
    ensures Count(a + [c] + b, w) == Count(a, w) + Count(b, w)
    decreases |a|
  {
    var s := a + [c] + b;
    var m := |w|;
    if a == [] {
      assert s == [c] + b;
      assert s[1..] == b;
      if |s| >= m {
        assert s[..m][0] != w[0];
      }
    } else if |s| < m {
    } else if s[..m] == w {
      forall i | 0 <= i < m
        ensures s[i] != c
      {
        assert s[i] == w[i];
      }
      assert s[|a|] == c;
      assert a[..m] == w;
      assert s[m..] == a[m..] + [c] + b;
      CountAcrossSeparator(a[m..], c, b, w);
    } else {
      assert s[1..] == a[1..] + [c] + b;
      CountAcrossSeparator(a[1..], c, b, w);
      if |a| >= m {
        assert a[..m] == s[..m];
      }
    }
  }

  /** `w` occurs in `s` starting at position `i`. */
  predicate OccursAt(s: string, w: string, i: int) {
    0 <= i && i + |w| <= |s| && s[i..i + |w|] == w
  }

  /** Dropping the first character moves every later occurrence one place
      to the left. */
  lemma OccursShift(s: string, w: string, i: int)
    requires 1 <= i && s != []
    ensures OccursAt(s, w, i) <==> OccursAt(s[1..], w, i - 1)
  {
    if i + |w| <= |s| {
      assert s[1..][i - 1..i - 1 + |w|] == s[i..i + |w|];
    }
  }

  /** `count` finds something exactly when the term occurs somewhere. */
  lemma {:induction false} CountPositive(s: string, w: string)
    requires w != []
    ensures Count(s, w) > 0 <==> exists i :: OccursAt(s, w, i)
    decreases |s|
  {
    var m := |w|;
    if |s| < m {
    } else if s[..m] == w {
      assert s[0..m] == s[..m];
      assert OccursAt(s, w, 0);
    } else {
      CountPositive(s[1..], w);
      if exists i :: OccursAt(s, w, i) {
        var i :| OccursAt(s, w, i);
        assert s[0..m] == s[..m];
        OccursShift(s, w, i);
      }
      if exists i :: OccursAt(s[1..], w, i) {
        var i :| OccursAt(s[1..], w, i);
        OccursShift(s, w, i + 1);
      }
    }
  }

  /** `count` takes the leftmost occurrence and resumes the search right
      after it, so occurrences never overlap. */
  lemma {:induction false} CountLeftmost(s: string, w: string, i: nat)
    requires w != []
    requires OccursAt(s, w, i)
    requires forall j :: 0 <= j < i ==> !OccursAt(s, w, j)
    ensures Count(s, w) == 1 + Count(s[i + |w|..], w)
    decreases i
  {
    var m := |w|;
    assert s[0..m] == s[..m];
    if i > 0 {
      assert !OccursAt(s, w, 0);
      var t := s[1..];
      OccursShift(s, w, i);
      forall j | 0 <= j < i - 1
        ensures !OccursAt(t, w, j)
      {
        OccursShift(s, w, j + 1);
      }
      assert t[i - 1 + m..] == s[i + m..];
      CountLeftmost(t, w, i - 1);
    }
  }

  /** Worked values: occurrences do not overlap, and the empty string occurs
      once more than the text is long. */
  lemma CountExamples()
    ensures Count("aaa", "aa") == 1
    ensures Count("abcab", "ab") == 2
    ensures Count("ab", "") == 3
  {
    assert "aaa"[2..] == "a";
    assert "abcab"[2..] == "cab";
    assert "cab"[1..] == "ab";
  }
}
