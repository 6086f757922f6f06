/** Maximal runs of characters of one class. Python's `str.split()` returns
    the maximal runs of non-whitespace characters and `re.findall(r"\d+", s)`
    the maximal runs of digits; both are `Runs` with a different class. */
module CharRuns {

  /** Every character of `w` is in the class `p`. */
  predicate All(w: string, p: char -> bool) {
    forall i :: 0 <= i < |w| ==> p(w[i])
  }

  /** The longest prefix of `s` whose characters are all in `p`. */
  function TakeWhile(s: string, p: char -> bool): (w: string)
    ensures |w| <= |s| && w == s[..|w|]
    ensures All(w, p)
    ensures |w| < |s| ==> !p(s[|w|])
  {
    if s != [] && p(s[0]) then [s[0]] + TakeWhile(s[1..], p) else []
  }

  /** The maximal runs of `p`-characters of `s`, left to right. */
  function Runs(s: string, p: char -> bool): (rs: seq<string>)
    ensures forall k :: 0 <= k < |rs| ==> rs[k] != [] && All(rs[k], p)
    decreases |s|
  {
    if s == [] then []
    else if !p(s[0]) then Runs(s[1..], p)
    else
      var w := TakeWhile(s, p);
      [w] + Runs(s[|w|..], p)
  }

  /** The `p`-characters of `s`, in order. */
  function Filter(s: string, p: char -> bool): (r: string)
    ensures All(r, p)
    ensures forall x :: p(x) ==> multiset(r)[x] == multiset(s)[x]
    ensures forall x :: !p(x) ==> multiset(r)[x] == 0
  {
    if s == [] then []
    else
      assert s == [s[0]] + s[1..];
      (if p(s[0]) then [s[0]] else []) + Filter(s[1..], p)
  }

  function Concat(ws: seq<string>): string {
    if ws == [] then [] else ws[0] + Concat(ws[1..])
  }

  /** The number of positions of `s` where a run of `p` begins: a `p`-character
      that comes first (when `outside` holds) or follows a character outside `p`.
      This is a one-character-at-a-time scan, independent of `Runs`. */
  function RunStarts(s: string, p: char -> bool, outside: bool): nat {
    if s == [] then 0
    else (if p(s[0]) && outside then 1 else 0) + RunStarts(s[1..], p, !p(s[0]))
  }

  lemma {:induction false} TakeWhileAppend(a: string, t: string, p: char -> bool)
    requires t == [] || !p(t[0])
    ensures TakeWhile(a + t, p) == TakeWhile(a, p)
    decreases |a|
  {
    if a == [] {
    } else if p(a[0]) {
      assert (a + t)[1..] == a[1..] + t;
      TakeWhileAppend(a[1..], t, p);
    }
  }

  /** The prefix taken is exactly `x` when `x` is all in the class and what
      follows it is not. */
  lemma {:induction false} TakeWhileExact(x: string, y: string, p: char -> bool)
    requires All(x, p)
    requires y == [] || !p(y[0])
    ensures TakeWhile(x + y, p) == x
    decreases |x|
  {
    if x == [] {
      assert x + y == y;
    } else {
      assert (x + y)[1..] == x[1..] + y;
      TakeWhileExact(x[1..], y, p);
    }
  }

  /** Leading characters outside the class contribute no run. */
  lemma {:induction false} RunsSkip(s: string, k: nat, p: char -> bool)
    requires k <= |s|
    requires forall i :: 0 <= i < k ==> !p(s[i])
    ensures Runs(s, p) == Runs(s[k..], p)
    decreases k
  {
    if k > 0 {
      assert s[1..][k - 1..] == s[k..];
      RunsSkip(s[1..], k - 1, p);
    }
  }

  /** `s` has no run exactly when none of its characters is in the class. */
  lemma {:induction false} RunsEmpty(s: string, p: char -> bool)
    ensures Runs(s, p) == [] <==> forall i :: 0 <= i < |s| ==> !p(s[i])
    decreases |s|
  {
    if s != [] && !p(s[0]) {
      RunsEmpty(s[1..], p);
      assert forall i :: 1 <= i < |s| ==> s[i] == s[1..][i - 1];
    }
  }

  /** A character outside the class separates runs: the runs of `a + [c] + b`
      are those of `a` followed by those of `b`, and no run straddles `c`. */
  lemma {:induction false} RunsAcrossSeparator(a: string, c: char, b: string, p: char -> bool)
    requires !p(c)
    ensures Runs(a + [c] + b, p) == Runs(a, p) + Runs(b, p)
    decreases |a|
  {
    var s := a + [c] + b;
    if a == [] {
      assert s[1..] == b;
    } else if !p(a[0]) {
      assert s[1..] == a[1..] + [c] + b;
      RunsAcrossSeparator(a[1..], c, b, p);
    } else {
      var w := TakeWhile(a, p);
      assert s == a + ([c] + b);
      TakeWhileAppend(a, [c] + b, p);
      assert s[|w|..] == a[|w|..] + [c] + b;
      RunsAcrossSeparator(a[|w|..], c, b, p);
    }
  }

  /** Inside a run, no new run starts. */
  lemma {:induction false} RunStartsInsideRun(s: string, k: nat, p: char -> bool)
    requires k <= |s|
    requires forall i :: 0 <= i < k ==> p(s[i])
    ensures RunStarts(s, p, false) == RunStarts(s[k..], p, false)
    decreases k
  {
    if k > 0 {
      assert s[1..][k - 1..] == s[k..];
      RunStartsInsideRun(s[1..], k - 1, p);
    }
  }

  /** `Runs` returns exactly one string per maximal run. */
  lemma {:induction false} RunsCount(s: string, p: char -> bool)
    ensures |Runs(s, p)| == RunStarts(s, p, true)
    decreases |s|
  {
    if s == [] {
    } else if !p(s[0]) {
      RunsCount(s[1..], p);
    } else {
      var w := TakeWhile(s, p);
      var rest := s[|w|..];
      assert s[1..][|w| - 1..] == rest;
      RunStartsInsideRun(s[1..], |w| - 1, p);
      RunsCount(rest, p);
      if rest != [] {
        assert rest[0] == s[|w|];
      }
    }
  }

  lemma {:induction false} FilterAppend(a: string, b: string, p: char -> bool)
    ensures Filter(a + b, p) == Filter(a, p) + Filter(b, p)
    decreases |a|
  {
    if a == [] {
      assert a + b == b;
    } else {
      assert (a + b)[1..] == a[1..] + b;
      FilterAppend(a[1..], b, p);
    }
  }

  /** Filtering keeps a string whose characters are all in the class. */
  lemma {:induction false} FilterAll(s: string, p: char -> bool)
    requires All(s, p)
    ensures Filter(s, p) == s
    decreases |s|
  {
    if s != [] {
      FilterAll(s[1..], p);
    }
  }

  /** The runs, put back together, are the `p`-characters of `s` in order:
      nothing of the class is lost or reordered. */
  lemma {:induction false} RunsConcat(s: string, p: char -> bool)
    ensures Concat(Runs(s, p)) == Filter(s, p)
    decreases |s|
  {
    if s == [] {
    } else if !p(s[0]) {
      RunsConcat(s[1..], p);
    } else {
      var w := TakeWhile(s, p);
      var rest := s[|w|..];
      assert s == w + rest;
      FilterAppend(w, rest, p);
      FilterAll(w, p);
      RunsConcat(rest, p);
      assert ([w] + Runs(rest, p))[1..] == Runs(rest, p);
    }
  }

  /** A property of every character of `s` holds of every character of each run. */
  lemma {:induction false} RunsKeep(s: string, p: char -> bool, q: char -> bool)
    requires All(s, q)
    ensures forall k :: 0 <= k < |Runs(s, p)| ==> All(Runs(s, p)[k], q)
    decreases |s|
  {
    if s == [] {
    } else if !p(s[0]) {
      RunsKeep(s[1..], p, q);
    } else {
      var w := TakeWhile(s, p);
      RunsKeep(s[|w|..], p, q);
      var rs := Runs(s, p);
      forall k | 0 <= k < |rs|
        ensures All(rs[k], q)
      {
        if k > 0 {
          assert rs[k] == Runs(s[|w|..], p)[k - 1];
        }
      }
    }
  }

  lemma AllAppend(a: string, b: string, q: char -> bool)
    requires All(a, q) && All(b, q)
    ensures All(a + b, q)
  {
  }

  /** `a` and `b` agree on the class of every position, and on every character
      inside the class; they may differ only in which non-class characters they hold. */
  predicate SameClass(a: string, b: string, p: char -> bool) {
    && |a| == |b|
    && forall i :: 0 <= i < |a| ==> (p(a[i]) <==> p(b[i])) && (p(a[i]) ==> a[i] == b[i])
  }

  lemma {:induction false} TakeWhileSameClass(a: string, b: string, p: char -> bool)
    requires SameClass(a, b, p)
    ensures TakeWhile(a, p) == TakeWhile(b, p)
    decreases |a|
  {
    if a != [] && p(a[0]) {
      TakeWhileSameClass(a[1..], b[1..], p);
    }
  }

  /** Replacing characters outside the class by other characters outside the
      class leaves the runs unchanged. */
  lemma {:induction false} RunsSameClass(a: string, b: string, p: char -> bool)
    requires SameClass(a, b, p)
    ensures Runs(a, p) == Runs(b, p)
    decreases |a|
  {
    if a == [] {
    } else if !p(a[0]) {
      RunsSameClass(a[1..], b[1..], p);
    } else {
      var w := TakeWhile(a, p);
      TakeWhileSameClass(a, b, p);
      RunsSameClass(a[|w|..], b[|w|..], p);
    }
  }

  /** The first position at or after `i` that ends a run: the end of `s` or
      a character outside the class. */
  function RunEnd(s: string, p: char -> bool, i: nat): (j: nat)
    requires i <= |s|
    ensures i <= j <= |s|
    ensures forall t :: i <= t < j ==> p(s[t])
    ensures j == |s| || !p(s[j])
    decreases |s| - i
  {
    if i == |s| || !p(s[i]) then i else RunEnd(s, p, i + 1)
  }

  /** `s[i..j]` is a maximal `p`-run of `s`: non-empty, all in the class,
      and neither extensible to the left nor to the right. */
  predicate MaximalRun(s: string, p: char -> bool, i: nat, j: nat) {
    && i < j <= |s|
    && (forall t :: i <= t < j ==> p(s[t]))
    && (i == 0 || !p(s[i - 1]))
    && (j == |s| || !p(s[j]))
  }

  /** The start and end positions in `s` of the maximal `p`-runs found
      scanning from position `from`, left to right and without touching. */
  function Spans(s: string, p: char -> bool, from: nat): (sp: seq<(nat, nat)>)
    requires from <= |s|
    requires from == 0 || from == |s| || !p(s[from - 1]) || !p(s[from])
    ensures forall k :: 0 <= k < |sp| ==> from <= sp[k].0 && MaximalRun(s, p, sp[k].0, sp[k].1)
    ensures forall k :: 0 < k < |sp| ==> sp[k - 1].1 < sp[k].0
    decreases |s| - from
  {
    if from == |s| then []
    else if !p(s[from]) then Spans(s, p, from + 1)
    else
      var j := RunEnd(s, p, from);
      assert MaximalRun(s, p, from, j);
      var rest := Spans(s, p, j);
      var sp := [(from, j)] + rest;
      assert forall k :: 0 < k < |sp| ==> sp[k] == rest[k - 1];
      sp
  }

  lemma TakeWhileRunEnd(s: string, p: char -> bool, from: nat)
    requires from <= |s|
    ensures TakeWhile(s[from..], p) == s[from..RunEnd(s, p, from)]
  {
    var j := RunEnd(s, p, from);
    assert s[from..] == s[from..j] + s[j..];
    TakeWhileExact(s[from..j], s[j..], p);
  }

  /** Scanning from a `p`-character, the first run is the slice up to
      `RunEnd` and the others are the runs after it. */
  lemma RunsFromRun(s: string, p: char -> bool, from: nat)
    requires from < |s| && p(s[from])
    ensures Runs(s[from..], p) == [s[from..RunEnd(s, p, from)]] + Runs(s[RunEnd(s, p, from)..], p)
  {
    var j := RunEnd(s, p, from);
    var u := s[from..];
    TakeWhileRunEnd(s, p, from);
    assert u[j - from..] == s[j..];
  }

  /** Scanning from a character outside the class skips it. */
  lemma RunsFromGap(s: string, p: char -> bool, from: nat)
    requires from < |s| && !p(s[from])
    ensures Runs(s[from..], p) == Runs(s[from + 1..], p)
  {
    assert s[from..][1..] == s[from + 1..];
  }

  /** Each run `Runs` returns is the slice of `s` at the matching span. */
  lemma {:induction false} RunsAreSpans(s: string, p: char -> bool, from: nat)
    requires from <= |s|
    requires from == 0 || from == |s| || !p(s[from - 1]) || !p(s[from])
    ensures var sp := Spans(s, p, from);
      && |sp| == |Runs(s[from..], p)|
      && forall k :: 0 <= k < |sp| ==> Runs(s[from..], p)[k] == s[sp[k].0..sp[k].1]
    decreases |s| - from
  {
    if from == |s| {
    } else if !p(s[from]) {
      RunsFromGap(s, p, from);
      RunsAreSpans(s, p, from + 1);
    } else {
      var j := RunEnd(s, p, from);
      RunsFromRun(s, p, from);
      RunsAreSpans(s, p, j);
      var rs := Runs(s[j..], p);
      var sp := Spans(s, p, from);
      assert sp == [(from, j)] + Spans(s, p, j);
      forall k | 0 < k < |sp|
        ensures Runs(s[from..], p)[k] == s[sp[k].0..sp[k].1]
      {
        assert Runs(s[from..], p)[k] == rs[k - 1];
      }
    }
  }

  /** `Runs` returns the maximal runs, left to right: the k-th run is
      `s[i..j]` for the k-th span `(i, j)` of `Spans(s, p, 0)`. */
  lemma RunsMaximal(s: string, p: char -> bool)
    ensures var sp := Spans(s, p, 0);
      && |sp| == |Runs(s, p)|
      && forall k :: 0 <= k < |sp| ==> Runs(s, p)[k] == s[sp[k].0..sp[k].1]
  {
    RunsAreSpans(s, p, 0);
    assert s[0..] == s;
  }
}
