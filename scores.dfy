/** `CLASS_RANGES` and `denormalize_score`: the regressor predicts a relative
    difficulty, which is mapped linearly into the score range of the
    predicted class. Arithmetic is on exact reals. */
module Scores {
  import opened Errors

  /** The closed score interval `[lo, hi]` of one class. */
  datatype Range = Range(lo: real, hi: real)

  /** `CLASS_RANGES`. */
  const ClassRanges: map<string, Range> := map[
    "easy" := Range(1.1, 2.8),
    "medium" := Range(2.8, 5.5),
    "hard" := Range(5.5, 9.7)
  ]

  /** `np.clip(y, 0, 1)`. */
  function Clip(y: real): (c: real)
    ensures 0.0 <= c <= 1.0
    ensures 0.0 <= y <= 1.0 ==> c == y
    ensures y <= 0.0 ==> c == 0.0
    ensures y >= 1.0 ==> c == 1.0
  {
    if y < 0.0 then 0.0 else if y > 1.0 then 1.0 else y
  }

  /** `denormalize_score(yRel, cls)`. The class is looked up first: an unknown
      class fails whatever `yRel` is. Otherwise the clipped `yRel` is placed
      linearly inside the class's range. */
  function Denormalize(yRel: real, cls: string): (r: Result<real>)
    ensures cls !in ClassRanges <==> r == Err(UnknownClass(cls))
    ensures cls in ClassRanges <==> r.Ok?
  {
    if cls !in ClassRanges then Err(UnknownClass(cls))
    else
      var range := ClassRanges[cls];
      Ok(range.lo + Clip(yRel) * (range.hi - range.lo))
  }

  /** Every range is non-empty, and the three ranges tile [1.1, 9.7] in the
      order easy, medium, hard. */
  lemma RangesTile()
    ensures ClassRanges.Keys == {"easy", "medium", "hard"}
    ensures forall cls :: cls in ClassRanges ==> ClassRanges[cls].lo < ClassRanges[cls].hi
    ensures ClassRanges["easy"].lo == 1.1 && ClassRanges["hard"].hi == 9.7
    ensures ClassRanges["easy"].hi == ClassRanges["medium"].lo
    ensures ClassRanges["medium"].hi == ClassRanges["hard"].lo
  {
  }

  /** A known class always gets a score inside its range. */
  lemma DenormalizeInRange(yRel: real, cls: string)
    requires cls in ClassRanges
    ensures var range := ClassRanges[cls];
      Denormalize(yRel, cls).Ok? && range.lo <= Denormalize(yRel, cls).value <= range.hi
  {
  }

  /** Relative difficulties at or below 0 give the bottom of the range, at or
      above 1 the top. */
  lemma DenormalizeSaturates(yRel: real, cls: string)
    requires cls in ClassRanges
    ensures yRel <= 0.0 ==> Denormalize(yRel, cls) == Ok(ClassRanges[cls].lo)
    ensures yRel >= 1.0 ==> Denormalize(yRel, cls) == Ok(ClassRanges[cls].hi)
  {
  }

  /** A higher relative difficulty never gives a lower score. */
  lemma DenormalizeMonotone(y1: real, y2: real, cls: string)
    requires cls in ClassRanges
    requires y1 <= y2
    ensures Denormalize(y1, cls).value <= Denormalize(y2, cls).value
  {
    RangesTile();
    var d := ClassRanges[cls].hi - ClassRanges[cls].lo;
    assert Clip(y1) <= Clip(y2);
    assert Clip(y1) * d <= Clip(y2) * d;
  }

  /** On [0, 1] the mapping is invertible: the score gives back the relative
      difficulty. */
  lemma DenormalizeInverse(yRel: real, cls: string)
    requires cls in ClassRanges
    requires 0.0 <= yRel <= 1.0
    ensures var range := ClassRanges[cls];
      (Denormalize(yRel, cls).value - range.lo) / (range.hi - range.lo) == yRel
  {
    RangesTile();
  }

  /** Every score of a class's range is reached by some relative difficulty
      in [0, 1]. */
  lemma DenormalizeOnto(v: real, cls: string)
    requires cls in ClassRanges
    requires ClassRanges[cls].lo <= v <= ClassRanges[cls].hi
    ensures exists y :: 0.0 <= y <= 1.0 && Denormalize(y, cls) == Ok(v)
  {
    RangesTile();
    var range := ClassRanges[cls];
    var y := (v - range.lo) / (range.hi - range.lo);
    assert 0.0 <= y <= 1.0;
    assert Denormalize(y, cls) == Ok(v);
  }

  /** Whatever the relative difficulties, an easy score never exceeds a
      medium one, and a medium score never exceeds a hard one. */
  lemma DenormalizeOrdersClasses(yEasy: real, yMedium: real, yHard: real)
    ensures Denormalize(yEasy, "easy").value <= Denormalize(yMedium, "medium").value
    ensures Denormalize(yMedium, "medium").value <= Denormalize(yHard, "hard").value
  {
    DenormalizeInRange(yEasy, "easy");
    DenormalizeInRange(yMedium, "medium");
    DenormalizeInRange(yHard, "hard");
  }

  /** Worked values: the ends of a range, clipping on both sides, a midpoint,
      and a label whose case differs from the table's. */
  lemma DenormalizeExamples()
    ensures Denormalize(0.0, "medium") == Ok(2.8)
    ensures Denormalize(1.0, "medium") == Ok(5.5)
    ensures Denormalize(0.5, "medium") == Ok(4.15)
    ensures Denormalize(1.5, "hard") == Ok(9.7)
    ensures Denormalize(-1.0, "easy") == Ok(1.1)
    ensures Denormalize(0.5, "Medium") == Err(UnknownClass("Medium"))
  {
  }
}
