/** Similarity scores as exact rationals.

    `difflib.SequenceMatcher.ratio()` returns 2*M/T, where M is the number of
    matched characters and T the combined length of both strings (1.0 when
    T is 0). A score here is the fraction `num / den` with `num = 2*M` and
    `den = T`, so it always lies in [0, 1]; comparisons multiply across
    instead of dividing, and no floating point is involved. T = 0 means
    two empty strings, which never reach `ratio`: they are equal, so the
    exact-match test of `fuzzy_match` (corrections.py line 90) returns
    first. Hence a positive denominator loses nothing. */
module Scores {

  datatype Ratio = Ratio(num: nat, den: nat)

  /** A fraction in [0, 1] with a positive denominator. */
  type Score = r: Ratio | r.num <= r.den && 0 < r.den witness Ratio(0, 1)

  /** The score `best_score` starts from (Python's integer 0). */
  const Zero: Score := Ratio(0, 1)

  /** The score of an exact match (Python's 1.0). */
  const One: Score := Ratio(1, 1)

  /** a < b as real numbers. */
  predicate Below(a: Score, b: Score)
  {
    a.num * b.den < b.num * a.den
  }

  /** a <= b as real numbers. */
  predicate AtMost(a: Score, b: Score)
  {
    a.num * b.den <= b.num * a.den
  }

  /** Every score is at least zero and at most one. */
  lemma ScoreBounds(s: Score)
    ensures AtMost(Zero, s) && AtMost(s, One)
  {
  }

  /** The order on scores is total: a < b or b <= a, never both. */
  lemma BelowOrAtMost(a: Score, b: Score)
    ensures Below(a, b) <==> !AtMost(b, a)
  {
  }

  /** a <= b < c gives a < c. */
  lemma AtMostBelowTrans(a: Score, b: Score, c: Score)
    requires AtMost(a, b) && Below(b, c)
    ensures Below(a, c)
  {
    // a.num * b.den <= b.num * a.den, scaled by c.den
    MulLeft(a.num * b.den, b.num * a.den, c.den);
    // b.num * c.den < c.num * b.den, scaled by a.den
    MulLeftStrict(b.num * c.den, c.num * b.den, a.den);
    assert (a.num * b.den) * c.den == (a.num * c.den) * b.den;
    assert (b.num * a.den) * c.den == (b.num * c.den) * a.den;
    assert (c.num * b.den) * a.den == (c.num * a.den) * b.den;
    assert (a.num * c.den) * b.den < (c.num * a.den) * b.den;
    CancelRight(a.num * c.den, c.num * a.den, b.den);
  }

  lemma MulLeft(x: int, y: int, k: nat)
    requires x <= y
    ensures x * k <= y * k
  {
  }

  lemma MulLeftStrict(x: int, y: int, k: nat)
    requires x < y && 0 < k
    ensures x * k < y * k
  {
  }

  lemma CancelRight(x: int, y: int, k: nat)
    requires x * k < y * k
    ensures x < y
  {
    if y <= x {
      MulLeft(y, x, k);
    }
  }
}
