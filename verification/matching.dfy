/** Best-match selection: a linear scan of an ordered term list that stops at
    the first case-insensitive exact match and otherwise keeps the earliest
    term with the highest score at or above the threshold. */
module Matching {
  import opened Results
  import opened Scores
  import opened Foreign

  /** What the selection returns: the chosen term (or `None`) and its score. */
  datatype Match = Match(term: Option<string>, score: Score)

  /** Python's `(None, 0)`. */
  const NoMatch: Match := Match(None, Zero)

  /** The score of `term` against the lowercased word. */
  function Similarity(rt: Runtime, wordLower: string, term: string): Score
  {
    rt.ratio(wordLower, rt.lower(term))
  }

  ghost predicate IsExact(rt: Runtime, wordLower: string, term: string)
  {
    rt.lower(term) == wordLower
  }

  /** A term the scan may keep: its score is above the initial 0 and at or
      above the threshold. */
  ghost predicate Qualifies(rt: Runtime, wordLower: string, term: string, threshold: Score)
  {
    Below(Zero, Similarity(rt, wordLower, term)) && AtMost(threshold, Similarity(rt, wordLower, term))
  }

  ghost predicate NoExact(rt: Runtime, wordLower: string, terms: seq<string>)
  {
    forall i :: 0 <= i < |terms| ==> !IsExact(rt, wordLower, terms[i])
  }

  ghost predicate NoneQualifies(rt: Runtime, wordLower: string, terms: seq<string>, threshold: Score)
  {
    forall i :: 0 <= i < |terms| ==> !Qualifies(rt, wordLower, terms[i], threshold)
  }

  /** `terms[j]` is the first exact match. */
  ghost predicate FirstExact(rt: Runtime, wordLower: string, terms: seq<string>, j: int)
  {
    && 0 <= j < |terms|
    && IsExact(rt, wordLower, terms[j])
    && forall i :: 0 <= i < j ==> !IsExact(rt, wordLower, terms[i])
  }

  /** Among the first `n` terms, `terms[k]` qualifies, no qualifying term
      scores higher, and every qualifying term before it scores lower: the
      earliest term attaining the maximum. */
  ghost predicate FirstBest(rt: Runtime, wordLower: string, terms: seq<string>, threshold: Score, k: int, n: int)
  {
    && 0 <= k < n <= |terms|
    && Qualifies(rt, wordLower, terms[k], threshold)
    && (forall j :: 0 <= j < n && Qualifies(rt, wordLower, terms[j], threshold) ==>
          AtMost(Similarity(rt, wordLower, terms[j]), Similarity(rt, wordLower, terms[k])))
    && (forall j :: 0 <= j < k && Qualifies(rt, wordLower, terms[j], threshold) ==>
          Below(Similarity(rt, wordLower, terms[j]), Similarity(rt, wordLower, terms[k])))
  }

  /** The declarative meaning of the selection: the first exact match with
      score one; failing that, the earliest best qualifying term with its
      score; failing that, no match. */
  ghost predicate Chosen(rt: Runtime, wordLower: string, terms: seq<string>, threshold: Score, m: Match)
  {
    || (exists j :: FirstExact(rt, wordLower, terms, j) && m == Match(Some(terms[j]), One))
    || (&& NoExact(rt, wordLower, terms)
        && exists k :: FirstBest(rt, wordLower, terms, threshold, k, |terms|)
                       && m == Match(Some(terms[k]), Similarity(rt, wordLower, terms[k])))
    || (NoExact(rt, wordLower, terms) && NoneQualifies(rt, wordLower, terms, threshold) && m == NoMatch)
  }

  /** The loop of `fuzzy_match` from position `i`, with `best` holding
      `(best_match, best_score)`. */
  function Scan(rt: Runtime, wordLower: string, terms: seq<string>, threshold: Score, i: nat, best: Match): Match
    requires i <= |terms|
    decreases |terms| - i
  {
    if i == |terms| then best
    else
      var termLower := rt.lower(terms[i]);
      if wordLower == termLower then Match(Some(terms[i]), One)
      else
        var score := rt.ratio(wordLower, termLower);
        if Below(best.score, score) && AtMost(threshold, score) then
          Scan(rt, wordLower, terms, threshold, i + 1, Match(Some(terms[i]), score))
        else
          Scan(rt, wordLower, terms, threshold, i + 1, best)
  }

  /** The best match for `word` among `terms`. */
  function FuzzyMatch(rt: Runtime, word: string, terms: seq<string>, threshold: Score): (m: Match)
    ensures m.term.None? ==> m == NoMatch
    ensures m.term.Some? ==> m.term.value in terms
    ensures m.term.Some? ==> AtMost(threshold, m.score)
    ensures Chosen(rt, rt.lower(word), terms, threshold, m)
  {
    ScoreBounds(threshold);
    ScanMeaning(rt, rt.lower(word), terms, threshold, 0, NoMatch, -1);
    Scan(rt, rt.lower(word), terms, threshold, 0, NoMatch)
  }

  /** The loop invariant of the scan: nothing before `i` was an exact match,
      and `best` is the earliest best qualifying term before `i` (index `k`),
      or `(None, 0)` when none qualified (`k < 0`). */
  lemma {:induction false} ScanMeaning(rt: Runtime, wordLower: string, terms: seq<string>, threshold: Score,
                                       i: nat, best: Match, k: int)
    requires i <= |terms|
    requires forall j :: 0 <= j < i ==> !IsExact(rt, wordLower, terms[j])
    requires k < 0 ==> best == NoMatch && forall j :: 0 <= j < i ==> !Qualifies(rt, wordLower, terms[j], threshold)
    requires 0 <= k ==> && FirstBest(rt, wordLower, terms, threshold, k, i)
                        && best == Match(Some(terms[k]), Similarity(rt, wordLower, terms[k]))
    ensures Chosen(rt, wordLower, terms, threshold, Scan(rt, wordLower, terms, threshold, i, best))
    decreases |terms| - i
  {
    if i == |terms| {
      if 0 <= k {
        assert FirstBest(rt, wordLower, terms, threshold, k, |terms|);
      }
    } else if IsExact(rt, wordLower, terms[i]) {
      assert FirstExact(rt, wordLower, terms, i);
    } else {
      var score := Similarity(rt, wordLower, terms[i]);
      if Below(best.score, score) && AtMost(threshold, score) {
        if 0 <= k {
          ScoreBounds(best.score);
          AtMostBelowTrans(Zero, best.score, score);
          forall j | 0 <= j < i && Qualifies(rt, wordLower, terms[j], threshold)
            ensures Below(Similarity(rt, wordLower, terms[j]), score)
          {
            AtMostBelowTrans(Similarity(rt, wordLower, terms[j]), best.score, score);
          }
        }
        assert FirstBest(rt, wordLower, terms, threshold, i, i + 1);
        ScanMeaning(rt, wordLower, terms, threshold, i + 1, Match(Some(terms[i]), score), i);
      } else {
        if 0 <= k {
          BelowOrAtMost(best.score, score);
          assert FirstBest(rt, wordLower, terms, threshold, k, i + 1);
        }
        ScanMeaning(rt, wordLower, terms, threshold, i + 1, best, k);
      }
    }
  }

  lemma FirstExactUnique(rt: Runtime, wordLower: string, terms: seq<string>, j1: int, j2: int)
    requires FirstExact(rt, wordLower, terms, j1) && FirstExact(rt, wordLower, terms, j2)
    ensures j1 == j2
  {
  }

  lemma FirstBestUnique(rt: Runtime, wordLower: string, terms: seq<string>, threshold: Score, k1: int, k2: int)
    requires FirstBest(rt, wordLower, terms, threshold, k1, |terms|)
    requires FirstBest(rt, wordLower, terms, threshold, k2, |terms|)
    ensures k1 == k2
  {
    if k1 < k2 {
      BelowOrAtMost(Similarity(rt, wordLower, terms[k1]), Similarity(rt, wordLower, terms[k2]));
    } else if k2 < k1 {
      BelowOrAtMost(Similarity(rt, wordLower, terms[k2]), Similarity(rt, wordLower, terms[k1]));
    }
  }

  /** The first exact match wins with score one. */
  lemma FuzzyMatchFirstExact(rt: Runtime, word: string, terms: seq<string>, threshold: Score, j: int)
    requires FirstExact(rt, rt.lower(word), terms, j)
    ensures FuzzyMatch(rt, word, terms, threshold) == Match(Some(terms[j]), One)
  {
    var m := FuzzyMatch(rt, word, terms, threshold);
    if j' :| FirstExact(rt, rt.lower(word), terms, j') && m == Match(Some(terms[j']), One) {
      FirstExactUnique(rt, rt.lower(word), terms, j, j');
    }
  }

  /** No term after the first exact match is examined: whatever follows it
      cannot change the result. */
  lemma FuzzyMatchStopsAtExact(rt: Runtime, word: string, terms: seq<string>, rest: seq<string>,
                               threshold: Score, j: int)
    requires FirstExact(rt, rt.lower(word), terms, j)
    ensures FuzzyMatch(rt, word, terms + rest, threshold) == FuzzyMatch(rt, word, terms, threshold)
  {
    assert FirstExact(rt, rt.lower(word), terms + rest, j);
    FuzzyMatchFirstExact(rt, word, terms, threshold, j);
    FuzzyMatchFirstExact(rt, word, terms + rest, threshold, j);
  }

  /** Without an exact match, the earliest term attaining the highest
      qualifying score wins, with that score: ties go to the earlier term. */
  lemma FuzzyMatchFirstBest(rt: Runtime, word: string, terms: seq<string>, threshold: Score, k: int)
    requires NoExact(rt, rt.lower(word), terms)
    requires FirstBest(rt, rt.lower(word), terms, threshold, k, |terms|)
    ensures FuzzyMatch(rt, word, terms, threshold) == Match(Some(terms[k]), Similarity(rt, rt.lower(word), terms[k]))
  {
    var m := FuzzyMatch(rt, word, terms, threshold);
    if k' :| FirstBest(rt, rt.lower(word), terms, threshold, k', |terms|)
             && m == Match(Some(terms[k']), Similarity(rt, rt.lower(word), terms[k'])) {
      FirstBestUnique(rt, rt.lower(word), terms, threshold, k, k');
    }
  }

  /** Without an exact match or a qualifying term the result is `(None, 0)`. */
  lemma FuzzyMatchNothing(rt: Runtime, word: string, terms: seq<string>, threshold: Score)
    requires NoExact(rt, rt.lower(word), terms)
    requires NoneQualifies(rt, rt.lower(word), terms, threshold)
    ensures FuzzyMatch(rt, word, terms, threshold) == NoMatch
  {
  }
}
