/** The fuzzy stage: every whitespace-separated word has its punctuation
    peeled off, its core replaced by the best near-miss known term, and the
    words are joined again with single spaces. */
module Fuzzy {
  import opened Scores
  import opened Foreign
  import opened Matching
  import opened Text
  import opened Defaults

  /** The core put back after matching: the matched term when there is one,
      it is a non-empty string (Python's truthiness) and it is not an exact
      match (score below one); otherwise the core itself. */
  function CorrectCore(rt: Runtime, core: string, terms: seq<string>): string
  {
    var m := FuzzyMatch(rt, core, terms, FuzzyThreshold);
    if m.term.Some? && m.term.value != [] && Below(m.score, One) then m.term.value else core
  }

  /** One word: prefix + (possibly replaced) core + suffix. */
  function CorrectToken(rt: Runtime, terms: seq<string>, word: string): string
  {
    var t := Peel(rt.isAlnum, word);
    var core := if t.core != [] then CorrectCore(rt, t.core, terms) else t.core;
    t.prefix + core + t.suffix
  }

  /** Every word corrected, in order. */
  function CorrectAll(rt: Runtime, terms: seq<string>, words: seq<string>): (out: seq<string>)
    ensures |out| == |words|
    ensures forall i :: 0 <= i < |words| ==> out[i] == CorrectToken(rt, terms, words[i])
  {
    if words == [] then [] else [CorrectToken(rt, terms, words[0])] + CorrectAll(rt, terms, words[1..])
  }

  /** The whole fuzzy stage. */
  function ApplyFuzzy(rt: Runtime, text: string, terms: seq<string>): string
  {
    Join(CorrectAll(rt, terms, Split(text)), " ")
  }

  /** Any exact match among the terms implies a first one. */
  lemma {:induction false} FirstExactExists(rt: Runtime, wordLower: string, terms: seq<string>, j: int)
    requires 0 <= j < |terms| && IsExact(rt, wordLower, terms[j])
    ensures exists i :: FirstExact(rt, wordLower, terms, i)
    decreases j
  {
    if i :| 0 <= i < j && IsExact(rt, wordLower, terms[i]) {
      FirstExactExists(rt, wordLower, terms, i);
    } else {
      assert FirstExact(rt, wordLower, terms, j);
    }
  }

  /** A core equal to a known term up to case is kept: the match has score
      one and `apply_fuzzy_corrections` only replaces below one. */
  lemma CorrectCoreKnown(rt: Runtime, core: string, terms: seq<string>, j: int)
    requires 0 <= j < |terms| && rt.lower(terms[j]) == rt.lower(core)
    ensures CorrectCore(rt, core, terms) == core
  {
    FirstExactExists(rt, rt.lower(core), terms, j);
    var i :| FirstExact(rt, rt.lower(core), terms, i);
    FuzzyMatchFirstExact(rt, core, terms, FuzzyThreshold, i);
  }

  /** The corrected word keeps the original prefix and suffix, and between
      them holds either the original core or a term of the list. */
  lemma CorrectTokenShape(rt: Runtime, terms: seq<string>, word: string)
    ensures var t := Peel(rt.isAlnum, word);
            var r := CorrectToken(rt, terms, word);
            && t.prefix + t.core + t.suffix == word
            && |t.prefix| + |t.suffix| <= |r|
            && r[..|t.prefix|] == t.prefix
            && r[|r| - |t.suffix|..] == t.suffix
            && (r[|t.prefix|..|r| - |t.suffix|] == t.core || r[|t.prefix|..|r| - |t.suffix|] in terms)
  {
    var t := Peel(rt.isAlnum, word);
    var core := if t.core != [] then CorrectCore(rt, t.core, terms) else t.core;
    var r := t.prefix + core + t.suffix;
    assert r[..|t.prefix|] == t.prefix;
    assert r[|r| - |t.suffix|..] == t.suffix;
    assert r[|t.prefix|..|r| - |t.suffix|] == core;
  }

  /** A word without alphanumeric characters passes through unchanged. */
  lemma CorrectTokenNoAlnum(rt: Runtime, terms: seq<string>, word: string)
    requires NoAlnum(rt.isAlnum, word)
    ensures CorrectToken(rt, terms, word) == word
  {
    PeelNoAlnum(rt.isAlnum, word);
  }

  /** A word whose core equals a known term up to case passes through
      unchanged. */
  lemma CorrectTokenKnown(rt: Runtime, terms: seq<string>, word: string, j: int)
    requires 0 <= j < |terms| && rt.lower(terms[j]) == rt.lower(Peel(rt.isAlnum, word).core)
    ensures CorrectToken(rt, terms, word) == word
  {
    CorrectCoreKnown(rt, Peel(rt.isAlnum, word).core, terms, j);
  }

  /** A word whose core is no exact match and scores below the threshold
      (or zero) against every term passes through unchanged. */
  lemma CorrectTokenBelowThreshold(rt: Runtime, terms: seq<string>, word: string)
    requires NoExact(rt, rt.lower(Peel(rt.isAlnum, word).core), terms)
    requires NoneQualifies(rt, rt.lower(Peel(rt.isAlnum, word).core), terms, FuzzyThreshold)
    ensures CorrectToken(rt, terms, word) == word
  {
    FuzzyMatchNothing(rt, Peel(rt.isAlnum, word).core, terms, FuzzyThreshold);
  }

  /** Otherwise the core is replaced by the earliest best-scoring term, unless
      that term is empty or scores exactly one. */
  lemma CorrectTokenReplaced(rt: Runtime, terms: seq<string>, word: string, k: int)
    requires Peel(rt.isAlnum, word).core != []
    requires NoExact(rt, rt.lower(Peel(rt.isAlnum, word).core), terms)
    requires FirstBest(rt, rt.lower(Peel(rt.isAlnum, word).core), terms, FuzzyThreshold, k, |terms|)
    ensures var t := Peel(rt.isAlnum, word);
            var score := Similarity(rt, rt.lower(t.core), terms[k]);
            CorrectToken(rt, terms, word)
              == if terms[k] != [] && Below(score, One) then t.prefix + terms[k] + t.suffix else word
  {
    FuzzyMatchFirstBest(rt, Peel(rt.isAlnum, word).core, terms, FuzzyThreshold, k);
  }

  /** With space-free terms, a non-empty space-free word stays so. */
  lemma CorrectTokenIsWord(rt: Runtime, terms: seq<string>, word: string)
    requires forall i :: 0 <= i < |terms| ==> NoSpace(terms[i])
    requires word != [] && NoSpace(word)
    ensures var r := CorrectToken(rt, terms, word); r != [] && NoSpace(r)
  {
    var t := Peel(rt.isAlnum, word);
    var core := if t.core != [] then CorrectCore(rt, t.core, terms) else t.core;
    NoSpaceConcat(t.prefix, t.core, t.suffix);
    NoSpaceConcat(t.prefix, core, t.suffix);
  }

  /** With space-free terms, the output splits into exactly the corrected
      input words: one output word per input word, in order. */
  lemma FuzzyTokens(rt: Runtime, text: string, terms: seq<string>)
    requires forall i :: 0 <= i < |terms| ==> NoSpace(terms[i])
    ensures Split(ApplyFuzzy(rt, text, terms)) == CorrectAll(rt, terms, Split(text))
    ensures |Split(ApplyFuzzy(rt, text, terms))| == |Split(text)|
  {
    var words := Split(text);
    var out := CorrectAll(rt, terms, words);
    forall i | 0 <= i < |out|
      ensures out[i] != [] && NoSpace(out[i])
    {
      CorrectTokenIsWord(rt, terms, words[i]);
    }
    SplitJoin(out);
  }

  /** With no known terms the stage only normalises whitespace. */
  lemma FuzzyWithoutTerms(rt: Runtime, text: string)
    ensures ApplyFuzzy(rt, text, []) == Join(Split(text), " ")
  {
    var words := Split(text);
    forall i | 0 <= i < |words|
      ensures CorrectToken(rt, [], words[i]) == words[i]
    {
      CorrectTokenBelowThreshold(rt, [], words[i]);
    }
    assert CorrectAll(rt, [], words) == words;
  }

  /** A term that is space-free and starts and ends with an alphanumeric
      character (or is empty, and so never substituted). */
  ghost predicate WellFormedTerm(rt: Runtime, term: string)
  {
    NoSpace(term) && BoundedTerm(rt, term)
  }

  /** A term that starts and ends with an alphanumeric character (or is
      empty, and so never substituted): it peels back to itself. */
  ghost predicate BoundedTerm(rt: Runtime, term: string)
  {
    term == [] || (rt.isAlnum(term[0]) && rt.isAlnum(term[|term| - 1]))
  }

  /** Correcting a corrected word changes nothing more. */
  lemma CorrectTokenSettles(rt: Runtime, terms: seq<string>, word: string)
    requires forall i :: 0 <= i < |terms| ==> BoundedTerm(rt, terms[i])
    ensures var r := CorrectToken(rt, terms, word); CorrectToken(rt, terms, r) == r
  {
    var t := Peel(rt.isAlnum, word);
    var r := CorrectToken(rt, terms, word);
    if t.core != [] && CorrectCore(rt, t.core, terms) != t.core {
      var m := FuzzyMatch(rt, t.core, terms, FuzzyThreshold);
      var x := m.term.value;
      assert x != [] && x in terms;
      var j :| 0 <= j < |terms| && terms[j] == x;
      assert BoundedTerm(rt, x);
      PeelUnique(rt.isAlnum, r, Token(t.prefix, x, t.suffix));
      CorrectCoreKnown(rt, x, terms, j);
    }
  }

  /** With well-formed terms the fuzzy stage is idempotent. */
  lemma FuzzyIdempotent(rt: Runtime, text: string, terms: seq<string>)
    requires forall i :: 0 <= i < |terms| ==> WellFormedTerm(rt, terms[i])
    ensures ApplyFuzzy(rt, ApplyFuzzy(rt, text, terms), terms) == ApplyFuzzy(rt, text, terms)
  {
    var out := CorrectAll(rt, terms, Split(text));
    FuzzyTokens(rt, text, terms);
    forall i | 0 <= i < |out|
      ensures CorrectToken(rt, terms, out[i]) == out[i]
    {
      CorrectTokenSettles(rt, terms, Split(text)[i]);
    }
    assert CorrectAll(rt, terms, out) == out;
  }
}
