/** The whole correction: the pattern stage with the built-in rules followed
    by the user's, then the fuzzy stage with the built-in terms followed by
    the user's. */
module Corrector {
  import opened Results
  import opened Foreign
  import opened Rules
  import opened Defaults
  import opened Text
  import opened Fuzzy

  /** Corrects `text` given the user's extra rules and terms (in file order).
      An empty text is returned untouched; a rule whose substitution raises
      aborts the correction and is reported. */
  function CorrectText(rt: Runtime, text: string, userRules: seq<Rule>, userTerms: seq<string>): (r: Result<string, Rule>)
    ensures text == [] ==> r == Success(text)
    ensures r.Failure? ==> r.error in DefaultCorrections + userRules
  {
    if text == [] then Success(text)
    else
      match ApplyRules(rt.sub, text, DefaultCorrections + userRules)
      case Failure(rule) => Failure(rule)
      case Success(rewritten) => Success(ApplyFuzzy(rt, rewritten, KnownTermKeys() + userTerms))
  }

  /** The built-in rules run first, the user's rules then rewrite their
      output, and the fuzzy stage sees the built-in terms before the user's. */
  lemma CorrectTextStages(rt: Runtime, text: string, userRules: seq<Rule>, userTerms: seq<string>)
    requires text != []
    ensures CorrectText(rt, text, userRules, userTerms)
              == match Continue(rt.sub, ApplyRules(rt.sub, text, DefaultCorrections), userRules)
                 case Failure(rule) => Failure(rule)
                 case Success(rewritten) => Success(ApplyFuzzy(rt, rewritten, KnownTermKeys() + userTerms))
  {
    ApplyRulesAppend(rt.sub, text, DefaultCorrections, userRules);
  }

  /** A built-in rule that raises stops the correction before any user rule
      runs. */
  lemma CorrectTextBuiltinFailure(rt: Runtime, text: string, userRules: seq<Rule>, userTerms: seq<string>)
    requires text != []
    requires ApplyRules(rt.sub, text, DefaultCorrections).Failure?
    ensures CorrectText(rt, text, userRules, userTerms) == ApplyRules(rt.sub, text, DefaultCorrections)
  {
    ApplyRulesAppend(rt.sub, text, DefaultCorrections, userRules);
  }

  /** Text already in canonical form, which no rule rewrites and whose every
      word is punctuation only or has a core that is a known term up to case,
      comes back with only its whitespace normalised. */
  lemma CorrectTextKeepsCanonical(rt: Runtime, text: string, userRules: seq<Rule>, userTerms: seq<string>)
    requires forall i :: 0 <= i < |DefaultCorrections + userRules| ==>
               var rule := (DefaultCorrections + userRules)[i];
               rt.sub(rule.pattern, rule.replacement, text) == Some(text)
    requires forall w :: w in Split(text) ==>
               || Peel(rt.isAlnum, w).core == []
               || exists j :: 0 <= j < |KnownTermKeys() + userTerms|
                              && rt.lower((KnownTermKeys() + userTerms)[j]) == rt.lower(Peel(rt.isAlnum, w).core)
    ensures CorrectText(rt, text, userRules, userTerms) == Success(Join(Split(text), " "))
  {
    if text != [] {
      var terms := KnownTermKeys() + userTerms;
      ApplyRulesFixpoint(rt.sub, text, DefaultCorrections + userRules);
      var words := Split(text);
      forall i | 0 <= i < |words|
        ensures CorrectToken(rt, terms, words[i]) == words[i]
      {
        if Peel(rt.isAlnum, words[i]).core != [] {
          var j :| 0 <= j < |terms| && rt.lower(terms[j]) == rt.lower(Peel(rt.isAlnum, words[i]).core);
          CorrectTokenKnown(rt, terms, words[i], j);
        }
      }
      assert CorrectAll(rt, terms, words) == words;
    }
  }

  /** A word whose core is what a built-in rule (other than the Chinese one)
      rewrites to is left alone by the fuzzy stage, whatever the user's terms. */
  lemma BuiltinReplacementKept(rt: Runtime, userTerms: seq<string>, word: string, i: int)
    requires 0 <= i < |DefaultCorrections| - 1
    requires Peel(rt.isAlnum, word).core == DefaultCorrections[i].replacement
    ensures CorrectToken(rt, KnownTermKeys() + userTerms, word) == word
  {
    BuiltinTablesAgree();
    var keys := KnownTermKeys();
    var j :| 0 <= j < |keys| && keys[j] == DefaultCorrections[i].replacement;
    assert (keys + userTerms)[j] == keys[j];
    CorrectTokenKnown(rt, keys + userTerms, word, j);
  }
}
