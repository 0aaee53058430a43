/** The pattern stage: an ordered list of (pattern, replacement) rules folded
    over the text, each rule rewriting the output of the rules before it. */
module Rules {
  import opened Results
  import opened Foreign

  datatype Rule = Rule(pattern: string, replacement: string)

  /** Applies `rules` left to right; the first substitution that raises stops
      the whole stage and is reported with the rule that caused it. */
  function ApplyRules(sub: Substitute, text: string, rules: seq<Rule>): (r: Result<string, Rule>)
    ensures r.Failure? ==> r.error in rules
    decreases |rules|
  {
    if rules == [] then Success(text)
    else
      match sub(rules[0].pattern, rules[0].replacement, text)
      case None => Failure(rules[0])
      case Some(next) => ApplyRules(sub, next, rules[1..])
  }

  /** Runs `rules` on a successful intermediate text; a failure passes through. */
  function Continue(sub: Substitute, r: Result<string, Rule>, rules: seq<Rule>): Result<string, Rule>
  {
    match r
    case Failure(e) => Failure(e)
    case Success(text) => ApplyRules(sub, text, rules)
  }

  /** Rules run strictly in list order on cumulative output: applying
      `first + second` is applying `first`, then `second` to its result. */
  lemma {:induction false} ApplyRulesAppend(sub: Substitute, text: string, first: seq<Rule>, second: seq<Rule>)
    ensures ApplyRules(sub, text, first + second) == Continue(sub, ApplyRules(sub, text, first), second)
    decreases |first|
  {
    if first == [] {
      assert first + second == second;
    } else {
      assert (first + second)[0] == first[0];
      assert (first + second)[1..] == first[1..] + second;
      match sub(first[0].pattern, first[0].replacement, text)
      case None =>
      case Some(next) =>
        ApplyRulesAppend(sub, next, first[1..], second);
    }
  }

  /** A text every rule leaves alone (a canonical form) comes through the
      stage unchanged; in particular an empty rule list changes nothing. */
  lemma {:induction false} ApplyRulesFixpoint(sub: Substitute, text: string, rules: seq<Rule>)
    requires forall i :: 0 <= i < |rules| ==> sub(rules[i].pattern, rules[i].replacement, text) == Some(text)
    ensures ApplyRules(sub, text, rules) == Success(text)
    decreases |rules|
  {
    if rules != [] {
      ApplyRulesFixpoint(sub, text, rules[1..]);
    }
  }

  /** If some rule raises on the text produced by the rules before it, the
      stage fails and names that rule (`ApplyRulesFailureCause` is the
      converse). */
  lemma {:induction false} ApplyRulesFailsAt(sub: Substitute, text: string, rules: seq<Rule>, i: nat)
    requires i < |rules|
    requires ApplyRules(sub, text, rules[..i]).Success?
    requires sub(rules[i].pattern, rules[i].replacement, ApplyRules(sub, text, rules[..i]).value).None?
    ensures ApplyRules(sub, text, rules) == Failure(rules[i])
  {
    assert rules == rules[..i] + ([rules[i]] + rules[i + 1..]);
    ApplyRulesAppend(sub, text, rules[..i], [rules[i]] + rules[i + 1..]);
  }

  /** A failure always comes from a rule that raised on the successful output
      of the rules before it. */
  lemma {:induction false} ApplyRulesFailureCause(sub: Substitute, text: string, rules: seq<Rule>)
    requires ApplyRules(sub, text, rules).Failure?
    ensures exists i :: && 0 <= i < |rules|
                        && rules[i] == ApplyRules(sub, text, rules).error
                        && ApplyRules(sub, text, rules[..i]).Success?
                        && sub(rules[i].pattern, rules[i].replacement, ApplyRules(sub, text, rules[..i]).value).None?
    decreases |rules|
  {
    assert rules[..0] == [];
    match sub(rules[0].pattern, rules[0].replacement, text)
    case None =>
    case Some(next) =>
      ApplyRulesFailureCause(sub, next, rules[1..]);
      var i :| && 0 <= i < |rules[1..]|
               && rules[1..][i] == ApplyRules(sub, next, rules[1..]).error
               && ApplyRules(sub, next, rules[1..][..i]).Success?
               && sub(rules[1..][i].pattern, rules[1..][i].replacement, ApplyRules(sub, next, rules[1..][..i]).value).None?;
      assert rules[..i + 1][0] == rules[0];
      assert rules[..i + 1][1..] == rules[1..][..i];
      assert ApplyRules(sub, text, rules[..i + 1]) == ApplyRules(sub, next, rules[1..][..i]);
  }

  /** The loop of `apply_regex_corrections`, step by step; it computes the fold. */
  method ApplyRegexCorrections(sub: Substitute, text: string, patterns: seq<Rule>) returns (r: Result<string, Rule>)
    ensures r == ApplyRules(sub, text, patterns)
  {
    var current := text;
    var i := 0;
    while i < |patterns|
      invariant 0 <= i <= |patterns|
      invariant ApplyRules(sub, text, patterns) == ApplyRules(sub, current, patterns[i..])
    {
      var rule := patterns[i];
      match sub(rule.pattern, rule.replacement, current)
      case None =>
        return Failure(rule);
      case Some(next) =>
        assert patterns[i..][1..] == patterns[i + 1..];
        current := next;
        i := i + 1;
    }
    return Success(current);
  }
}
