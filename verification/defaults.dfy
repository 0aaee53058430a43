/** The built-in tables: the default rules, the known terms and the fuzzy
    threshold, as immutable ordered sequences. */
module Defaults {
  import opened Scores
  import opened Rules

  /** The default rules, most specific first within each group. Patterns are
      written in `re` syntax (`\b` word boundary, `\s*` optional spacing). */
  const DefaultCorrections: seq<Rule> := [
    // the product name
    Rule("\\bcloud\\s*boot\\b", "clawdbot"),
    Rule("\\bcloudboot\\b", "clawdbot"),
    Rule("\\bclowdbot\\b", "clawdbot"),
    Rule("\\bclawd\\s*bot\\b", "clawdbot"),
    Rule("\\bcloud\\s*bot\\b", "clawdbot"),
    // the status word
    Rule("\\bpro\\s*system\\b", "processed"),
    Rule("\\bprocess\\s*system\\b", "processed"),
    Rule("\\bprocess\\s*ed\\b", "processed"),
    Rule("\\bprossed\\b", "processed"),
    Rule("\\bprosess\\b", "processed"),
    Rule("\\bprosed\\b", "processed"),
    // the directory name
    Rule("\\bAMVZ\\b", "anvz"),
    Rule("\\bamvz\\b", "anvz"),
    Rule("\\bAVZ\\b", "anvz"),
    Rule("\\bavz\\b", "anvz"),
    Rule("\\bAMZ\\b", "anvz"),
    Rule("\\bamz\\b", "anvz"),
    Rule("\\bANVZ\\b", "anvz"),
    // a commonly confused Chinese pronoun pair
    Rule("帮你", "帮我")
  ]

  /** The known-term table (term, canonical form), in declaration order. */
  const KnownTerms: seq<(string, string)> := [
    ("clawdbot", "clawdbot"),
    ("processed", "processed"),
    ("anvz", "anvz"),
    ("inbound", "inbound"),
    ("outbound", "outbound"),
    ("media", "media")
  ]

  /** The keys of the known-term table, in declaration order. Like the keys
      of a Python dict they are distinct, and each maps to itself. */
  function KnownTermKeys(): (keys: seq<string>)
    ensures |keys| == |KnownTerms|
    ensures forall i, j :: 0 <= i < j < |keys| ==> keys[i] != keys[j]
    ensures forall i :: 0 <= i < |keys| ==> KnownTerms[i] == (keys[i], keys[i])
  {
    seq(|KnownTerms|, i requires 0 <= i < |KnownTerms| => KnownTerms[i].0)
  }

  /** The fuzzy threshold 0.75. */
  const FuzzyThreshold: Score := Ratio(3, 4)

  /** Every built-in rule except the Chinese one rewrites to a known term; so a word a built-in
      rule produces is left alone by the fuzzy stage
      (`Corrector.BuiltinReplacementKept`). */
  lemma BuiltinTablesAgree()
    ensures forall i :: 0 <= i < |DefaultCorrections| - 1 ==> DefaultCorrections[i].replacement in KnownTermKeys()
  {
    var keys := KnownTermKeys();
    assert keys == ["clawdbot", "processed", "anvz", "inbound", "outbound", "media"];
    assert keys[0] == "clawdbot" && keys[1] == "processed" && keys[2] == "anvz";
  }
}
