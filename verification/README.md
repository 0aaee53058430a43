# Transcript correction pipeline — a verified Dafny model

This project models the text-correction pass that post-processes
speech-transcription output (`scripts/lib/corrections.py`). The pass has two
stages:

- the **pattern stage** folds an ordered list of (pattern, replacement) rules
  over the text. Each rule sees the output of the rules before it.
- the **fuzzy stage** splits the text on whitespace. For each word it peels
  leading and trailing punctuation off. It then replaces the remaining core
  with the closest known term when that term is a near miss at or above the
  0.75 threshold, and rejoins the words with single spaces.

`correct_text` runs the built-in rules, then the user's rules, then the fuzzy
stage. That stage looks at the built-in terms first, then the user's.

The library facilities the code calls are not modelled. They are fields of
`Foreign.Runtime`, passed to every operation as function values:

- `re.sub` with `IGNORECASE`, which returns `None` when `re` raises;
- `str.isalnum`;
- `str.lower`;
- `SequenceMatcher.ratio`.

Every property below therefore holds whatever these facilities do. The
whitespace that `str.split()` breaks on is modelled exactly (`Text.IsSpace`).

A similarity score is an exact fraction `num / den` in [0, 1]. Here
`num = 2·M` and `den = T`, as in difflib's 2·M/T. The threshold 0.75 is the
fraction 3/4, and comparisons multiply across: "at or above the threshold"
is `3·den <= 4·num`, that is `8·M >= 3·T`.

Modules:

- `Results`: Option and Result.
- `Scores`: the rational score and its order.
- `Foreign`: the library facilities.
- `Rules`: the pattern stage.
- `Defaults`: the built-in tables.
- `Matching`: `fuzzy_match`.
- `Text`: splitting, joining and peeling.
- `Fuzzy`: the fuzzy stage.
- `Corrector`: `correct_text`.

Behaviour of the code worth knowing:

- A user rule whose pattern or replacement is invalid is not skipped. The
  exception from `re.sub` escapes `correct_text`. The model returns `Failure`
  carrying the offending rule, and no text.
- A term qualifies at a score **at or above** the threshold (`>=`), not
  strictly above it. It must also beat the running best **strictly** (`>`),
  so ties go to the earlier term.
- An empty matched term is never substituted, because Python treats the empty
  string as false in `if match and score < 1.0`.
- The user's extra rules are an ordered sequence in file order, as Python's
  dict iteration gives them. They are not an unordered mapping.

## Model

| member | source | states |
|---|---|---|
| Rules.ApplyRules | scripts/lib/corrections.py:103-107 | a failing pattern stage reports one of the rules it was given |
| Rules.ApplyRulesAppend | scripts/lib/corrections.py:103-107 | rules run in list order on cumulative output: applying `a + b` is applying `a`, then `b` to its result; a failure in `a` skips `b` |
| Rules.ApplyRulesFixpoint | scripts/lib/corrections.py:103-107 | a text every rule leaves unchanged comes through unchanged; the empty rule list is the identity |
| Rules.ApplyRulesFailsAt | scripts/lib/corrections.py:105-106 | when rule `i` raises on the output of rules `0..i-1`, the whole stage fails with rule `i` |
| Rules.ApplyRulesFailureCause | scripts/lib/corrections.py:105-106 | conversely, every failure names a rule that raised on the successful output of the rules before it |
| Rules.ApplyRegexCorrections | scripts/lib/corrections.py:103-107 | the `for` loop of `apply_regex_corrections` computes the same result as the recursive fold, including the rule that raises |
| Defaults.KnownTermKeys | scripts/lib/corrections.py:48-55 | the term keys are distinct, as dict keys are, and each key's canonical form is itself |
| Defaults.BuiltinTablesAgree | scripts/lib/corrections.py:18-55 | data sanity check of the tables: every built-in rule except the Chinese one rewrites to a known term |
| Matching.FuzzyMatch | scripts/lib/corrections.py:76-100 | the result is `(None, 0)`, or a term of the list whose score is at or above the threshold; it is the choice `Chosen` describes: first exact match, else earliest best qualifying term, else none |
| Matching.Scan | scripts/lib/corrections.py:86-100 | the definition of the `for` loop of `fuzzy_match`, with `(best_match, best_score)` as its accumulator; characterised by `ScanMeaning` |
| Matching.ScanMeaning | scripts/lib/corrections.py:81-100 | loop invariant of the scan: no exact match so far, and `(best_match, best_score)` is the earliest best qualifying term so far or `(None, 0)` |
| Matching.FuzzyMatchFirstExact | scripts/lib/corrections.py:89-91 | the first term equal to the word up to case is returned with score one |
| Matching.FuzzyMatchStopsAtExact | scripts/lib/corrections.py:86-91 | terms after the first exact match cannot change the result |
| Matching.FuzzyMatchFirstBest | scripts/lib/corrections.py:93-100 | with no exact match, the earliest term attaining the highest qualifying score is returned with that score |
| Matching.FuzzyMatchNothing | scripts/lib/corrections.py:81-100 | with no exact match and no qualifying term the result is `(None, 0)` |
| Text.Split | scripts/lib/corrections.py:112 | every word of `str.split()` is non-empty and free of whitespace |
| Text.SplitAtSpace | scripts/lib/corrections.py:112 | `str.split()` cuts at every whitespace character: the words of `a + c + b` for a space `c` are the words of `a` then those of `b` |
| Text.SplitAllSpace | scripts/lib/corrections.py:112 | text made only of whitespace has no words |
| Text.SplitWord | scripts/lib/corrections.py:112 | a non-empty space-free word splits to itself |
| Text.SplitKeepsContent | scripts/lib/corrections.py:112 | the words, concatenated, are the text with its whitespace removed |
| Text.Join | scripts/lib/corrections.py:136 | the definition of `' '.join`; characterised by `SplitJoin` |
| Text.SplitJoin | scripts/lib/corrections.py:112-136 | joining non-empty space-free words with single spaces and splitting gives the words back |
| Text.StripLeading | scripts/lib/corrections.py:122-124 | prefix + rest is the word, the prefix has no alphanumeric character, and the rest is empty or starts with one |
| Text.StripTrailing | scripts/lib/corrections.py:125-127 | core + suffix is the input, the suffix has no alphanumeric character, and the core is empty or ends with one |
| Text.Peel | scripts/lib/corrections.py:117-127 | prefix + core + suffix is the word; prefix and suffix are non-alphanumeric runs; the core is empty or bounded by alphanumerics |
| Text.PeelUnique | scripts/lib/corrections.py:117-127 | any decomposition with the shape `Peel` guarantees is the one `Peel` returns |
| Text.PeelNoAlnum | scripts/lib/corrections.py:122-127 | a word with no alphanumeric character peels to all prefix and an empty core |
| Fuzzy.ApplyFuzzy | scripts/lib/corrections.py:110-136 | the definition of `apply_fuzzy_corrections`: split, correct every word, join with single spaces; characterised by `FuzzyTokens`, `FuzzyWithoutTerms` and `FuzzyIdempotent` |
| Fuzzy.CorrectToken | scripts/lib/corrections.py:115-134 | the definition of the per-word loop body: peel, correct a non-empty core, reassemble; characterised by `CorrectTokenShape`, `CorrectTokenNoAlnum`, `CorrectTokenKnown`, `CorrectTokenBelowThreshold`, `CorrectTokenReplaced` and `CorrectTokenSettles` |
| Fuzzy.CorrectCore | scripts/lib/corrections.py:129-132 | the definition of the `if clean_word:` block: the matched term when it is non-empty and scores below one, else the core; characterised by `CorrectCoreKnown` and `CorrectTokenReplaced` |
| Fuzzy.CorrectAll | scripts/lib/corrections.py:113-134 | one corrected word per input word, the i-th being the correction of the i-th |
| Fuzzy.CorrectTokenShape | scripts/lib/corrections.py:117-134 | the corrected word starts with the original prefix, ends with the original suffix, and holds the original core or a term between them |
| Fuzzy.CorrectTokenNoAlnum | scripts/lib/corrections.py:122-134 | a word without alphanumeric characters passes through unchanged |
| Fuzzy.CorrectCoreKnown | scripts/lib/corrections.py:129-132 | a core equal to a term up to case is kept (score one blocks replacement) |
| Fuzzy.CorrectTokenKnown | scripts/lib/corrections.py:129-134 | a word whose core is a known term up to case passes through unchanged |
| Fuzzy.CorrectTokenBelowThreshold | scripts/lib/corrections.py:129-134 | a word whose core scores below the threshold against every term, and matches none exactly, passes through unchanged |
| Fuzzy.CorrectTokenReplaced | scripts/lib/corrections.py:129-134 | otherwise the core is replaced by the earliest best-scoring term, unless that term is empty or scores one |
| Fuzzy.CorrectTokenIsWord | scripts/lib/corrections.py:117-134 | with space-free terms, correcting a word yields a non-empty space-free word |
| Fuzzy.FuzzyTokens | scripts/lib/corrections.py:110-136 | with space-free terms the output splits into exactly the corrected input words, so the word count is preserved |
| Fuzzy.FuzzyWithoutTerms | scripts/lib/corrections.py:110-136 | with no terms the stage only collapses whitespace to single spaces |
| Fuzzy.CorrectTokenSettles | scripts/lib/corrections.py:115-134 | correcting an already corrected word changes nothing, for terms that are empty or start and end with an alphanumeric character |
| Fuzzy.FuzzyIdempotent | scripts/lib/corrections.py:110-136 | for terms that are free of whitespace and are empty or start and end with an alphanumeric character, the fuzzy stage applied twice equals it applied once |
| Corrector.CorrectText | scripts/lib/corrections.py:139-169 | empty text is returned unchanged; a failure names a built-in or user rule |
| Corrector.CorrectTextStages | scripts/lib/corrections.py:150-167 | built-in rules run first, user rules rewrite their output, and the fuzzy stage sees built-in terms before user terms |
| Corrector.CorrectTextBuiltinFailure | scripts/lib/corrections.py:153-164 | a built-in rule that raises ends the correction before any user rule runs |
| Corrector.CorrectTextKeepsCanonical | scripts/lib/corrections.py:139-169 | text no rule rewrites, whose every word is punctuation only or has a core that is a known term up to case, comes back with only its whitespace normalised |
| Corrector.BuiltinReplacementKept | scripts/lib/corrections.py:129-132 | a word whose core is a built-in replacement of lines 18-42 survives the fuzzy stage, since it is a known term of lines 48-55, whatever the user's terms |

## Left out

- `load_user_vocabulary` (scripts/lib/corrections.py:61-73) is not modelled. It checks that the file exists, parses JSON and swallows I/O errors. The user's rules and terms are plain parameters of `CorrectText`. A missing file, an unreadable file or one that is not valid JSON corresponds to passing empty sequences.
- `main` and `VOCAB_FILE` (scripts/lib/corrections.py:14, 172-180) are not modelled. They read stdin, strip it, print, and locate the home directory.
- The matching semantics of `re` (`\b`, `\s*`, `IGNORECASE` on Unicode) are not modelled. The library is foreign, and the substitution is a parameter.
- The internals of `difflib.SequenceMatcher.ratio` are not modelled. The score is a parameter returning a fraction in [0, 1].
- Floating point is not modelled. Scores are compared as exact fractions. Python compares correctly rounded doubles, which agree with the exact comparison except for strings far longer than any transcript word.
- The Unicode tables behind `str.isalnum` and `str.lower` are not modelled. Both are parameters.
- Errors from an ill-typed vocabulary file are not modelled; the model assumes a well-typed vocabulary (an object of strings and a list of strings). `load_user_vocabulary` catches only `JSONDecodeError` and `IOError` (scripts/lib/corrections.py:72), so a file that is not UTF-8 (`UnicodeDecodeError`) or whose top level is not an object (`AttributeError` from `data.get`) escapes, as does a `corrections` value without `.items()` (line 154) or a `known_terms` value that is not a list (line 158).
- Duplicate keys in the user's JSON object are not modelled. The user's rules arrive as an already de-duplicated ordered sequence.
- `Fuzzy.FuzzyTokens`: the word count is only preserved when the terms contain no whitespace. A user term with a space splits into several words when the output is split again.
- `Fuzzy.FuzzyIdempotent`: stated only for terms that are free of whitespace and are empty or start and end with an alphanumeric character. A term ending in punctuation is peeled differently on a second pass, and a term holding a space splits into several words on the second pass, each corrected on its own (with difflib's scores, terms `["ab cd", "abc"]` take `abxcd` to `ab cd`, then to `abc cd`).
