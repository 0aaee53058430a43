/** The library facilities the correction code calls but does not define.

    Each is a function value, so every property proved about the pipeline
    holds for every behaviour these facilities could have. */
module Foreign {
  import opened Results
  import opened Scores

  /** `re.sub(pattern, replacement, text, flags=re.IGNORECASE)`, with its
      arguments in that order: the text with every non-overlapping match of
      the pattern replaced, or `None` when `re` raises (an invalid pattern or
      replacement template). */
  type Substitute = (string, string, string) -> Option<string>

  datatype Runtime = Runtime(
    /** `str.isalnum` applied to one character. */
    isAlnum: char -> bool,
    /** `str.lower`. */
    lower: string -> string,
    /** `SequenceMatcher(None, a, b).ratio()`. */
    ratio: (string, string) -> Score,
    sub: Substitute)
}
