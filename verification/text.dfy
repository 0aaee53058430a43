/** Splitting text into words, joining words back, and peeling the
    non-alphanumeric characters off both ends of a word. */
module Text {

  /** The characters `str.split()` breaks on (`str.isspace`): the ASCII
      controls 9-13 and 28-31, the space, and the Unicode spaces and
      separators. */
  predicate IsSpace(c: char)
  {
    || ('\U{0009}' <= c <= '\U{000D}')
    || ('\U{001C}' <= c <= '\U{0020}')
    || c == '\U{0085}' || c == '\U{00A0}' || c == '\U{1680}'
    || ('\U{2000}' <= c <= '\U{200A}')
    || c == '\U{2028}' || c == '\U{2029}' || c == '\U{202F}' || c == '\U{205F}' || c == '\U{3000}'
  }

  predicate NoSpace(s: string)
  {
    forall i :: 0 <= i < |s| ==> !IsSpace(s[i])
  }

  /** The length of the run of non-space characters `s` starts with. */
  function WordLength(s: string): (n: nat)
    ensures n <= |s|
    ensures NoSpace(s[..n])
    ensures n == |s| || IsSpace(s[n])
    decreases |s|
  {
    if s == [] || IsSpace(s[0]) then 0 else 1 + WordLength(s[1..])
  }

  /** `str.split()`: the maximal runs of non-space characters, in order. */
  function Split(s: string): (words: seq<string>)
    ensures forall i :: 0 <= i < |words| ==> words[i] != [] && NoSpace(words[i])
    decreases |s|
  {
    if s == [] then []
    else if IsSpace(s[0]) then Split(s[1..])
    else
      var n := WordLength(s);
      [s[..n]] + Split(s[n..])
  }

  /** `sep.join(words)`. */
  function Join(words: seq<string>, sep: string): string
  {
    if words == [] then []
    else if |words| == 1 then words[0]
    else words[0] + sep + Join(words[1..], sep)
  }

  /** A concatenation is space-free exactly when its three parts are. */
  lemma NoSpaceConcat(a: string, b: string, c: string)
    ensures NoSpace(a + b + c) <==> NoSpace(a) && NoSpace(b) && NoSpace(c)
  {
    var s := a + b + c;
    assert forall i :: 0 <= i < |a| ==> s[i] == a[i];
    assert forall i :: 0 <= i < |b| ==> s[|a| + i] == b[i];
    assert forall i :: 0 <= i < |c| ==> s[|a| + |b| + i] == c[i];
  }

  /** All the characters of `words`, one after another. */
  function Concat(words: seq<string>): string
  {
    if words == [] then [] else words[0] + Concat(words[1..])
  }

  /** `s` with its space characters deleted. */
  function DropSpaces(s: string): string
  {
    if s == [] then []
    else (if IsSpace(s[0]) then [] else [s[0]]) + DropSpaces(s[1..])
  }

  lemma {:induction false} DropSpacesAppend(a: string, b: string)
    ensures DropSpaces(a + b) == DropSpaces(a) + DropSpaces(b)
    decreases |a|
  {
    if a != [] {
      assert (a + b)[0] == a[0];
      assert (a + b)[1..] == a[1..] + b;
      DropSpacesAppend(a[1..], b);
      var head: string := if IsSpace(a[0]) then [] else [a[0]];
      assert DropSpaces(a + b) == head + (DropSpaces(a[1..]) + DropSpaces(b));
      assert DropSpaces(a) == head + DropSpaces(a[1..]);
    } else {
      assert a + b == b;
    }
  }

  lemma {:induction false} DropSpacesOfWord(w: string)
    requires NoSpace(w)
    ensures DropSpaces(w) == w
    decreases |w|
  {
    if w != [] {
      DropSpacesOfWord(w[1..]);
    }
  }

  /** Splitting loses no non-space character and invents none: the words,
      read one after another, are the text without its spaces. */
  lemma {:induction false} SplitKeepsContent(s: string)
    ensures Concat(Split(s)) == DropSpaces(s)
    decreases |s|
  {
    if s != [] {
      if IsSpace(s[0]) {
        SplitKeepsContent(s[1..]);
      } else {
        var n := WordLength(s);
        assert s == s[..n] + s[n..];
        DropSpacesAppend(s[..n], s[n..]);
        DropSpacesOfWord(s[..n]);
        SplitKeepsContent(s[n..]);
        assert ([s[..n]] + Split(s[n..]))[1..] == Split(s[n..]);
      }
    }
  }

  /** A non-empty word with no space splits to itself. */
  lemma SplitWord(w: string)
    requires w != [] && NoSpace(w)
    ensures Split(w) == [w]
  {
    var n := WordLength(w);
    assert n == |w|;
    assert w[..n] == w;
    assert w[n..] == [];
  }

  /** A run of non-space characters stops where a space follows it. */
  lemma {:induction false} WordLengthBeforeSpace(a: string, t: string)
    requires t != [] && IsSpace(t[0])
    ensures WordLength(a + t) == WordLength(a)
    decreases |a|
  {
    if a == [] {
      assert a + t == t;
    } else {
      assert (a + t)[0] == a[0];
      assert (a + t)[1..] == a[1..] + t;
      WordLengthBeforeSpace(a[1..], t);
    }
  }

  /** Text made only of spaces has no words. */
  lemma {:induction false} SplitAllSpace(s: string)
    requires forall i :: 0 <= i < |s| ==> IsSpace(s[i])
    ensures Split(s) == []
    decreases |s|
  {
    if s != [] {
      SplitAllSpace(s[1..]);
    }
  }

  /** `str.split()` cuts at every space: the words of `a + [c] + b` are the
      words of `a` followed by those of `b`. With `SplitWord` and
      `SplitAllSpace` this determines `Split` on every text. */
  lemma {:induction false} SplitAtSpace(a: string, c: char, b: string)
    requires IsSpace(c)
    ensures Split(a + [c] + b) == Split(a) + Split(b)
    decreases |a|
  {
    var s := a + [c] + b;
    if a == [] {
      assert s == [c] + b;
      assert s[1..] == b;
    } else if IsSpace(a[0]) {
      assert s[0] == a[0];
      assert s[1..] == a[1..] + [c] + b;
      SplitAtSpace(a[1..], c, b);
    } else {
      assert s[0] == a[0];
      assert s == a + ([c] + b);
      WordLengthBeforeSpace(a, [c] + b);
      var n := WordLength(a);
      assert 0 < n;
      assert s[..n] == a[..n];
      assert s[n..] == a[n..] + [c] + b;
      SplitAtSpace(a[n..], c, b);
      assert Split(a) == [a[..n]] + Split(a[n..]);
      assert Split(s) == [a[..n]] + (Split(a[n..]) + Split(b));
    }
  }

  /** Joining non-empty, space-free words with single spaces and splitting
      the result gives the words back. */
  lemma {:induction false} SplitJoin(words: seq<string>)
    requires forall i :: 0 <= i < |words| ==> words[i] != [] && NoSpace(words[i])
    ensures Split(Join(words, " ")) == words
    decreases |words|
  {
    if |words| == 1 {
      SplitWord(words[0]);
    } else if |words| > 1 {
      var w := words[0];
      var tail := Join(words[1..], " ");
      var s := w + " " + tail;
      assert s[0] == w[0];
      var n := WordLength(s);
      assert s[|w|] == ' ';
      assert forall i :: 0 <= i < |w| ==> s[i] == w[i];
      assert n == |w|;
      assert s[..n] == w;
      assert s[n..] == " " + tail;
      assert s[n..][1..] == tail;
      SplitJoin(words[1..]);
      assert Split(s) == [w] + Split(tail);
    }
  }

  /** A word cut into prefix, core and suffix. */
  datatype Token = Token(prefix: string, core: string, suffix: string)

  predicate NoAlnum(isAlnum: char -> bool, s: string)
  {
    forall i :: 0 <= i < |s| ==> !isAlnum(s[i])
  }

  /** The first stripping loop of `apply_fuzzy_corrections`: move leading non-alphanumeric characters
      into the prefix. Returns (prefix, rest). */
  function StripLeading(isAlnum: char -> bool, word: string): (r: (string, string))
    ensures r.0 + r.1 == word
    ensures NoAlnum(isAlnum, r.0)
    ensures r.1 == [] || isAlnum(r.1[0])
    decreases |word|
  {
    if word == [] || isAlnum(word[0]) then ([], word)
    else
      var (prefix, rest) := StripLeading(isAlnum, word[1..]);
      ([word[0]] + prefix, rest)
  }

  /** The second stripping loop of `apply_fuzzy_corrections`: move trailing non-alphanumeric
      characters into the suffix. Returns (core, suffix). */
  function StripTrailing(isAlnum: char -> bool, word: string): (r: (string, string))
    ensures r.0 + r.1 == word
    ensures NoAlnum(isAlnum, r.1)
    ensures r.0 == [] || isAlnum(r.0[|r.0| - 1])
    decreases |word|
  {
    if word == [] || isAlnum(word[|word| - 1]) then (word, [])
    else
      var (core, suffix) := StripTrailing(isAlnum, word[..|word| - 1]);
      (core, suffix + [word[|word| - 1]])
  }

  /** The three-part shape `apply_fuzzy_corrections` gives a word: prefix and suffix hold
      no alphanumeric character, the core starts and ends with one, and a word
      without any alphanumeric character is all prefix. */
  ghost predicate Peeled(isAlnum: char -> bool, word: string, t: Token)
  {
    && t.prefix + t.core + t.suffix == word
    && NoAlnum(isAlnum, t.prefix)
    && NoAlnum(isAlnum, t.suffix)
    && (t.core == [] || (isAlnum(t.core[0]) && isAlnum(t.core[|t.core| - 1])))
    && (t.core == [] ==> t.suffix == [])
  }

  /** Both stripping loops, in order. */
  function Peel(isAlnum: char -> bool, word: string): (t: Token)
    ensures Peeled(isAlnum, word, t)
  {
    var (prefix, rest) := StripLeading(isAlnum, word);
    var (core, suffix) := StripTrailing(isAlnum, rest);
    Token(prefix, core, suffix)
  }

  /** The shape determines the cut: `Peel` is the only decomposition with it. */
  lemma PeelUnique(isAlnum: char -> bool, word: string, t: Token)
    requires Peeled(isAlnum, word, t)
    ensures t == Peel(isAlnum, word)
  {
    var p := Peel(isAlnum, word);
    LeadingCutUnique(isAlnum, word, t, p);
    LeadingCutUnique(isAlnum, word, p, t);
    assert t.prefix + (t.core + t.suffix) == p.prefix + (p.core + p.suffix);
    SameCut(t.prefix, t.core + t.suffix, p.prefix, p.core + p.suffix);
    var rest := t.core + t.suffix;
    TrailingCutUnique(isAlnum, rest, t, p);
    TrailingCutUnique(isAlnum, rest, p, t);
    SameCut(t.core, t.suffix, p.core, p.suffix);
  }

  /** Two cuts of one string at the same place give the same parts. */
  lemma SameCut(a1: string, b1: string, a2: string, b2: string)
    requires a1 + b1 == a2 + b2 && |a1| == |a2|
    ensures a1 == a2 && b1 == b2
  {
    assert a1 == (a1 + b1)[..|a1|] && a2 == (a2 + b2)[..|a2|];
    assert b1 == (a1 + b1)[|a1|..] && b2 == (a2 + b2)[|a2|..];
  }

  lemma LeadingCutUnique(isAlnum: char -> bool, word: string, a: Token, b: Token)
    requires Peeled(isAlnum, word, a) && Peeled(isAlnum, word, b)
    ensures |a.prefix| <= |b.prefix|
  {
    assert forall i :: 0 <= i < |a.prefix| ==> word[i] == a.prefix[i];
    if b.core != [] {
      assert word[|b.prefix|] == b.core[0];
    }
  }

  lemma TrailingCutUnique(isAlnum: char -> bool, rest: string, a: Token, b: Token)
    requires a.core + a.suffix == rest && b.core + b.suffix == rest
    requires NoAlnum(isAlnum, a.suffix) && NoAlnum(isAlnum, b.suffix)
    requires a.core == [] || isAlnum(a.core[|a.core| - 1])
    requires b.core == [] || isAlnum(b.core[|b.core| - 1])
    requires a.core == [] ==> a.suffix == []
    requires b.core == [] ==> b.suffix == []
    ensures |a.suffix| <= |b.suffix|
  {
    assert forall i :: |a.core| <= i < |rest| ==> rest[i] == a.suffix[i - |a.core|];
    if b.core != [] {
      assert rest[|b.core| - 1] == b.core[|b.core| - 1];
    }
  }

  /** A word without alphanumeric characters peels to an empty core. */
  lemma PeelNoAlnum(isAlnum: char -> bool, word: string)
    requires NoAlnum(isAlnum, word)
    ensures Peel(isAlnum, word) == Token(word, [], [])
  {
    PeelUnique(isAlnum, word, Token(word, [], []));
  }
}
