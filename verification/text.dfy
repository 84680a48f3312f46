/** The tokenizer shared by both word counters:
    `text.toLowerCase().replaceAll("[^a-z ]", "").split("\\s+")`. */
module Text {

  predicate IsLetter(c: char)
  {
    'a' <= c <= 'z'
  }

  predicate IsKept(c: char)
  {
    IsLetter(c) || c == ' '
  }

  /** What one character becomes after lowercasing and deleting everything outside `[a-z ]`.
      Upper-case ASCII letters become lower-case; the only other characters whose lower case
      contains an ASCII letter are the Kelvin sign (lower case `k`) and capital I with dot above
      (lower case `i` followed by a combining dot, which the deletion drops). Everything else,
      newlines and tabs included, is deleted rather than turned into a separator. The default
      locale is taken to be neither Turkish nor Azeri, where `I` would lower to a dotless `ı`. */
  function CleanChar(c: char): (r: string)
    ensures forall i | 0 <= i < |r| :: IsKept(r[i])
  {
    if IsKept(c) then [c]
    else if 'A' <= c <= 'Z' then [(c as int + 32) as char]
    else if c == '\U{212A}' then "k"
    else if c == '\U{0130}' then "i"
    else []
  }

  /** `toLowerCase().replaceAll("[^a-z ]", "")`. */
  function Clean(s: string): (r: string)
    ensures forall i | 0 <= i < |r| :: IsKept(r[i])
  {
    if s == [] then [] else CleanChar(s[0]) + Clean(s[1..])
  }

  /** Number of leading characters before the first space. */
  function RunLength(s: string): (n: nat)
    ensures n <= |s|
    ensures forall i | 0 <= i < n :: s[i] != ' '
    ensures n < |s| ==> s[n] == ' '
  {
    if s == [] || s[0] == ' ' then 0 else 1 + RunLength(s[1..])
  }

  /** The maximal runs of non-space characters, in order. */
  function Words(s: string): seq<string>
    decreases |s|
  {
    if s == [] then []
    else if s[0] == ' ' then Words(s[1..])
    else
      var n := RunLength(s);
      [s[..n]] + Words(s[n..])
  }

  /** Java's `split("\\s+")` on a string whose only whitespace is the space: the whole string
      when it has no space (so "" gives [""]); otherwise the words, preceded by one empty
      string when the text starts with a space, and nothing at all when it is only spaces
      (trailing empty strings are dropped). */
  function JavaSplit(s: string): seq<string>
  {
    if ' ' !in s then [s]
    else if Words(s) == [] then []
    else (if s[0] == ' ' then [""] else []) + Words(s)
  }

  /** The non-empty elements, in order: a2's `if (!word.isEmpty())`. */
  function NonEmpty(ws: seq<string>): (r: seq<string>)
    ensures forall i | 0 <= i < |r| :: r[i] != []
  {
    if ws == [] then []
    else if ws[0] == [] then NonEmpty(ws[1..])
    else [ws[0]] + NonEmpty(ws[1..])
  }

  /** The tokens a2's `countWords` records. */
  function Tokens(text: string): seq<string>
  {
    NonEmpty(JavaSplit(Clean(text)))
  }

  /** The tokens src's `countWords` records, empty strings included. */
  function RawTokens(text: string): seq<string>
  {
    JavaSplit(Clean(text))
  }

  /** Words joined with single spaces: the inverse that `Words` undoes. */
  function Join(ws: seq<string>): string
  {
    if ws == [] then [] else if |ws| == 1 then ws[0] else ws[0] + " " + Join(ws[1..])
  }

  predicate IsWord(w: string)
  {
    w != [] && forall i | 0 <= i < |w| :: w[i] != ' '
  }

  // ---------------------------------------------------------------------------
  // Lemmas

  /** Every word is non-empty and holds no space. */
  lemma {:induction false} WordsAreWords(s: string)
    ensures forall i | 0 <= i < |Words(s)| :: IsWord(Words(s)[i])
    decreases |s|
  {
    if s != [] {
      if s[0] == ' ' {
        WordsAreWords(s[1..]);
      } else {
        WordsAreWords(s[RunLength(s)..]);
      }
    }
  }

  /** The words of a text over `[a-z ]` are over `a`-`z`. */
  lemma {:induction false} WordsLetters(s: string)
    requires forall i | 0 <= i < |s| :: IsKept(s[i])
    ensures forall i, j | 0 <= i < |Words(s)| && 0 <= j < |Words(s)[i]| :: IsLetter(Words(s)[i][j])
    decreases |s|
  {
    if s != [] {
      if s[0] == ' ' {
        WordsLetters(s[1..]);
      } else {
        var n := RunLength(s);
        WordsLetters(s[n..]);
        assert forall j | 0 <= j < n :: IsLetter(s[..n][j]);
      }
    }
  }

  /** A text with no space is a single word, or nothing when empty. */
  lemma {:induction false} WordsNoSpace(s: string)
    requires ' ' !in s
    ensures Words(s) == if s == [] then [] else [s]
  {
    if s != [] {
      var n := RunLength(s);
      assert n == |s|;
      assert s[..n] == s && s[n..] == [];
    }
  }

  lemma {:induction false} WordsSpaceFirst(w: string, rest: string)
    requires IsWord(w)
    ensures Words(w + " " + rest) == [w] + Words(rest)
  {
    var s := w + " " + rest;
    assert s[0] == w[0];
    assert forall i | 0 <= i < |w| :: s[i] == w[i];
    assert s[|w|] == ' ';
    RunLengthExact(s, |w|);
    assert s[..|w|] == w;
    assert s[|w|..] == " " + rest;
    assert (" " + rest)[1..] == rest;
  }

  lemma RunLengthExact(s: string, n: nat)
    requires n < |s| && s[n] == ' ' && forall i | 0 <= i < n :: s[i] != ' '
    ensures RunLength(s) == n
  {
  }

  /** Splitting words joined by single spaces gives the words back. */
  lemma {:induction false} WordsJoin(ws: seq<string>)
    requires forall i | 0 <= i < |ws| :: IsWord(ws[i])
    ensures Words(Join(ws)) == ws
    decreases |ws|
  {
    if ws == [] {
    } else if |ws| == 1 {
      WordsNoSpace(ws[0]);
    } else {
      WordsJoin(ws[1..]);
      WordsSpaceFirst(ws[0], Join(ws[1..]));
    }
  }

  lemma {:induction false} NonEmptyWords(ws: seq<string>)
    requires forall i | 0 <= i < |ws| :: IsWord(ws[i])
    ensures NonEmpty(ws) == ws
    decreases |ws|
  {
    if ws != [] {
      NonEmptyWords(ws[1..]);
    }
  }

  /** Dropping the empty strings from Java's split leaves exactly the words. */
  lemma SplitThenDropEmpty(s: string)
    ensures NonEmpty(JavaSplit(s)) == Words(s)
  {
    if ' ' !in s {
      WordsNoSpace(s);
      assert JavaSplit(s) == [s];
    } else if Words(s) != [] {
      WordsAreWords(s);
      NonEmptyWords(Words(s));
      if s[0] == ' ' {
        var ws := [""] + Words(s);
        assert JavaSplit(s) == ws;
        assert ws[1..] == Words(s);
        assert NonEmpty(ws) == NonEmpty(Words(s));
      } else {
        assert JavaSplit(s) == Words(s);
      }
    }
  }

  /** a2's tokens are the words of the cleaned text: non-empty strings over `a`-`z`. */
  lemma TokensSpec(text: string)
    ensures Tokens(text) == Words(Clean(text))
    ensures forall i | 0 <= i < |Tokens(text)| :: Tokens(text)[i] != []
    ensures forall i, j | 0 <= i < |Tokens(text)| && 0 <= j < |Tokens(text)[i]| :: IsLetter(Tokens(text)[i][j])
  {
    SplitThenDropEmpty(Clean(text));
    WordsLetters(Clean(text));
    WordsAreWords(Clean(text));
  }

  /** src keeps the empty strings: a text starting with a space, or an empty text, yields the token "". */
  lemma RawTokensKeepEmpty(text: string)
    requires Clean(text) == [] || (Clean(text)[0] == ' ' && exists i | 0 <= i < |Clean(text)| :: IsLetter(Clean(text)[i]))
    ensures "" in RawTokens(text)
  {
    var s := Clean(text);
    if s != [] {
      var i :| 0 <= i < |s| && IsLetter(s[i]);
      WordsHasLetter(s, i);
    }
  }

  lemma {:induction false} WordsHasLetter(s: string, i: nat)
    requires i < |s| && s[i] != ' '
    ensures Words(s) != []
    decreases |s|
  {
    if s[0] == ' ' {
      WordsHasLetter(s[1..], i - 1);
    }
  }

  lemma {:induction false} CleanAppend(a: string, b: string)
    ensures Clean(a + b) == Clean(a) + Clean(b)
    decreases |a|
  {
    if a == [] {
      assert a + b == b;
    } else {
      assert (a + b)[1..] == a[1..] + b;
      CleanAppend(a[1..], b);
    }
  }

  /** Punctuation is deleted and case is folded: "Hi! hi," has the tokens hi, hi. */
  lemma HelloExample()
    ensures Tokens("Hi! hi,") == ["hi", "hi"]
  {
    HelloClean();
    TokensSpec("Hi! hi,");
    WordsHiHi();
  }

  lemma WordsHiHi()
    ensures Words("hi" + " " + "hi") == ["hi", "hi"]
  {
    WordsSpaceFirst("hi", "hi");
    WordsNoSpace("hi");
  }

  lemma HelloClean()
    ensures Clean("Hi! hi,") == "hi" + " " + "hi"
  {
    assert "Hi!" + " hi," == "Hi! hi,";
    CleanAppend("Hi!", " hi,");
    CleanHi();
    CleanSpaceHi();
  }

  lemma CleanHi()
    ensures Clean("Hi!") == "hi"
  {
  }

  lemma CleanSpaceHi()
    ensures Clean(" hi,") == " hi"
  {
  }

  /** A character outside `[a-z ]` glues its neighbours, a newline included: "e-mail" and
      "a\nb" are one token each. */
  lemma GlueExample()
    ensures Tokens("e-mail") == ["email"]
    ensures Tokens("a\nb") == ["ab"]
  {
    assert Clean("e-mail") == "email";
    TokensSpec("e-mail");
    WordsNoSpace("email");
    assert Clean("a\nb") == "ab";
    TokensSpec("a\nb");
    WordsNoSpace("ab");
  }

  /** Java's split keeps a leading empty string, keeps "" for an empty text and gives nothing
      for a text of spaces only. */
  lemma SplitExamples()
    ensures RawTokens(" a") == ["", "a"]
    ensures RawTokens("!") == [""]
    ensures RawTokens("  ") == []
  {
    assert Clean(" a") == " a";
    assert Words(" a") == Words("a");
    WordsNoSpace("a");
    assert Clean("!") == "";
    assert Clean("  ") == "  ";
    assert Words("  ") == [];
  }
}
