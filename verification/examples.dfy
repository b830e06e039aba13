/** Tokenizer facts about lowercase words and their separators, and worked
    analyses on a small English lexicon: one scoring word and one negation word. */
module Examples {
  import opened Wrappers
  import opened Seqs
  import opened Tokenizer
  import opened Dictionary
  import opened Scorer
  import Text

  /** "good" scores 3 in English and "not" is an English negation word. */
  function English(): Lexicon
  {
    Lexicon(map["en" := map["good" := 3]], map["en" := map["not" := true]], map[])
  }

  /** A non-empty run of ASCII lowercase letters. */
  predicate IsLowerWord(w: string) {
    |w| > 0 && forall i :: 0 <= i < |w| ==> 'a' <= w[i] <= 'z'
  }

  /** Lowercase letters and single spaces, starting with a letter. */
  predicate IsLetterText(s: string) {
    && |s| > 0 && s[0] != ' '
    && (forall i :: 0 <= i < |s| ==> 'a' <= s[i] <= 'z' || s[i] == ' ')
    && (forall i :: 0 <= i < |s| - 1 ==> s[i] != ' ' || s[i + 1] != ' ')
  }

  /** Lowercase words joined by single spaces are letter text. */
  lemma {:induction false} JoinLowerWords(words: seq<string>)
    requires |words| >= 1
    requires forall i :: 0 <= i < |words| ==> IsLowerWord(words[i])
    ensures IsLetterText(Join(words))
    decreases |words|
  {
    if |words| > 1 {
      JoinLowerWords(words[1..]);
      var w, rest := words[0], Join(words[1..]);
      var s := w + " " + rest;
      assert IsLowerWord(w);
      forall i | 0 <= i < |s|
        ensures 'a' <= s[i] <= 'z' || s[i] == ' '
      {
        if i > |w| {
          assert s[i] == rest[i - |w| - 1];
        }
      }
      forall i | 0 <= i < |s| - 1
        ensures s[i] != ' ' || s[i + 1] != ' '
      {
        if i > |w| {
          assert s[i] == rest[i - |w| - 1] && s[i + 1] == rest[i - |w|];
        } else if i == |w| {
          assert s[i + 1] == rest[0];
        }
      }
    }
  }

  /** Letter text is already normalized. */
  lemma LetterTextIsNormalized(s: string)
    requires IsLetterText(s)
    ensures Normalized(s) && NoDoubleWhitespace(s)
  {
    assert forall i :: 0 <= i < |s| ==> (Text.IsWhitespace(s[i]) <==> s[i] == ' ');
  }

  /** Lowercase words joined by single spaces tokenize back to the words. */
  lemma TokenizePlain(words: seq<string>)
    requires |words| >= 1
    requires forall i :: 0 <= i < |words| ==> IsLowerWord(words[i])
    ensures Tokenize(Join(words)) == words
  {
    var s := Join(words);
    JoinLowerWords(words);
    LetterTextIsNormalized(s);
    TokenizeNormalized(s);
    assert forall i :: 0 <= i < |words| ==> ' ' !in words[i] by {
      forall i | 0 <= i < |words|
        ensures ' ' !in words[i]
      {
        assert IsLowerWord(words[i]);
      }
    }
    JoinSplit(words);
  }

  /** Text without capitals is unchanged by lowercasing. */
  lemma LowerKeeps(s: string)
    requires forall i :: 0 <= i < |s| ==> !Text.IsAsciiUpper(s[i])
    ensures Lower(s) == s
  {
  }

  /** Two space-free words joined by one space split back into the two words. */
  lemma SplitTwoWords(u: string, v: string)
    requires IsLowerWord(u) && IsLowerWord(v)
    ensures SplitOnSpace(u + " " + v) == [u, v]
  {
    assert Join([u, v]) == u + " " + v by {
      assert [u, v][1..] == [v];
    }
    assert ' ' !in u && ' ' !in v;
    JoinSplit([u, v]);
  }

  /** Two lowercase words joined by one space are already normalized. */
  lemma TwoWordsNormalized(u: string, v: string)
    requires IsLowerWord(u) && IsLowerWord(v)
    ensures Normalized(u + " " + v) && NoDoubleWhitespace(u + " " + v)
  {
    assert Join([u, v]) == u + " " + v by {
      assert [u, v][1..] == [v];
    }
    JoinLowerWords([u, v]);
    LetterTextIsNormalized(u + " " + v);
  }

  /** The line break between two lowercase words becomes one space. */
  lemma BreakBecomesSpace(u: string, sep: string, v: string)
    requires IsLowerWord(u) && IsLowerWord(v)
    requires sep == "\n" || sep == "\r\n" || sep == "\r"
    ensures ReplaceLineBreaks(Lower(u + sep + v)) == u + " " + v
  {
    var s := u + sep + v;
    assert Lower(s) == s by {
      forall i | 0 <= i < |s|
        ensures !Text.IsAsciiUpper(s[i])
      {
        if i < |u| {
          assert s[i] == u[i];
        } else if i >= |u| + |sep| {
          assert s[i] == v[i - |u| - |sep|];
        }
      }
      LowerKeeps(s);
    }
    assert ReplaceLineBreaks(u) == u && ReplaceLineBreaks(v) == v;
    LineBreakUnits(' ');
    LineBreakConcat(sep, v);
    ConcatAssoc(u, sep, v);
    LineBreakConcat(u, sep + v);
    ConcatAssoc(u, " ", v);
  }

  /** Two words on either side of a line break (LF, CRLF or a lone CR) are
      two tokens: the break becomes one space. */
  lemma WordsAcrossLineBreak(u: string, sep: string, v: string)
    requires IsLowerWord(u) && IsLowerWord(v)
    requires sep == "\n" || sep == "\r\n" || sep == "\r"
    ensures Tokenize(u + sep + v) == [u, v]
  {
    var t := u + " " + v;
    BreakBecomesSpace(u, sep, v);
    TwoWordsNormalized(u, v);
    assert StripPunctuation(t) == t;
    CollapseIdentity(t);
    SplitTwoWords(u, v);
  }

  /** Lowercase words joined by whitespace other than line breaks survive
      the first three rewrites unchanged. */
  lemma RunSurvivesStripping(u: string, w: string, v: string)
    requires IsLowerWord(u) && IsLowerWord(v)
    requires forall i :: 0 <= i < |w| ==> Text.IsWhitespace(w[i]) && !Text.IsLineBreak(w[i])
    ensures StripPunctuation(ReplaceLineBreaks(Lower(u + w + v))) == u + w + v
  {
    var s := u + w + v;
    forall i | 0 <= i < |s|
      ensures !Text.IsAsciiUpper(s[i]) && !Text.IsLineBreak(s[i]) && !Text.IsStripped(s[i])
    {
      if i < |u| {
        assert s[i] == u[i];
      } else if i < |u| + |w| {
        assert s[i] == w[i - |u|];
      } else {
        assert s[i] == v[i - |u| - |w|];
      }
    }
    LowerKeeps(s);
  }

  /** A run of two or more whitespace characters between two lowercase
      words collapses to one space. */
  lemma RunBecomesSpace(u: string, w: string, v: string)
    requires IsLowerWord(u) && IsLowerWord(v)
    requires |w| >= 2
    requires forall i :: 0 <= i < |w| ==> Text.IsWhitespace(w[i])
    ensures CollapseWhitespace(u + w + v) == u + " " + v
  {
    JoinLowerWords([u]);
    JoinLowerWords([v]);
    LetterTextIsNormalized(u);
    LetterTextIsNormalized(v);
    CollapseIdentity(u);
    CollapseIdentity(v);
    CollapseBetween(u, w, v);
  }

  /** Two words on either side of a run of two or more whitespace
      characters (no line break among them) are two tokens: the run becomes
      one space. A single such character, a tab say, would stay inside the
      token, since only runs of two or more are collapsed. */
  lemma WordsAcrossWhitespaceRun(u: string, w: string, v: string)
    requires IsLowerWord(u) && IsLowerWord(v)
    requires |w| >= 2
    requires forall i :: 0 <= i < |w| ==> Text.IsWhitespace(w[i]) && !Text.IsLineBreak(w[i])
    ensures Tokenize(u + w + v) == [u, v]
  {
    var s := u + w + v;
    assert Normalize(s) == u + " " + v by {
      RunSurvivesStripping(u, w, v);
      RunBecomesSpace(u, w, v);
    }
    SplitTwoWords(u, v);
  }

  // The examples below take their phrase (or token list) as a parameter
  // pinned to a literal by `requires`, instead of writing the literal into
  // the ensures: that keeps the verifier from unfolding the tokenizer on the
  // literal in every clause, which is slow.

  lemma TokenizeGood(phrase: string)
    requires phrase == "good"
    ensures Tokenize(phrase) == ["good"]
  {
    assert IsLowerWord("good");
    TokenizePlain(["good"]);
  }

  /** In English, "good" scores 3 and is not a negation word. */
  lemma ScoreGood(ts: seq<string>)
    requires ts == ["good"]
    ensures Reverse(Matched(English(), Some("en"), ts)) == ts
    ensures SumWeights(English(), Some("en"), ts) == 3
    ensures !IsNegation(English(), Some("en"), ts[0])
    ensures Positives(English(), Some("en"), ts) == ts
    ensures Negatives(English(), Some("en"), ts) == []
  {
    var lex, lang := English(), Some("en");
    assert ts[1..] == [] && ts[..0] == [];
    assert Weight(lex, lang, ts[0]) == 3;
    assert Matched(lex, lang, ts) == ts;
  }

  lemma GoodIsPositive(phrase: string, detect: string -> Option<string>)
    requires phrase == "good"
    ensures var r := Analyze(English(), Some(phrase), Some("en"), detect);
      && r.tokens == ["good"] && r.score == 3 && r.vote == Positive
      && r.words == ["good"] && r.positive == ["good"] && r.negative == []
      && !r.negation && r.language == Some("en")
  {
    TokenizeGood(phrase);
    ScoreGood(["good"]);
  }

  lemma TokenizeNotGood(phrase: string)
    requires phrase == "not good"
    ensures Tokenize(phrase) == ["not", "good"]
  {
    var ts := ["not", "good"];
    assert ts[1..] == ["good"];
    assert Join(ts) == "not" + " " + "good" == phrase;
    assert IsLowerWord("not") && IsLowerWord("good");
    TokenizePlain(ts);
  }

  /** In English, "not" negates and "good" scores 3. */
  lemma ScoreNotGood(ts: seq<string>)
    requires ts == ["not", "good"]
    ensures Matched(English(), Some("en"), ts) == ["good"]
    ensures SumWeights(English(), Some("en"), ts) == 3
    ensures IsNegation(English(), Some("en"), ts[0])
  {
    var lex, lang := English(), Some("en");
    assert ts[1..] == ["good"];
    assert Weight(lex, lang, ts[0]) == 0;
    assert Weight(lex, lang, ts[1]) == 3;
    assert SumWeights(lex, lang, ts[1..]) == 3 by {
      assert ts[1..][1..] == [];
    }
  }

  lemma NotGoodIsNegative(phrase: string, detect: string -> Option<string>)
    requires phrase == "not good"
    ensures var r := Analyze(English(), Some(phrase), Some("en"), detect);
      && r.tokens == ["not", "good"] && r.score == -3 && r.vote == Negative
      && r.words == ["good"] && r.negation
  {
    TokenizeNotGood(phrase);
    ScoreNotGood(["not", "good"]);
  }

  lemma EmptyIsNeutral(lex: Lexicon, langCode: Option<string>, detect: string -> Option<string>)
    ensures var r := Analyze(lex, Some(""), langCode, detect);
      && r.tokens == [] && r.score == 0 && r.vote == Neutral && r.words == [] && !r.negation
  {
  }

  /** The text emoticon ":)" is made of stripped punctuation, so it reaches
      the lookups only as the empty token. */
  lemma EmoticonIsStripped()
    ensures Tokenize(":)") == [""]
  {
    assert Lower(":)") == ":)";
    assert ReplaceLineBreaks(":)") == ":)";
    assert StripPunctuation(":)") == "";
  }
}
