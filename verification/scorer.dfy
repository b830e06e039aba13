/** The analyser exported by index.js: it tokenizes the phrase, resolves
    the language, walks the tokens from last to first accumulating a
    tally, applies the negation flag and classifies the score. */
module Scorer {
  import opened Wrappers
  import opened Seqs
  import opened Tokenizer
  import opened Dictionary

  datatype Vote = Positive | Negative | Neutral

  /** The state the token walk threads through its iterations. */
  datatype Tally = Tally(
    total: int,
    words: seq<string>,
    positive: seq<string>,
    negative: seq<string>,
    negation: bool)

  /** The result record (without `comparative`, which is `score / |tokens|`
      in floating point). */
  datatype Report = Report(
    score: int,
    vote: Vote,
    tokens: seq<string>,
    words: seq<string>,
    positive: seq<string>,
    negative: seq<string>,
    negation: bool,
    language: Option<string>)

  // ---------------------------------------------------------------------
  // Reference definitions, over the tokens in input order.

  /** The tokens that contribute, in input order. */
  function Matched(lex: Lexicon, lang: Option<string>, tokens: seq<string>): (r: seq<string>)
    ensures forall i :: 0 <= i < |r| ==> Contribution(lex, lang, r[i]).Some?
    ensures forall w :: w in r <==> w in tokens && Contribution(lex, lang, w).Some?
    ensures |r| <= |tokens|
  {
    if |tokens| == 0 then []
    else
      (if Contribution(lex, lang, tokens[0]).Some? then [tokens[0]] else [])
      + Matched(lex, lang, tokens[1..])
  }

  /** Some token is a negation word of the language. */
  predicate AnyNegation(lex: Lexicon, lang: Option<string>, tokens: seq<string>)
  {
    exists i :: 0 <= i < |tokens| && IsNegation(lex, lang, tokens[i])
  }

  /** A negation word anywhere in either part sets the flag for the whole;
      no token can clear it. */
  lemma NegationAnywhere(lex: Lexicon, lang: Option<string>, a: seq<string>, b: seq<string>)
    ensures AnyNegation(lex, lang, a + b) <==> AnyNegation(lex, lang, a) || AnyNegation(lex, lang, b)
  {
    if AnyNegation(lex, lang, a + b) {
      var i :| 0 <= i < |a + b| && IsNegation(lex, lang, (a + b)[i]);
      if i >= |a| {
        assert b[i - |a|] == (a + b)[i];
      } else {
        assert a[i] == (a + b)[i];
      }
    }
    if AnyNegation(lex, lang, a) {
      var j :| 0 <= j < |a| && IsNegation(lex, lang, a[j]);
      assert (a + b)[j] == a[j];
    }
    if AnyNegation(lex, lang, b) {
      var j :| 0 <= j < |b| && IsNegation(lex, lang, b[j]);
      assert (a + b)[|a| + j] == b[j];
    }
  }

  /** The sum of the tokens' contributions. */
  function SumWeights(lex: Lexicon, lang: Option<string>, tokens: seq<string>): int
  {
    if |tokens| == 0 then 0 else Weight(lex, lang, tokens[0]) + SumWeights(lex, lang, tokens[1..])
  }

  /** The sum does not depend on where the tokens are cut. */
  lemma {:induction false} SumWeightsConcat(lex: Lexicon, lang: Option<string>, a: seq<string>, b: seq<string>)
    ensures SumWeights(lex, lang, a + b) == SumWeights(lex, lang, a) + SumWeights(lex, lang, b)
    decreases |a|
  {
    if |a| == 0 {
      assert a + b == b;
    } else {
      assert (a + b)[1..] == a[1..] + b;
      SumWeightsConcat(lex, lang, a[1..], b);
    }
  }

  /** The order of the tokens does not change the sum: any rearrangement
      of the same tokens has the same total. */
  lemma {:induction false} SumWeightsPermutation(lex: Lexicon, lang: Option<string>, a: seq<string>, b: seq<string>)
    requires multiset(a) == multiset(b)
    ensures SumWeights(lex, lang, a) == SumWeights(lex, lang, b)
    decreases |a|
  {
    if |a| == 0 {
      assert |b| == |multiset(b)| == 0;
    } else {
      assert a[0] in multiset(b);
      var j :| 0 <= j < |b| && b[j] == a[0];
      var front, back := b[..j], b[j + 1..];
      assert b == front + ([b[j]] + back);
      RemoveMatching(a, b, j);
      SumWeightsPermutation(lex, lang, a[1..], front + back);
      SumWeightsConcat(lex, lang, front, back);
      SumWeightsConcat(lex, lang, front, [b[j]] + back);
      assert ([b[j]] + back)[1..] == back;
    }
  }

  /** The words with a positive contribution, in the order given. */
  function Positives(lex: Lexicon, lang: Option<string>, ws: seq<string>): (r: seq<string>)
    ensures forall w :: w in r <==> w in ws && Weight(lex, lang, w) > 0
    ensures |r| <= |ws|
  {
    if |ws| == 0 then []
    else
      var last := ws[|ws| - 1];
      Positives(lex, lang, ws[..|ws| - 1]) + (if Weight(lex, lang, last) > 0 then [last] else [])
  }

  /** The words with a negative contribution, in the order given. */
  function Negatives(lex: Lexicon, lang: Option<string>, ws: seq<string>): (r: seq<string>)
    ensures forall w :: w in r <==> w in ws && Weight(lex, lang, w) < 0
    ensures |r| <= |ws|
  {
    if |ws| == 0 then []
    else
      var last := ws[|ws| - 1];
      Negatives(lex, lang, ws[..|ws| - 1]) + (if Weight(lex, lang, last) < 0 then [last] else [])
  }

  /** Every contributing word is positive or negative and not both, because a
      stored 0 is a miss: the two lists split the matched words between them. */
  lemma {:induction false} PositivesNegativesPartition(lex: Lexicon, lang: Option<string>, ws: seq<string>)
    requires forall i :: 0 <= i < |ws| ==> Contribution(lex, lang, ws[i]).Some?
    ensures |Positives(lex, lang, ws)| + |Negatives(lex, lang, ws)| == |ws|
    decreases |ws|
  {
    if |ws| > 0 {
      var last := ws[|ws| - 1];
      assert Weight(lex, lang, last) != 0;
      PositivesNegativesPartition(lex, lang, ws[..|ws| - 1]);
    }
  }

  // ---------------------------------------------------------------------
  // The token walk.

  /** One iteration of the loop body for `token`. */
  function Step(lex: Lexicon, lang: Option<string>, t: Tally, token: string): Tally
  {
    var negation := t.negation || IsNegation(lex, lang, token);
    match Contribution(lex, lang, token)
    case None => t.(negation := negation)
    case Some(v) =>
      Tally(
        t.total + v,
        t.words + [token],
        if v > 0 then t.positive + [token] else t.positive,
        if v < 0 then t.negative + [token] else t.negative,
        negation)
  }

  /** The walk from the last token to the first: the tail is processed
      before the head. */
  function Walk(lex: Lexicon, lang: Option<string>, tokens: seq<string>): Tally
    decreases |tokens|
  {
    if |tokens| == 0 then Tally(0, [], [], [], false)
    else Step(lex, lang, Walk(lex, lang, tokens[1..]), tokens[0])
  }

  /** The walk's total is the sum of the contributions. */
  lemma {:induction false} WalkTotal(lex: Lexicon, lang: Option<string>, tokens: seq<string>)
    ensures Walk(lex, lang, tokens).total == SumWeights(lex, lang, tokens)
    decreases |tokens|
  {
    if |tokens| > 0 {
      WalkTotal(lex, lang, tokens[1..]);
    }
  }

  /** The walk collects the contributing tokens in reverse input order. */
  lemma {:induction false} WalkWords(lex: Lexicon, lang: Option<string>, tokens: seq<string>)
    ensures Walk(lex, lang, tokens).words == Reverse(Matched(lex, lang, tokens))
    decreases |tokens|
  {
    if |tokens| > 0 {
      WalkWords(lex, lang, tokens[1..]);
      var m := Matched(lex, lang, tokens[1..]);
      if Contribution(lex, lang, tokens[0]).Some? {
        assert ([tokens[0]] + m)[1..] == m;
      } else {
        assert [] + m == m;
      }
    }
  }

  /** `positive` and `negative` are the words with a positive and a
      negative contribution, in the order of `words`. */
  lemma {:induction false} WalkSigns(lex: Lexicon, lang: Option<string>, tokens: seq<string>)
    ensures Walk(lex, lang, tokens).positive == Positives(lex, lang, Walk(lex, lang, tokens).words)
    ensures Walk(lex, lang, tokens).negative == Negatives(lex, lang, Walk(lex, lang, tokens).words)
    decreases |tokens|
  {
    if |tokens| > 0 {
      WalkSigns(lex, lang, tokens[1..]);
      var ws := Walk(lex, lang, tokens[1..]).words;
      if Contribution(lex, lang, tokens[0]).Some? {
        assert (ws + [tokens[0]])[..|ws|] == ws;
      }
    }
  }

  /** The negation flag is set exactly when some token is a negation word. */
  lemma {:induction false} WalkNegation(lex: Lexicon, lang: Option<string>, tokens: seq<string>)
    ensures Walk(lex, lang, tokens).negation == AnyNegation(lex, lang, tokens)
    decreases |tokens|
  {
    if |tokens| > 0 {
      WalkNegation(lex, lang, tokens[1..]);
      assert forall i :: 0 < i < |tokens| ==> tokens[i] == tokens[1..][i - 1];
      if exists i :: 0 <= i < |tokens| && IsNegation(lex, lang, tokens[i]) {
        var i :| 0 <= i < |tokens| && IsNegation(lex, lang, tokens[i]);
        if i > 0 {
          assert IsNegation(lex, lang, tokens[1..][i - 1]);
        }
      }
    }
  }

  /** What the walk of `tokens` must produce: the total is the sum of the
      contributions, the words are the contributing tokens in reverse input
      order, split by sign into positive and negative, and the negation flag
      records whether any token is a negation word. */
  predicate IsTallyOf(lex: Lexicon, lang: Option<string>, tokens: seq<string>, tally: Tally)
  {
    && tally.total == SumWeights(lex, lang, tokens)
    && tally.words == Reverse(Matched(lex, lang, tokens))
    && tally.positive == Positives(lex, lang, tally.words)
    && tally.negative == Negatives(lex, lang, tally.words)
    && tally.negation == AnyNegation(lex, lang, tokens)
  }

  /** The same walk as the loop of index.js: `len` counts down from the
      number of tokens, and the tally after each iteration is the walk of
      the tokens from `len` on. */
  method WalkTokens(lex: Lexicon, lang: Option<string>, tokens: seq<string>) returns (tally: Tally)
    ensures IsTallyOf(lex, lang, tokens, tally)
  {
    tally := Tally(0, [], [], [], false);
    var len := |tokens|;
    while len > 0
      invariant 0 <= len <= |tokens|
      invariant tally == Walk(lex, lang, tokens[len..])
    {
      len := len - 1;
      assert tokens[len..][1..] == tokens[len + 1..];
      tally := Step(lex, lang, tally, tokens[len]);
    }
    assert tokens[0..] == tokens;
    WalkTotal(lex, lang, tokens);
    WalkWords(lex, lang, tokens);
    WalkSigns(lex, lang, tokens);
    WalkNegation(lex, lang, tokens);
  }

  // ---------------------------------------------------------------------
  // Language, vote and the whole analysis.

  /** `substring(0, 2)`: the first two characters, or the whole string when shorter. */
  function Prefix2(s: string): (r: string)
    ensures |r| == if |s| < 2 then |s| else 2
    ensures r <= s
  {
    if |s| < 2 then s else s[..2]
  }

  /** The language used for lookups: the caller's code verbatim when given;
      otherwise the two-letter prefix of the detector's top guess for the
      tokens joined by spaces; otherwise none. */
  function ResolveLanguage(langCode: Option<string>, tokens: seq<string>, detect: string -> Option<string>): (r: Option<string>)
    ensures langCode.Some? ==> r == langCode
    ensures langCode.None? && detect(Join(tokens)).None? ==> r.None?
    ensures langCode.None? && detect(Join(tokens)).Some?
            ==> var name := detect(Join(tokens)).value;
                r.Some? && r.value <= name && |r.value| == if |name| < 2 then |name| else 2
  {
    match langCode
    case Some(_) => langCode
    case None =>
      match detect(Join(tokens))
      case Some(name) => Some(Prefix2(name))
      case None => None
  }

  /** The vote from the sign of the score. */
  function Classify(score: int): (v: Vote)
    ensures v == Positive <==> score > 0
    ensures v == Negative <==> score < 0
    ensures v == Neutral <==> score == 0
  {
    if score > 0 then Positive else if score < 0 then Negative else Neutral
  }

  /** The analyser. An undefined phrase is the empty string; `None` for the
      language code stands for `null` or `undefined`; `detect` is the
      language detector's top guess for a text. */
  function Analyze(lex: Lexicon, phrase: Option<string>, langCode: Option<string>,
                   detect: string -> Option<string>): (r: Report)
    ensures r.tokens == Tokenize(if phrase.Some? then phrase.value else "")
    ensures r.language == ResolveLanguage(langCode, r.tokens, detect)
    ensures langCode.Some? ==> r.language == langCode
    ensures r.negation == AnyNegation(lex, r.language, r.tokens)
    ensures r.score == (if r.negation then -1 else 1) * SumWeights(lex, r.language, r.tokens)
    ensures r.words == Reverse(Matched(lex, r.language, r.tokens))
    ensures r.positive == Positives(lex, r.language, r.words)
    ensures r.negative == Negatives(lex, r.language, r.words)
    ensures |r.positive| + |r.negative| == |r.words|
    ensures r.vote == Positive <==> r.score > 0
    ensures r.vote == Negative <==> r.score < 0
    ensures r.vote == Neutral <==> r.score == 0
  {
    var tokens := Tokenize(if phrase.Some? then phrase.value else "");
    var lang := ResolveLanguage(langCode, tokens, detect);
    var t := Walk(lex, lang, tokens);
    WalkTotal(lex, lang, tokens);
    WalkWords(lex, lang, tokens);
    WalkSigns(lex, lang, tokens);
    WalkNegation(lex, lang, tokens);
    var score := t.total * (if t.negation then -1 else 1);
    PositivesNegativesPartition(lex, lang, t.words);
    Report(score, Classify(score), tokens, t.words, t.positive, t.negative, t.negation, lang)
  }
}
