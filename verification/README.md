# node-sentiment scoring core, modelled in Dafny

node-sentiment gives a short text a sentiment score. It splits the text
into lowercase tokens and looks each token up in a per-language AFINN word
list, falling back to an emoji table. It adds up the hits and flips the
sign when any token is a negation word of the language. The sign of the
result gives the vote: `positive`, `negative` or `neutral`.

This project models the tokenizer and the exported analyser of `index.js`.
Everything is pure functions over sequences and finite maps:

- `wrappers.dfy`: `Option`, standing for a JavaScript value that may be
  `undefined`/`null`.
- `seqs.dfy`: `Reverse`, `Join` (`Array.prototype.join(' ')`) and `Count`,
  with three small lemmas about concatenation and multisets.
- `text.dfy`: the character classes behind the tokenizer's regular
  expressions. These are ASCII capitals, CR/LF, the 21 stripped punctuation
  characters, and the ECMAScript `\s` class.
- `tokenizer.dfy`: the five rewrite steps of `tokenize`, each as its own
  function, then their composition `Tokenize`.
- `dictionary.dfy`: the lexicon as three maps, with the truthiness-based
  lookups. A stored 0 counts as a miss, and a negation entry counts only
  when it is `true`.
- `scorer.dfy`: the token walk as a fold (`Walk`), the same walk as a
  counting-down loop (`WalkTokens`), language resolution, the vote, and
  the whole analysis (`Analyze`).
- `examples.dfy`: tokenizer facts about lowercase words around separators,
  and worked analyses on a small English lexicon (one scoring word, one
  negation word).

The walk goes from the last token to the first, as `while (len--)` does.
So `words`, `positive` and `negative` come out in reverse input order, and
the model keeps that order.

Behaviour of `index.js` worth knowing, all of it modelled as written:
- There is no matcher for text emoticons. `:)` is made only of stripped
  punctuation, so it tokenizes to the single empty token
  (`Examples.EmoticonIsStripped`).
- A lexicon entry of 0 is skipped, because the lookup tests the stored
  value for truthiness; it does not count as a match.
- Only runs of two or more `\s` characters are collapsed into one space. A
  lone tab is left as it is and does not split tokens.
- Tokenizing the tokens joined by spaces gives the same tokens, except
  when the tokens are `[""]` (the input was only stripped punctuation):
  `""` tokenizes to `[]` (`Tokenizer.TokenizeIdempotent`,
  `Tokenizer.PunctuationOnlyIsOneEmptyToken`).
- Only an `undefined` phrase is replaced by `''`; a `null` phrase throws.

## Model

| member | source | states |
|---|---|---|
| Tokenizer.Lower | index.js:22 | length is kept; no ASCII capital is left; other characters are unchanged and each capital becomes its lowercase letter |
| Tokenizer.ReplaceLineBreaks | index.js:23 | no CR or LF remains; the text never grows and non-empty input stays non-empty; text without line breaks is unchanged; apart from whitespace the content is unchanged |
| Tokenizer.LineBreakMembers | index.js:23 | every character of the result is a non-break character of the input or a space |
| Tokenizer.LineBreakUnits | index.js:23 | CRLF, LF and a lone CR each become exactly one space; any other single character is kept |
| Tokenizer.LineBreakConcat | index.js:23 | the rewrite goes unit by unit: cutting the text anywhere except inside a CRLF pair and rewriting the parts gives the same result |
| Tokenizer.StripPunctuation | index.js:24 | no stripped character remains; the text never grows; text without stripped characters is unchanged |
| Tokenizer.StripMembers | index.js:24 | a character is in the result iff it is in the input and is not stripped |
| Tokenizer.StripConcat | index.js:24 | stripping acts character by character and keeps order: stripping a concatenation is concatenating the stripped parts |
| Tokenizer.CollapseWhitespace | index.js:25 | the result never has two whitespace characters in a row; it starts with whitespace iff the input does; it never grows |
| Tokenizer.CollapseMembers | index.js:25 | collapsing introduces no character except the space |
| Tokenizer.CollapseKeepsNonWhitespace | index.js:25 | collapsing changes only whitespace: the non-whitespace characters are kept, in order |
| Tokenizer.CollapseIdentity | index.js:25 | text with no whitespace run of length two is left unchanged |
| Tokenizer.CollapseRun | index.js:25 | a run of two or more whitespace characters becomes exactly one space |
| Tokenizer.CollapseSingle | index.js:25 | a single character, whitespace or not, is kept as it is |
| Tokenizer.CollapseConcat | index.js:25 | the rewrite goes run by run: cutting the text anywhere except between two whitespace characters and collapsing the parts gives the same result |
| Tokenizer.CollapseBetween | index.js:25 | two pieces of text separated by a run of two or more whitespace characters end up separated by exactly one space, each piece collapsed on its own |
| Seqs.Join | index.js:46 | `join(' ')`: no pieces join to "", one piece to itself; `Tokenizer.SplitOnSpace` and `Tokenizer.JoinSplit` state that it and `split(' ')` undo each other |
| Tokenizer.SplitOnSpace | index.js:26 | always at least one piece, exactly one more than the number of spaces; no piece holds a space; joining the pieces with spaces gives the input back |
| Tokenizer.JoinSplit | index.js:26 | joining space-free pieces with spaces and splitting again gives the pieces back |
| Tokenizer.Tokenize | index.js:15-27 | the result is empty iff the input is empty; every token is free of capitals, line breaks, stripped punctuation, spaces and whitespace pairs; the tokens joined by spaces are the normalized input |
| Tokenizer.TokenizeKeepsContent | index.js:21-26 | apart from whitespace, the tokens hold exactly the lowercased input minus the stripped punctuation, in input order |
| Tokenizer.TokenizeNormalized | index.js:21-26 | text that is already lowercase, break-free, punctuation-free and without whitespace pairs is only split |
| Tokenizer.TokenizeIdempotent | index.js:15-27 | tokenizing the tokens joined by spaces gives the same tokens, except that the single empty token rejoins to "" and re-tokenizes to [] |
| Tokenizer.PunctuationOnlyIsOneEmptyToken | index.js:17-26 | "!!!" tokenizes to [""], and rejoining that gives "", which tokenizes to [] |
| Dictionary.IsNegation | index.js:58 | a token is a negation iff the resolved language has a negation table that maps the token to true |
| Dictionary.Contribution | index.js:62-71 | a present non-zero word score is used and the emoji table is not consulted; otherwise a present non-zero emoji score; otherwise no contribution; a contribution is never 0 |
| Scorer.Positives | index.js:74-75 | a word is in the list iff it is among the given words and contributes more than 0 |
| Scorer.Negatives | index.js:76-77 | a word is in the list iff it is among the given words and contributes less than 0 |
| Scorer.PositivesNegativesPartition | index.js:73-78 | when every word contributes, each one lands in exactly one of the two lists, so their lengths add up to the number of words |
| Scorer.SumWeightsPermutation | index.js:79 | any rearrangement of the same tokens (equal as multisets) has the same total |
| Scorer.Step | index.js:55-79 | one loop iteration for one token; what it does is stated through `Walk` by `WalkTotal`, `WalkWords`, `WalkSigns` and `WalkNegation` |
| Scorer.Walk | index.js:53-80 | the `while (len--)` loop as a fold that processes the tail before the head; its meaning is stated by `WalkTotal`, `WalkWords`, `WalkSigns` and `WalkNegation` |
| Scorer.WalkTotal | index.js:53-80 | the walk's total is the sum of the tokens' contributions |
| Scorer.WalkWords | index.js:53-73 | the walk's words are the contributing tokens in reverse input order |
| Scorer.WalkSigns | index.js:73-78 | positive and negative are the words with contribution above and below 0, in the order of words |
| Scorer.NegationAnywhere | index.js:54-60 | some token of a concatenation is a negation word iff some token of either part is: one negation word anywhere sets the flag and no other token clears it |
| Scorer.WalkNegation | index.js:54-60 | the flag is set iff some token is a negation word; one such token anywhere sets it and nothing clears it |
| Scorer.WalkTokens | index.js:53-80 | the counting-down loop produces a tally that meets `IsTallyOf`: the total is the sum of contributions, the words are the contributing tokens in reverse input order, positive and negative split those words by sign, and the flag says whether any token is a negation word |
| Scorer.Prefix2 | index.js:48 | `substring(0, 2)`: a prefix of the input, of length 2, or the whole input when it is shorter |
| Scorer.ResolveLanguage | index.js:45-50 | a supplied code is used verbatim; otherwise the detector's top guess, cut to its first two characters; no guess leaves the language unresolved |
| Scorer.Classify | index.js:99-103 | the vote is positive iff the score is above 0, negative iff below 0, neutral iff 0 |
| Scorer.Analyze | index.js:30-103 | tokens are the tokenized phrase (undefined is ''); a supplied language is kept verbatim; negation iff some token is a negation word; score is the sum of contributions, negated iff negation; words are the contributing tokens reversed, split between positive and negative by sign; vote follows the sign of score |
| Examples.TokenizePlain | index.js:21-26 | lowercase words joined by single spaces tokenize back to exactly those words |
| Examples.WordsAcrossLineBreak | index.js:21-26 | two lowercase words separated by LF, CRLF or a lone CR are exactly two tokens |
| Examples.WordsAcrossWhitespaceRun | index.js:21-26 | two lowercase words separated by a run of two or more non-break whitespace characters are exactly two tokens |
| Examples.GoodIsPositive | index.js:30-103 | "good" with good = 3 in English: score 3, vote positive, words, positive = ["good"], negative empty, no negation |
| Examples.NotGoodIsNegative | index.js:54-83 | "not good" with negation "not" and good = 3: score -3, vote negative, negation set, words = ["good"] |
| Examples.EmptyIsNeutral | index.js:17-18 | the empty phrase has no tokens, score 0, no words, no negation and a neutral vote, for any lexicon and language |
| Examples.EmoticonIsStripped | index.js:24 | ":)" reaches the lookups only as the empty token |

## Left out

- `comparative` (index.js:88) is a floating-point division, and it is NaN when there are no tokens. The model leaves it out; it equals `score / |tokens|`.
- Delivery through `process.nextTick` to a callback (index.js:105-111) is event-loop plumbing. `Analyze` returns the result directly.
- Language detection (index.js:7, 46) is a call into the `languagedetect` package. It becomes the parameter `detect`, which gives the top guess for a text or none.
- The lexicon data `lib/AFINN.js` is not part of this model. Its word, negation and emoji tables are parameters.
- Tokenizer.Lower: lowercases ASCII letters only. JavaScript's `toLowerCase` folds all of Unicode, and can even change a string's length.
- Characters are Unicode scalar values. JavaScript strings are UTF-16 code units, and surrogate pairs are not modelled.
- Lookups use plain finite maps. JavaScript object quirks are not modelled: an unresolved code is looked up as the key "undefined" or "null" (a caller may pass either, and it stays so when detection finds nothing), a code can collide with the dictionary's own "negations" or "emoji" keys, and inherited prototype keys exist.
- Scores are unbounded integers. In the source they are JavaScript numbers: exact for AFINN magnitudes, but non-integer or NaN entries are possible there and not here.
- Phrases that are neither strings nor `undefined` are out of scope. A `null` phrase makes the source throw, and a number makes `toLowerCase` fail.
- Text-emoticon matching is absent from `index.js`, so nothing is modelled or claimed for it.
