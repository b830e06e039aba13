/** The lexicon the analyser reads (the data of lib/AFINN.js, taken as an
    input) and the per-token lookups index.js performs on it. JavaScript
    truthiness decides a hit: an absent key and a stored 0 are both misses,
    and a negation entry counts only when it is `true`. */
module Dictionary {
  import opened Wrappers

  datatype Lexicon = Lexicon(
    words: map<string, map<string, int>>,      // language code -> word -> score
    negations: map<string, map<string, bool>>, // language code -> negation word -> flag
    emoji: map<string, int>)                   // emoji -> score, for every language

  /** The value stored under `key`, if any. */
  function Get<K, V>(m: map<K, V>, key: K): Option<V>
  {
    if key in m then Some(m[key]) else None
  }

  /** A lookup result that JavaScript treats as true: present and non-zero. */
  function Truthy(o: Option<int>): Option<int>
  {
    match o
    case Some(v) => if v != 0 then Some(v) else None
    case None => None
  }

  /** The table of `lang`, or nothing when the language is unresolved or unknown. */
  function TableOf<V>(tables: map<string, map<string, V>>, lang: Option<string>): Option<map<string, V>>
  {
    match lang
    case Some(code) => Get(tables, code)
    case None => None
  }

  /** The token's truthy score in the language's word table. */
  function WordScore(lex: Lexicon, lang: Option<string>, token: string): Option<int>
  {
    match TableOf(lex.words, lang)
    case Some(table) => Truthy(Get(table, token))
    case None => None
  }

  /** Whether the token is a negation word of the language. */
  function IsNegation(lex: Lexicon, lang: Option<string>, token: string): (b: bool)
    ensures b <==> lang.Some? && lang.value in lex.negations && token in lex.negations[lang.value]
                   && lex.negations[lang.value][token]
  {
    match TableOf(lex.negations, lang)
    case Some(table) => Get(table, token) == Some(true)
    case None => false
  }

  /** What one token adds to the total: its word score when that is a hit,
      otherwise its emoji score when that is a hit, otherwise nothing
      (the token is skipped). */
  function Contribution(lex: Lexicon, lang: Option<string>, token: string): (r: Option<int>)
    ensures r.Some? ==> r.value != 0
    ensures lang.Some? && lang.value in lex.words && token in lex.words[lang.value]
              && lex.words[lang.value][token] != 0
            ==> r == Some(lex.words[lang.value][token])
    ensures !(lang.Some? && lang.value in lex.words && token in lex.words[lang.value]
              && lex.words[lang.value][token] != 0)
            ==> r == (if token in lex.emoji && lex.emoji[token] != 0 then Some(lex.emoji[token]) else None)
  {
    match WordScore(lex, lang, token)
    case Some(v) => Some(v)
    case None => Truthy(Get(lex.emoji, token))
  }

  /** The contribution as a number, 0 for a skipped token. */
  function Weight(lex: Lexicon, lang: Option<string>, token: string): int
  {
    match Contribution(lex, lang, token)
    case Some(v) => v
    case None => 0
  }

}
