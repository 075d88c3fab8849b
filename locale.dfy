/**
 * The locale resolver: the fixed table from language names and abbreviations to
 * locale tags, and the lookup of the page's preferred-language token with its
 * fallback. The resolved tag is returned to the caller rather than kept in a
 * page-wide variable.
 */
module Locale {
  import opened Text

  /** The lookup table, exactly as the script lists it (all keys lower case). */
  const LangMap: map<string, string> := map[
    "english" := "en-US",
    "en" := "en-US",
    "hindi" := "hi-IN",
    "hi" := "hi-IN",
    "tamil" := "ta-IN",
    "ta" := "ta-IN",
    "telugu" := "te-IN",
    "te" := "te-IN",
    "kannada" := "kn-IN",
    "kn" := "kn-IN",
    "malayalam" := "ml-IN",
    "ml" := "ml-IN"
  ]

  /** The tag used when the token is not in the table. */
  const DefaultLocale: string := "en-US"

  /**
   * `langMap[token] || "en-US"`: a missing key and a falsy (empty) mapped value
   * both give the fallback. The token is looked up as it is, without case folding.
   */
  function ResolveLocale(token: string): (r: string)
    ensures token in LangMap ==> r == LangMap[token]
    ensures token !in LangMap ==> r == DefaultLocale
  {
    if token in LangMap && LangMap[token] != "" then LangMap[token] else DefaultLocale
  }

  /** A two-letter language subtag, a dash and a two-letter region. */
  predicate IsRegionTag(tag: string)
  {
    |tag| == 5 && tag[2] == '-' && '-' !in tag[..2] && '-' !in tag[3..]
  }

  /** Every token resolves to a language-region tag whose language subtag is its first two letters. */
  lemma ResolvesToRegionTag(token: string)
    ensures IsRegionTag(ResolveLocale(token))
    ensures FirstField(ResolveLocale(token), '-') == ResolveLocale(token)[..2]
  {
    var r := ResolveLocale(token);
    assert r in {"en-US", "hi-IN", "ta-IN", "te-IN", "kn-IN", "ml-IN"};
  }

  /** Each two-letter key is the language subtag of the tag it maps to. */
  lemma AbbreviationIsLanguageSubtag(key: string)
    requires key in LangMap && |key| == 2
    ensures FirstField(LangMap[key], '-') == key
  {
    ResolvesToRegionTag(key);
    assert key in {"en", "hi", "ta", "te", "kn", "ml"};
  }

  /** The script's keys are already lower case, so only lower-case tokens can hit them. */
  lemma KeysAreLowerCase(key: string)
    requires key in LangMap
    ensures Lower(key) == key
  {
    assert key in {"english", "en", "hindi", "hi", "tamil", "ta", "telugu", "te",
                   "kannada", "kn", "malayalam", "ml"};
  }

  /** No case folding: a token with an upper-case ASCII letter always falls back. */
  lemma UpperCaseTokenFallsBack(token: string, i: nat)
    requires i < |token| && 'A' <= token[i] <= 'Z'
    ensures ResolveLocale(token) == DefaultLocale
  {
    if token in LangMap {
      KeysAreLowerCase(token);
    }
  }
}
