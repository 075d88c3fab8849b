/**
 * Voice selection (`getVoiceForLang`): from the platform's voice list, in list
 * order, pick the first voice whose language equals the tag ignoring case; else
 * the first whose language starts with the tag's language subtag; else the
 * first whose language starts with "en"; else nothing. The voice list is a
 * parameter instead of a call into the speech engine.
 */
module Voices {
  import opened Wrappers
  import opened Text
  import opened Find

  /** A platform voice; only `lang` takes part in the choice, `name` tells voices apart. */
  datatype Voice = Voice(name: string, lang: string)

  /** The language prefix of the last tier. */
  const FallbackLanguage: string := "en"

  /** Two characters are the same ASCII letter up to case, or simply equal. */
  predicate SameIgnoringCase(a: char, b: char)
  {
    a == b || ('A' <= a <= 'Z' && b as int == a as int + 32) || ('A' <= b <= 'Z' && a as int == b as int + 32)
  }

  /** Tier 1: the voice's language is the tag, ignoring case. */
  predicate ExactMatch(code: string, v: Voice): (r: bool)
    ensures r <==> |v.lang| == |code| &&
                   forall i :: 0 <= i < |code| ==> SameIgnoringCase(v.lang[i], code[i])
  {
    Lower(v.lang) == Lower(code)
  }

  /** The tag's language subtag: the lower-cased tag up to its first dash. */
  function LanguageSubtag(code: string): (r: string)
    ensures StartsWith(Lower(code), r) && '-' !in r
    ensures |r| == |Lower(code)| || Lower(code)[|r|] == '-'
  {
    FirstField(Lower(code), '-')
  }

  /** Tier 2: the voice's lower-cased language starts with the tag's language subtag. */
  predicate SubtagMatch(code: string, v: Voice): (r: bool)
    ensures LanguageSubtag(code) == "" ==> r
    ensures r ==> |LanguageSubtag(code)| <= |v.lang|
  {
    StartsWith(Lower(v.lang), LanguageSubtag(code))
  }

  /** Tier 3: the voice's lower-cased language starts with "en". */
  predicate FallbackMatch(v: Voice): (r: bool)
    ensures r <==> |v.lang| >= 2 && v.lang[0] in "eE" && v.lang[1] in "nN"
  {
    StartsWith(Lower(v.lang), FallbackLanguage)
  }

  /** A voice that matches exactly also matches on the language subtag. */
  lemma ExactIsSubtag(code: string, v: Voice)
    requires ExactMatch(code, v)
    ensures SubtagMatch(code, v)
  {
  }

  function FindExact(voices: seq<Voice>, code: string): Option<Voice>
  {
    FindFirst(voices, v => ExactMatch(code, v))
  }

  function FindSubtag(voices: seq<Voice>, code: string): Option<Voice>
  {
    FindFirst(voices, v => SubtagMatch(code, v))
  }

  function FindFallback(voices: seq<Voice>): Option<Voice>
  {
    FindFirst(voices, FallbackMatch)
  }

  /**
   * `getVoiceForLang(langCode)` over the given voice list. A chosen voice is
   * always one of the list, and nothing is chosen exactly when no voice matches
   * the language subtag or the fallback language.
   */
  function GetVoiceForLang(voices: seq<Voice>, code: string): (r: Option<Voice>)
    ensures r.Some? ==> r.value in voices
    ensures r.None? <==> forall j :: 0 <= j < |voices| ==>
                           !SubtagMatch(code, voices[j]) && !FallbackMatch(voices[j])
  {
    var exact := FindExact(voices, code);
    if exact.Some? then exact
    else
      var partial := FindSubtag(voices, code);
      if partial.Some? then partial
      else FindFallback(voices)
  }

  /** Tier 1 wins: the first exactly matching voice is chosen, whatever else the list holds. */
  lemma ExactTier(voices: seq<Voice>, code: string, k: nat)
    requires k < |voices| && ExactMatch(code, voices[k])
    requires forall j :: 0 <= j < k ==> !ExactMatch(code, voices[j])
    ensures GetVoiceForLang(voices, code) == Some(voices[k])
  {
    FirstAt(voices, v => ExactMatch(code, v), k);
  }

  /** Tier 2: with no exact voice anywhere, the first voice of the tag's language is chosen. */
  lemma SubtagTier(voices: seq<Voice>, code: string, k: nat)
    requires forall j :: 0 <= j < |voices| ==> !ExactMatch(code, voices[j])
    requires k < |voices| && SubtagMatch(code, voices[k])
    requires forall j :: 0 <= j < k ==> !SubtagMatch(code, voices[j])
    ensures GetVoiceForLang(voices, code) == Some(voices[k])
  {
    FirstAt(voices, v => SubtagMatch(code, v), k);
  }

  /** Tier 3: with neither, the first English voice is chosen. */
  lemma FallbackTier(voices: seq<Voice>, code: string, k: nat)
    requires forall j :: 0 <= j < |voices| ==> !SubtagMatch(code, voices[j])
    requires k < |voices| && FallbackMatch(voices[k])
    requires forall j :: 0 <= j < k ==> !FallbackMatch(voices[j])
    ensures GetVoiceForLang(voices, code) == Some(voices[k])
  {
    forall j | 0 <= j < |voices|
      ensures !ExactMatch(code, voices[j])
    {
      if ExactMatch(code, voices[j]) {
        ExactIsSubtag(code, voices[j]);
      }
    }
    FirstAt(voices, FallbackMatch, k);
  }

  /** The case of the tag never changes the choice. */
  lemma TagCaseIrrelevant(voices: seq<Voice>, code: string)
    ensures GetVoiceForLang(voices, code) == GetVoiceForLang(voices, Lower(code))
  {
    LowerIdempotent(code);
    SameVerdictsSameIndex(voices, v => ExactMatch(code, v), voices, v => ExactMatch(Lower(code), v));
    SameVerdictsSameIndex(voices, v => SubtagMatch(code, v), voices, v => SubtagMatch(Lower(code), v));
  }

  /**
   * An empty tag has the empty language subtag, which every voice starts with,
   * so when no voice has an empty language the first voice of the list is chosen.
   */
  lemma EmptyTagPicksFirstVoice(voices: seq<Voice>)
    requires |voices| > 0
    requires forall j :: 0 <= j < |voices| ==> voices[j].lang != ""
    ensures GetVoiceForLang(voices, "") == Some(voices[0])
  {
    assert SubtagMatch("", voices[0]);
    SubtagTier(voices, "", 0);
  }
}
