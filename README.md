# Speech-driven survey: locale, voice and answer logic

A Dafny model of the decision logic of the survey page script
`static/css/survey.js`, which reads survey questions aloud with the browser's
speech synthesis and fills in the answer from speech recognition. The model
covers the script's own logic, not the browser APIs. It has these parts:

- **Locale resolution** (`Locale`). A fixed table maps language names and
  abbreviations to locale tags. A token outside the table resolves to `en-US`.
  The token is looked up exactly as given.
- **Voice selection** (`Voices`). `getVoiceForLang` picks, in list order, a
  voice in one of three tiers: the first voice whose language equals the tag
  ignoring case; otherwise the first whose language starts with the tag's
  language subtag; otherwise the first whose language starts with `en`;
  otherwise none.
- **Answer matching** (`Answer`). The transcript is lower-cased and the
  options are scanned in order. The answer is the first option whose
  lower-cased text the transcript includes, returned as written.
- **Form update** (`Form`). The first radio button whose value is exactly the
  matched option is checked, and the loop stops there. No match, or an empty
  option (falsy in the script), leaves every radio as it was and takes the
  "not recognized" branch.
- **Spoken prompt** (`Prompt`). The question text, then `. Options: `, then
  the options joined by `, `.

Shared pieces: `Text` models the string methods used (`toLowerCase` on ASCII
letters, `startsWith`, `includes`, `split(d)[0]`, `join`). `Find` models
`Array.prototype.find` and the index search beneath it, which the radio loop
also uses. `Wrappers` gives `Option` for the
script's `null`/`undefined`.

Modelling choices:

- The resolved locale is returned to the caller. The script stores it in a
  page-wide variable instead.
- The voice list is a parameter, standing in for `speechSynthesis.getVoices()`.
- The top transcript is a parameter, standing in for
  `event.results[0][0].transcript`.
- The options are an immutable `seq<string>`, because the script never
  changes the options array.
- The radio group is an `array<Radio>` that is updated in place.

The token is looked up without case folding (survey.js:19), so `"Tamil"`
falls back to `en-US` (`Locale.UpperCaseTokenFallsBack`).

## Model

| member | source | states |
|---|---|---|
| `Locale.ResolveLocale` | static/css/survey.js:2-19 | A token that is a key of the table gives exactly its tag, even though the code applies the `\|\| "en-US"` falsy fallback. Any other token gives `en-US`. |
| `Locale.ResolvesToRegionTag` | static/css/survey.js:2-19 | Every token resolves to a five-character tag whose only dash is at index 2. The text before that dash is its first two characters. |
| `Locale.AbbreviationIsLanguageSubtag` | static/css/survey.js:2-14 | Each two-letter key is the language subtag (text before the dash) of the tag it maps to. |
| `Locale.KeysAreLowerCase` | static/css/survey.js:2-14 | Every key of the table is already lower case. |
| `Locale.UpperCaseTokenFallsBack` | static/css/survey.js:19 | No case folding: a token with any upper-case ASCII letter resolves to `en-US`. |
| `Text.LowerChar` | static/css/survey.js:23 | ASCII `toLowerCase` on one character. A capital becomes the lower-case letter at the same place in the alphabet. Any other character is unchanged. No capital is left. |
| `Text.Lower` | static/css/survey.js:95 | `toLowerCase` keeps the length. Each capital becomes its own lower-case letter, and every other character is kept. No capital is left. |
| `Text.StartsWithIsConcat` | static/css/survey.js:25-27 | `startsWith` holds exactly when the string is the prefix followed by some rest. |
| `Text.Contains` | static/css/survey.js:98 | `includes` holds for every prefix. It never holds for a text longer than the string. |
| `Text.Join` | static/css/survey.js:77 | `join` of no elements is empty. The joined text begins with the first element and ends with the last. |
| `Text.LowerIdempotent` | static/css/survey.js:95 | Lower-casing twice is lower-casing once, and the result has no upper-case ASCII letter. |
| `Text.ContainsHasPosition` | static/css/survey.js:98 | If `includes` holds, the searched text occurs at some position. |
| `Text.PositionGivesContains` | static/css/survey.js:98 | An occurrence at any position makes `includes` true. Together with the lemma above, this is the converse direction. |
| `Text.ContainsEmpty` | static/css/survey.js:98 | Every string includes the empty string. |
| `Text.ContainsInSuffix` | static/css/survey.js:98 | What `b` includes, `a + b` includes too. |
| `Text.MissingCharExcludes` | static/css/survey.js:98 | A string that lacks one of the characters of `sub` does not include `sub`. |
| `Text.FirstField` | static/css/survey.js:25 | `split('-')[0]` is a prefix of the string that contains no dash and ends at the end of the string or at its first dash. |
| `Text.JoinContainsEach` | static/css/survey.js:77 | `join` loses no element: the joined text includes every element. |
| `Text.JoinSnoc` | static/css/survey.js:77 | Joining a non-empty list with one more element gives the old join, the separator, then that element. |
| `Find.FindIndex` | static/css/survey.js:105-110 | The index search under `find` (lines 23-27) and under the radio loop returns a position whose element satisfies the predicate, with no earlier element satisfying it. It returns none exactly when no element does. |
| `Find.FindFirst` | static/css/survey.js:23-27 | `find` returns an element of the list that satisfies the predicate. It returns none exactly when no element does. |
| `Find.FirstAt` | static/css/survey.js:23-27 | A satisfying element with no earlier satisfying element is exactly what the index search and `find` return. |
| `Voices.ExactMatch` | static/css/survey.js:23 | Tier 1 holds exactly when the voice's language and the tag have the same length and each pair of characters is equal or the same ASCII letter in the other case. |
| `Voices.SubtagMatch` | static/css/survey.js:25 | Tier 2 holds for every voice when the subtag is empty. It never holds for a language shorter than the subtag. |
| `Voices.FallbackMatch` | static/css/survey.js:27 | Tier 3 holds exactly when the language has at least two characters, the first is `e` or `E`, and the second is `n` or `N`. |
| `Voices.LanguageSubtag` | static/css/survey.js:25 | The language subtag is the dash-free prefix of the lower-cased tag that ends at its first dash or at its end. |
| `Voices.ExactIsSubtag` | static/css/survey.js:23-26 | An exact match is also a subtag match. |
| `Voices.GetVoiceForLang` | static/css/survey.js:21-28 | A chosen voice is always an element of the list. No voice is chosen exactly when no voice matches the subtag and none starts with `en`. |
| `Voices.ExactTier` | static/css/survey.js:23-24 | If a voice's language equals the tag ignoring case, the first such voice is chosen, whatever other voices the list holds. |
| `Voices.SubtagTier` | static/css/survey.js:25-26 | If no voice matches exactly, the first voice whose language starts with the tag's subtag is chosen. |
| `Voices.FallbackTier` | static/css/survey.js:27 | If no voice matches the subtag, the first voice whose language starts with `en` is chosen. |
| `Voices.TagCaseIrrelevant` | static/css/survey.js:23-25 | The case of the tag never changes which voice is chosen. |
| `Voices.EmptyTagPicksFirstVoice` | static/css/survey.js:25-26 | If the tag is empty and no voice has an empty language, the first voice is chosen. The empty subtag is a prefix of every language. |
| `Answer.Heard` | static/css/survey.js:98 | An empty option is heard in every transcript. A heard option is never longer than the transcript. |
| `Answer.FirstMatch` | static/css/survey.js:95-102 | A match is an element of the options and is heard in the transcript. There is no match exactly when no option is heard. |
| `Answer.MatchAnswer` | static/css/survey.js:94-102 | The `for`/`break` scan returns exactly the first option heard in the lower-cased transcript, or none. |
| `Answer.MatchIsFirstHeard` | static/css/survey.js:96-101 | The option at `k` is the match when it is heard and no earlier option is heard. First match wins. |
| `Answer.TranscriptCaseIrrelevant` | static/css/survey.js:95 | The transcript's case never changes the match. |
| `Answer.EmptyOptionShadows` | static/css/survey.js:98-103 | An empty option is heard in every transcript, so it hides every later option. The match is then `""`. |
| `Answer.FirstMatchNotBestMatch` | static/css/survey.js:97-100 | Options `yes`, `no`, `maybe` with transcript `i think no way` give `no`. |
| `Answer.NoOptionHeard` | static/css/survey.js:97-102 | Options `red`, `blue` with transcript `green` give no match. |
| `Answer.MatchKeepsOptionCase` | static/css/survey.js:99 | The option is returned as written: `Yes please` against `No`, `Yes` gives `Yes`, not `yes`. |
| `Form.RadioFor` | static/css/survey.js:105-110 | The radio found is the first one whose value equals the option exactly. None is found exactly when no radio has that value. |
| `Form.CheckFirst` | static/css/survey.js:105-110 | The update keeps the length and every value. Only the first radio with the option's value can change, and that radio ends up checked. |
| `Form.NoRadioNoChange` | static/css/survey.js:105-111 | If no radio has the option's value, nothing changes. |
| `Form.OnlyFirstChecked` | static/css/survey.js:106-109 | Later radios with the same value are left as they were, because the loop stops after the first. |
| `Form.CheckFirstIdempotent` | static/css/survey.js:105-110 | Applying the update twice with the same option gives the same radios as applying it once. |
| `Form.CheckMatchingRadio` | static/css/survey.js:104-111 | The in-place loop checks the first radio with that value, reports its position, and leaves the array equal to `CheckFirst` of the old contents. |
| `Form.OnResult` | static/css/survey.js:94-115 | The answer counts as recognised exactly when the match exists and is non-empty. A recognised answer updates the radios as `CheckFirst`. Otherwise the radios are unchanged and "not recognized" is reported. |
| `Prompt.SpokenPrompt` | static/css/survey.js:77 | The prompt starts with the question followed by `. Options: `. |
| `Prompt.EveryOptionSpoken` | static/css/survey.js:77 | Every option is included in the spoken prompt. |
| `Prompt.AppendOptionExtendsPrompt` | static/css/survey.js:77 | One more option adds `, ` and that option to the end of the prompt. |
| `Prompt.NoOptionsPrompt` | static/css/survey.js:77 | With no options the prompt is the question followed by `. Options: `. |
| `Prompt.OneOptionPrompt` | static/css/survey.js:77 | With one option the prompt is the question, `. Options: `, then that option. |

## Left out

- `speakText`, the `speechSynthesis` / `SpeechSynthesisUtterance` calls, the `onvoiceschanged` retry and the completion callback (survey.js:30-54). These are browser speech plumbing with no decision logic beyond feature checks. The voice list they would supply is a parameter of `Voices.GetVoiceForLang`.
- `listenForTextInput`, starting `SpeechRecognition`, its settings, `onerror` and the `alert` dialogs (survey.js:56-74, 83-92, 117-121). These are platform callbacks. The "not recognized" alert is the `false` result of `Form.OnResult`.
- The callback chaining from `speakQuestion` to `listenForAnswer` (survey.js:78-80) is asynchronous sequencing and is not modelled.
- The background colour set on the checked radio's parent (survey.js:108) and `document.getElementsByName`. The radio group of a question is the `radios` array.
- Form.CheckMatchingRadio: does not model the browser rule that checking one radio of a group unchecks the others. That is a DOM effect, not something the script does, so the other radios keep their `checked` state in the model.
- Text.LowerChar: models `toLowerCase` on ASCII letters only. Other Unicode case mappings are not modelled.
- JavaScript object-prototype keys such as `"constructor"` on `langMap` are not modelled. The table is a finite map, and any other key falls back.
- `app.py` (Flask routes, session, SQLAlchemy persistence, JSON and URL quoting) is not part of this model. It is library and I/O glue with no logic of its own.
