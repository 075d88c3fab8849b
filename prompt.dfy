/**
 * The text spoken for a question (`speakQuestion`): the question, then
 * ". Options: ", then the options joined with ", ".
 */
module Prompt {
  import opened Text

  const OptionsLead: string := ". Options: "
  const OptionSeparator: string := ", "

  /** `${questionText}. Options: ${options.join(', ')}`. */
  function SpokenPrompt(questionText: string, options: seq<string>): (r: string)
    ensures StartsWith(r, questionText + OptionsLead)
  {
    questionText + OptionsLead + Join(options, OptionSeparator)
  }

  /** Every option is read out: each one is included in the spoken prompt. */
  lemma EveryOptionSpoken(questionText: string, options: seq<string>, k: nat)
    requires k < |options|
    ensures Contains(SpokenPrompt(questionText, options), options[k])
  {
    JoinContainsEach(options, OptionSeparator, k);
    ContainsInSuffix(questionText + OptionsLead, Join(options, OptionSeparator), options[k]);
  }

  /** Adding an option at the end adds ", " and that option to the end of the prompt. */
  lemma AppendOptionExtendsPrompt(questionText: string, options: seq<string>, extra: string)
    requires |options| > 0
    ensures SpokenPrompt(questionText, options + [extra])
         == SpokenPrompt(questionText, options) + OptionSeparator + extra
  {
    var lead := questionText + OptionsLead;
    JoinSnoc(options, extra, OptionSeparator);
    calc {
      SpokenPrompt(questionText, options + [extra]);
      lead + Join(options + [extra], OptionSeparator);
      lead + (Join(options, OptionSeparator) + OptionSeparator + extra);
      (lead + Join(options, OptionSeparator)) + OptionSeparator + extra;
    }
  }

  /** A question with one option is read as the question, ". Options: " and that option. */
  lemma OneOptionPrompt(questionText: string, option: string)
    ensures SpokenPrompt(questionText, [option]) == questionText + OptionsLead + option
  {
  }

  /** A question without options is read as the question followed by ". Options: " alone. */
  lemma NoOptionsPrompt(questionText: string)
    ensures SpokenPrompt(questionText, []) == questionText + OptionsLead
  {
  }
}
