/**
 * The form update after a recognised answer: walk the question's radio buttons
 * in document order and check the first one whose value is the matched option,
 * then stop. The radios are an array of records updated in place.
 */
module Form {
  import opened Wrappers
  import opened Find
  import opened Answer

  /** A radio button of the question's group: its `value` and its `checked` state. */
  datatype Radio = Radio(value: string, checked: bool)

  /** The position of the first radio whose value is exactly `option`. */
  function RadioFor(radios: seq<Radio>, option: string): (r: Option<nat>)
    ensures r.Some? ==> r.value < |radios| && radios[r.value].value == option
    ensures r.Some? ==> forall j :: 0 <= j < r.value ==> radios[j].value != option
    ensures r.None? <==> forall j :: 0 <= j < |radios| ==> radios[j].value != option
  {
    FindIndex(radios, (rd: Radio) => rd.value == option)
  }

  /**
   * The radios after the update, as a value: the first radio with value `option`
   * is checked, every other radio is as it was, and no value changes.
   */
  function CheckFirst(radios: seq<Radio>, option: string): (r: seq<Radio>)
    ensures |r| == |radios|
    ensures forall j :: 0 <= j < |r| ==> r[j].value == radios[j].value
    ensures forall j :: 0 <= j < |r| && RadioFor(radios, option) != Some(j) ==> r[j] == radios[j]
    ensures forall j :: 0 <= j < |r| && RadioFor(radios, option) == Some(j) ==> r[j].checked
  {
    match RadioFor(radios, option)
    case None => radios
    case Some(i) => radios[i := radios[i].(checked := true)]
  }

  /** Without a radio of that value the update changes nothing. */
  lemma NoRadioNoChange(radios: seq<Radio>, option: string)
    requires forall j :: 0 <= j < |radios| ==> radios[j].value != option
    ensures CheckFirst(radios, option) == radios
  {
  }

  /** Later radios with the same value stay as they were; only the first one is checked. */
  lemma OnlyFirstChecked(radios: seq<Radio>, option: string, j: nat, k: nat)
    requires j < k < |radios| && radios[j].value == option
    ensures CheckFirst(radios, option)[k] == radios[k]
  {
  }

  /** Repeating the update with the same option changes nothing more. */
  lemma CheckFirstIdempotent(radios: seq<Radio>, option: string)
    ensures CheckFirst(CheckFirst(radios, option), option) == CheckFirst(radios, option)
  {
    var once := CheckFirst(radios, option);
    SameVerdictsSameIndex(once, (rd: Radio) => rd.value == option, radios, (rd: Radio) => rd.value == option);
  }

  /** The radio loop: check the first radio with value `option`, then stop. */
  method CheckMatchingRadio(radios: array<Radio>, option: string) returns (marked: Option<nat>)
    modifies radios
    ensures marked == RadioFor(old(radios[..]), option)
    ensures radios[..] == CheckFirst(old(radios[..]), option)
  {
    ghost var before := radios[..];
    marked := None;
    for i := 0 to radios.Length
      invariant forall j :: 0 <= j < i ==> radios[j].value != option
      invariant radios[..] == before
    {
      if radios[i].value == option {
        FirstAt(before, (rd: Radio) => rd.value == option, i);
        radios[i] := radios[i].(checked := true);
        marked := Some(i);
        break;
      }
    }
  }

  /**
   * `recognition.onresult`: match the transcript against the options; a match
   * that is a non-empty option (truthy) updates the radios, while no match or an
   * empty option leaves them unchanged and reports "not recognized".
   */
  method OnResult(transcript: string, options: seq<string>, radios: array<Radio>)
    returns (recognized: bool)
    modifies radios
    ensures var m := FirstMatch(transcript, options);
      recognized <==> m.Some? && m.value != ""
    ensures recognized ==> radios[..] == CheckFirst(old(radios[..]), FirstMatch(transcript, options).value)
    ensures !recognized ==> radios[..] == old(radios[..])
  {
    var matched := MatchAnswer(transcript, options);
    if matched.Some? && matched.value != "" {
      var _ := CheckMatchingRadio(radios, matched.value);
      recognized := true;
    } else {
      recognized := false;
    }
  }
}
