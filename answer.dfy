/**
 * Answer matching (the body of `recognition.onresult`): lower-case the top
 * transcript, scan the options in their given order, and take the first option
 * whose lower-cased text the transcript includes. First match wins, not best
 * match, and the option is returned as written, not lower-cased.
 */
module Answer {
  import opened Wrappers
  import opened Text
  import opened Find

  /** The transcript, lower-cased, includes the option, lower-cased. */
  predicate Heard(transcript: string, option: string): (r: bool)
    ensures option == "" ==> r
    ensures r ==> |option| <= |transcript|
  {
    ContainsEmpty(Lower(transcript));
    Contains(Lower(transcript), Lower(option))
  }

  /** The option the scan settles on, as a value. */
  function FirstMatch(transcript: string, options: seq<string>): (r: Option<string>)
    ensures r.Some? ==> r.value in options && Heard(transcript, r.value)
    ensures r.None? <==> forall j :: 0 <= j < |options| ==> !Heard(transcript, options[j])
  {
    FindFirst(options, o => Heard(transcript, o))
  }

  /** The scan's loop: stop at and return the first option heard in the transcript. */
  method MatchAnswer(transcript: string, options: seq<string>) returns (matched: Option<string>)
    ensures matched == FirstMatch(transcript, options)
  {
    var heard := Lower(transcript);
    matched := None;
    for i := 0 to |options|
      invariant forall j :: 0 <= j < i ==> !Contains(heard, Lower(options[j]))
    {
      if Contains(heard, Lower(options[i])) {
        matched := Some(options[i]);
        MatchIsFirstHeard(transcript, options, i);
        break;
      }
    }
  }

  /** The option at `k` is the match exactly when it is heard and no earlier option is. */
  lemma MatchIsFirstHeard(transcript: string, options: seq<string>, k: nat)
    requires k < |options| && Heard(transcript, options[k])
    requires forall j :: 0 <= j < k ==> !Heard(transcript, options[j])
    ensures FirstMatch(transcript, options) == Some(options[k])
  {
    FirstAt(options, o => Heard(transcript, o), k);
  }

  /** The case of the transcript never changes the match. */
  lemma TranscriptCaseIrrelevant(transcript: string, options: seq<string>)
    ensures FirstMatch(transcript, options) == FirstMatch(Lower(transcript), options)
  {
    LowerIdempotent(transcript);
    SameVerdictsSameIndex(options, o => Heard(transcript, o), options, o => Heard(Lower(transcript), o));
  }

  /** An empty option is heard in every transcript, so it hides every option after it. */
  lemma EmptyOptionShadows(transcript: string, options: seq<string>, k: nat)
    requires k < |options| && options[k] == ""
    requires forall j :: 0 <= j < k ==> !Heard(transcript, options[j])
    ensures FirstMatch(transcript, options) == Some("")
  {
    assert Lower("") == "";
    ContainsEmpty(Lower(transcript));
    MatchIsFirstHeard(transcript, options, k);
  }

  /** First match, not best match: "yes", "no", "maybe" against "i think no way" gives "no". */
  lemma FirstMatchNotBestMatch()
    ensures FirstMatch("i think no way", ["yes", "no", "maybe"]) == Some("no")
  {
    YesNotHeard();
    NoHeard();
    MatchIsFirstHeard("i think no way", ["yes", "no", "maybe"], 1);
  }

  lemma YesNotHeard()
    ensures !Heard("i think no way", "yes")
  {
    assert Lower("i think no way") == "i think no way" && Lower("yes") == "yes";
    MissingCharExcludes("i think no way", "yes", 1);
  }

  lemma NoHeard()
    ensures Heard("i think no way", "no")
  {
    assert Lower("i think no way") == "i think no way" && Lower("no") == "no";
    ContainsMiddle("i think ", "no", " way");
    assert "i think " + "no" + " way" == "i think no way";
  }

  /** "red" and "blue" against "green": nothing is heard. */
  lemma NoOptionHeard()
    ensures FirstMatch("green", ["red", "blue"]) == None
  {
    assert Lower("green") == "green" && Lower("red") == "red" && Lower("blue") == "blue";
    MissingCharExcludes("green", "red", 2);
    MissingCharExcludes("green", "blue", 0);
  }

  /** The match keeps the option's own spelling: "Yes please" against "No", "Yes" gives "Yes". */
  lemma MatchKeepsOptionCase()
    ensures FirstMatch("Yes please", ["No", "Yes"]) == Some("Yes")
  {
    CapitalNoNotHeard();
    CapitalYesHeard();
    MatchIsFirstHeard("Yes please", ["No", "Yes"], 1);
  }

  lemma CapitalNoNotHeard()
    ensures !Heard("Yes please", "No")
  {
    assert Lower("Yes please") == "yes please" && Lower("No") == "no";
    MissingCharExcludes("yes please", "no", 0);
  }

  lemma CapitalYesHeard()
    ensures Heard("Yes please", "Yes")
  {
    assert Lower("Yes please") == "yes please" && Lower("Yes") == "yes";
    ContainsMiddle("", "yes", " please");
    assert "" + "yes" + " please" == "yes please";
  }
}
