/** The yes/no confirmation (`ask_user`). The console is a sequence of typed
    answers; running out of answers is the end of input, on which reading
    another answer fails. Under the bypass flag every question is answered
    "yes" without reading anything. */
module Prompt {
  import opened Results
  import opened Text

  /** How one answer is read: yes, no, or not recognised (asked again). */
  function Classify(answer: string): (r: Option<bool>)
    ensures r.Some? ==> 1 <= |answer| <= 3
    ensures r.Some? <==> Lower(answer) in ["y", "yes", "n", "no"]
  {
    var a := Lower(answer);
    if a == "y" || a == "yes" then Some(true)
    else if a == "n" || a == "no" then Some(false)
    else None
  }

  /** Answers are read without regard to case, and exactly the four words
      y, yes, n, no (in any case) are recognised. */
  lemma ClassifyCaseInsensitive(answer: string)
    ensures Classify(Upper(answer)) == Classify(answer)
    ensures Classify(answer) == Some(true) <==> Lower(answer) in ["y", "yes"]
    ensures Classify(answer) == Some(false) <==> Lower(answer) in ["n", "no"]
  {
    assert Lower(Upper(answer)) == Lower(answer);
  }

  /** The reply a dialogue settles on, and how many answers it read: the
      first recognised answer decides; None when input ends first. */
  function FirstRecognised(answers: seq<string>): (Option<bool>, nat)
    decreases |answers|
  {
    if |answers| == 0 then (None, 0)
    else match Classify(answers[0])
      case Some(b) => (Some(b), 1)
      case None =>
        var (reply, read) := FirstRecognised(answers[1..]);
        (reply, read + 1)
  }

  /** The dialogue as a whole, bypass included. */
  function Dialogue(answers: seq<string>, bypass: bool): (Option<bool>, nat)
  {
    if bypass then (Some(true), 0) else FirstRecognised(answers)
  }

  /** `ask_user(msg, bypass)` reading from answers: the reply (None when input
      ran out) and the number of answers read. */
  method AskUser(answers: seq<string>, bypass: bool) returns (response: Option<bool>, consumed: nat)
    ensures (response, consumed) == Dialogue(answers, bypass)
    ensures bypass ==> response == Some(true) && consumed == 0
    ensures consumed <= |answers|
    ensures !bypass && response.Some? ==>
      consumed >= 1 && Classify(answers[consumed - 1]) == response
    ensures !bypass ==>
      forall k :: 0 <= k < consumed && k < |answers| && (response.Some? ==> k < consumed - 1) ==>
        Classify(answers[k]).None?
    ensures !bypass && response.None? ==> consumed == |answers|
  {
    var acceptable := false;
    response := None;
    consumed := 0;
    while !acceptable
      invariant consumed <= |answers|
      invariant bypass ==> consumed == 0
      invariant acceptable <==> response.Some?
      invariant !bypass ==> forall k :: 0 <= k < consumed && (acceptable ==> k < consumed - 1) ==>
        Classify(answers[k]).None?
      invariant !bypass && !acceptable ==>
        var (reply, read) := FirstRecognised(answers[consumed..]);
        FirstRecognised(answers) == (reply, read + consumed)
      invariant acceptable ==> (response, consumed) == Dialogue(answers, bypass)
      invariant acceptable && !bypass ==> consumed >= 1 && Classify(answers[consumed - 1]) == response
      invariant acceptable && bypass ==> response == Some(true)
      decreases (if acceptable then 0 else 1) + |answers| - consumed
    {
      var answer: string;
      if bypass {
        answer := "yes";
        assert Lower(answer) == "yes";
      } else {
        if consumed == |answers| {
          // End of input: reading another answer fails.
          assert answers[consumed..] == [];
          return;
        }
        answer := answers[consumed];
        assert answers[consumed..][1..] == answers[consumed + 1..];
        consumed := consumed + 1;
      }
      var reply := Classify(answer);
      if reply.Some? {
        acceptable := true;
        response := reply;
      }
    }
  }
}
