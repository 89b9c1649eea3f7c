/**
  Three worked turns of the intake dialogue: an accepted first answer, a
  rejected first answer, and the answer that completes the questionnaire.
  Each is stated for every reply text the accept rule treats alike.
 */
module Scenarios {
  import opened Wrappers
  import opened Catalog
  import opened Validity
  import opened Dialogue

  /** A session just started, an accepted answer from which only the role is
      extracted: the role is stored and the dialogue moves on to collaboration needs. */
  lemma AcceptedFirstAnswer(verdict: string, clarification: Option<string>, role: string)
    requires IsYes(verdict) && role != ""
    ensures Turn(map[], Replies(Some(verdict), clarification, Some(map["current_role" := role])))
         == TurnResult(NextQuestion(QuestionsMap["collaboration_needs"]), map["current_role" := role])
  {
    var before: map<string, string> := map[];
    var replies := Replies(Some(verdict), clarification, Some(map["current_role" := role]));
    var after := before + replies.extraction.value;
    assert after == map["current_role" := role];
    assert !Complete(before) by { assert !Answered(before, Keys[0]); }
    assert IsEarliestUnanswered(after, 1) by { assert Answered(after, Keys[0]); }
    AcceptedAnswer(before, replies);
  }

  /** A session just started, a rejected answer: nothing is stored and the role
      question is asked again with the trimmed clarification. */
  lemma RejectedFirstAnswer(verdict: string, clarification: string, extraction: Option<map<string, string>>)
    requires !IsYes(verdict)
    ensures Turn(map[], Replies(Some(verdict), Some(clarification), extraction))
         == TurnResult(Reprompt(Trim(clarification), QuestionsMap["current_role"]), map[])
  {
    RejectedAnswer(map[], Replies(Some(verdict), Some(clarification), extraction), 0);
  }

  /** Only the region is missing and the accepted answer supplies it: the reply is
      the completion payload carrying all four fields. */
  lemma CompletingAnswer(verdict: string, clarification: Option<string>,
                         role: string, needs: string, domain: string, region: string)
    requires IsYes(verdict) && role != "" && needs != "" && domain != "" && region != ""
    ensures var before := map["current_role" := role, "collaboration_needs" := needs, "domain" := domain];
      var all := before["region" := region];
      Turn(before, Replies(Some(verdict), clarification, Some(map["region" := region])))
      == TurnResult(AllAnswered(all), all)
  {
    var before := map["current_role" := role, "collaboration_needs" := needs, "domain" := domain];
    var all := before["region" := region];
    var replies := Replies(Some(verdict), clarification, Some(map["region" := region]));
    assert before + replies.extraction.value == all;
    assert !Complete(before) by { assert !Answered(before, Keys[3]); }
    assert Complete(all) by {
      assert Answered(all, Keys[0]) && Answered(all, Keys[1]) && Answered(all, Keys[2]) && Answered(all, Keys[3]);
    }
    AcceptedAnswer(before, replies);
  }
}
