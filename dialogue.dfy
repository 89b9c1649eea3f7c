/**
  One turn of the intake dialogue for a user who has a session: the decision
  the `/respond` handler makes between "already complete", "rejected, ask the
  same question again", "accepted, ask the next question", "accepted, all
  done" and "something went wrong".

  The three language-model calls of a turn are not modelled; their replies are
  inputs. `None` stands for a call that threw: a transport failure, a
  validator or clarification reply without text content (so `trim` has nothing
  to act on), or an extraction reply `JSON.parse` rejects. Every such failure
  lands in the handler's one `catch` block. An extraction reply without text
  content does not throw: `JSON.parse(null)` is `null`, whose spread adds
  nothing, so it is `Some(map[])` here (`EmptyExtractionReasks`).
 */
module Dialogue {
  import opened Wrappers
  import opened Catalog
  import opened Validity

  /** The replies of the three model calls a turn may make. */
  datatype Replies = Replies(
    validator: Option<string>,                     // "Yes"/"No" relevance verdict, raw text
    clarification: Option<string>,                 // polite re-prompt, raw text
    extraction: Option<map<string, string>>)       // the parsed extraction object

  const CompletionMessage: string := "All questions answered. Thank you for your responses!"
  const SessionNotFoundMessage: string := "Session not found. Please start again."
  const ServerErrorMessage: string := "Something went wrong while processing the response."

  /** The reply the `/respond` handler sends. */
  datatype Outcome =
    | SessionNotFound                              // 400 { error }
    | AllAnswered(data: map<string, string>)       // { message, data, isValidResponse: true }
    | Reprompt(message: string, question: string)  // { message, question, isValidResponse: false }
    | NextQuestion(question: string)               // { isValidResponse: true, question }
    | ServerError                                  // 500 { error }
  {
    /** The `isValidResponse` field of the reply body, when it has one. */
    function IsValidResponse(): Option<bool>
    {
      match this
      case AllAnswered(_) => Some(true)
      case NextQuestion(_) => Some(true)
      case Reprompt(_, _) => Some(false)
      case _ => None
    }

    /** The text of the reply body, when it has one: its `message` field on a
        completion or a re-prompt, its `error` field on the 400 and 500 replies. */
    function Text(): Option<string>
    {
      match this
      case SessionNotFound => Some(SessionNotFoundMessage)
      case AllAnswered(_) => Some(CompletionMessage)
      case Reprompt(m, _) => Some(m)
      case NextQuestion(_) => None
      case ServerError => Some(ServerErrorMessage)
    }
  }

  /** What a turn replies and the session's answers after it. */
  datatype TurnResult = TurnResult(outcome: Outcome, answers: map<string, string>)

  /** The decision of `/respond` for a session holding `answers`. */
  function Turn(answers: map<string, string>, replies: Replies): (r: TurnResult)
    ensures r.outcome != SessionNotFound
    ensures r.answers == answers || (replies.extraction.Some? && r.answers == answers + replies.extraction.value)
    ensures r.outcome.AllAnswered? ==> Complete(r.answers) && r.outcome.data == r.answers
  {
    var unanswered := Unanswered(answers);
    if |unanswered| == 0 then
      NoneUnansweredIffComplete(answers);
      TurnResult(AllAnswered(answers), answers)
    else
      var currentQuestion := QuestionsMap[unanswered[0]];
      match replies.validator
      case None => TurnResult(ServerError, answers)
      case Some(verdict) =>
        if !IsYes(verdict) then
          match replies.clarification
          case None => TurnResult(ServerError, answers)
          case Some(text) => TurnResult(Reprompt(Trim(text), currentQuestion), answers)
        else
          match replies.extraction
          case None => TurnResult(ServerError, answers)
          case Some(extracted) =>
            var merged := answers + extracted;
            var next := Unanswered(merged);
            if |next| == 0 then
              NoneUnansweredIffComplete(merged);
              TurnResult(AllAnswered(merged), merged)
            else
              TurnResult(NextQuestion(QuestionsMap[next[0]]), merged)
  }

  /** The prompt the dialogue is waiting on: that of the earliest unanswered field. */
  lemma CurrentQuestionIsEarliest(answers: map<string, string>, k: nat)
    requires IsEarliestUnanswered(answers, k)
    ensures Unanswered(answers) != [] && Unanswered(answers)[0] == Keys[k]
  {
    NoneUnansweredIffComplete(answers);
    var k' := FirstUnanswered(answers);
  }

  /** A complete session gets the completion reply with its answers, whatever the
      model would have said: no model reply is consulted and nothing changes. */
  lemma CompleteSessionIsFinal(answers: map<string, string>, replies: Replies)
    requires Complete(answers)
    ensures Turn(answers, replies) == TurnResult(AllAnswered(answers), answers)
  {
    NoneUnansweredIffComplete(answers);
  }

  /** Once a turn has completed the questionnaire, every later turn repeats the
      same completion reply and leaves the answers as they are. */
  lemma CompletionRepeats(answers: map<string, string>, first: Replies, later: Replies)
    requires Turn(answers, first).outcome.AllAnswered?
    ensures Turn(Turn(answers, first).answers, later) == Turn(answers, first)
  {
    var done := Turn(answers, first);
    CompleteSessionIsFinal(done.answers, later);
  }

  /** The accept rule: on an open session, the answers are merged exactly when the
      validator's reply is "yes" (trimmed, lower-cased) and the extraction parsed. */
  lemma AcceptedIff(answers: map<string, string>, replies: Replies)
    requires !Complete(answers)
    ensures Turn(answers, replies).outcome.AllAnswered? || Turn(answers, replies).outcome.NextQuestion?
       <==> replies.validator.Some? && IsYes(replies.validator.value) && replies.extraction.Some?
    ensures Turn(answers, replies).outcome.Reprompt?
       <==> replies.validator.Some? && !IsYes(replies.validator.value) && replies.clarification.Some?
  {
    NoneUnansweredIffComplete(answers);
  }

  /** A rejected answer changes nothing and re-asks the current question, with the
      trimmed clarification text as its message. */
  lemma RejectedAnswer(answers: map<string, string>, replies: Replies, k: nat)
    requires IsEarliestUnanswered(answers, k)
    requires replies.validator.Some? && !IsYes(replies.validator.value)
    requires replies.clarification.Some?
    ensures Turn(answers, replies)
         == TurnResult(Reprompt(Trim(replies.clarification.value), QuestionsMap[Keys[k]]), answers)
  {
    CurrentQuestionIsEarliest(answers, k);
  }

  /** An accepted answer overrides the old answers key by key with the extracted
      ones, keys outside the catalog and empty values included. */
  lemma AcceptedAnswerMerges(answers: map<string, string>, replies: Replies)
    requires !Complete(answers)
    requires replies.validator.Some? && IsYes(replies.validator.value)
    requires replies.extraction.Some?
    ensures var extracted, after := replies.extraction.value, Turn(answers, replies).answers;
      && after.Keys == answers.Keys + extracted.Keys
      && (forall x :: x in extracted ==> after[x] == extracted[x])
      && (forall x :: x in answers && x !in extracted ==> after[x] == answers[x])
  {
    NoneUnansweredIffComplete(answers);
  }

  /** After the merge, an accepted answer either completes the questionnaire or
      asks for the earliest field the merge left unanswered. */
  lemma AcceptedAnswer(answers: map<string, string>, replies: Replies)
    requires !Complete(answers)
    requires replies.validator.Some? && IsYes(replies.validator.value)
    requires replies.extraction.Some?
    ensures var after := answers + replies.extraction.value;
      Complete(after) ==> Turn(answers, replies) == TurnResult(AllAnswered(after), after)
    ensures var after := answers + replies.extraction.value;
      forall k :: IsEarliestUnanswered(after, k)
        ==> Turn(answers, replies) == TurnResult(NextQuestion(QuestionsMap[Keys[k]]), after)
  {
    NoneUnansweredIffComplete(answers);
    var after := answers + replies.extraction.value;
    NoneUnansweredIffComplete(after);
    forall k | IsEarliestUnanswered(after, k)
      ensures Turn(answers, replies) == TurnResult(NextQuestion(QuestionsMap[Keys[k]]), after)
    {
      CurrentQuestionIsEarliest(after, k);
    }
  }

  /** A turn fails exactly when a model call it makes fails, and a failed turn
      leaves the answers unchanged. */
  lemma ServerErrorIff(answers: map<string, string>, replies: Replies)
    ensures Turn(answers, replies).outcome == ServerError
       <==> !Complete(answers)
            && (|| replies.validator.None?
                || (!IsYes(replies.validator.value) && replies.clarification.None?)
                || (IsYes(replies.validator.value) && replies.extraction.None?))
    ensures Turn(answers, replies).outcome == ServerError ==> Turn(answers, replies).answers == answers
  {
    NoneUnansweredIffComplete(answers);
  }

  /** The answers change only on an accepted answer. */
  lemma OnlyAcceptanceChangesAnswers(answers: map<string, string>, replies: Replies)
    requires Turn(answers, replies).answers != answers
    ensures Turn(answers, replies).outcome.AllAnswered? || Turn(answers, replies).outcome.NextQuestion?
  {
    NoneUnansweredIffComplete(answers);
  }

  /** Extraction never runs on a rejected answer: its reply cannot affect the turn. */
  lemma RejectionIgnoresExtraction(answers: map<string, string>, verdict: string, clarification: Option<string>,
                                   e1: Option<map<string, string>>, e2: Option<map<string, string>>)
    requires !IsYes(verdict)
    ensures Turn(answers, Replies(Some(verdict), clarification, e1)) == Turn(answers, Replies(Some(verdict), clarification, e2))
  {
  }

  /** The clarification is only drafted for a rejected answer: its reply cannot
      affect a turn whose answer is accepted. */
  lemma AcceptanceIgnoresClarification(answers: map<string, string>, verdict: string, extraction: Option<map<string, string>>,
                                       c1: Option<string>, c2: Option<string>)
    requires IsYes(verdict)
    ensures Turn(answers, Replies(Some(verdict), c1, extraction)) == Turn(answers, Replies(Some(verdict), c2, extraction))
  {
  }

  /** A complete session consults no model reply at all. */
  lemma CompleteSessionIgnoresReplies(answers: map<string, string>, r1: Replies, r2: Replies)
    requires Complete(answers)
    ensures Turn(answers, r1) == Turn(answers, r2)
  {
    CompleteSessionIsFinal(answers, r1);
    CompleteSessionIsFinal(answers, r2);
  }

  /** A field stays answered through a turn unless the extraction hands it an empty value. */
  lemma AnsweredFieldStaysAnswered(answers: map<string, string>, replies: Replies, field: string)
    requires Answered(answers, field)
    requires replies.extraction.Some? && field in replies.extraction.value ==> replies.extraction.value[field] != ""
    ensures Answered(Turn(answers, replies).answers, field)
  {
  }

  /** Answers are not monotonic: an extracted empty value erases an earlier answer,
      and the dialogue goes back to asking for it. */
  lemma ExtractedEmptyValueErasesAnswer()
    ensures var before := map["current_role" := "backend engineer"];
      var replies := Replies(Some("Yes"), None, Some(map["current_role" := "", "collaboration_needs" := "investor"]));
      && Answered(before, "current_role")
      && !Answered(Turn(before, replies).answers, "current_role")
      && Turn(before, replies).outcome == NextQuestion(QuestionsMap["current_role"])
  {
    var before := map["current_role" := "backend engineer"];
    var replies := Replies(Some("Yes"), None, Some(map["current_role" := "", "collaboration_needs" := "investor"]));
    AcceptedExamples();
    assert !Answered(before, Keys[1]);
    var after := before + replies.extraction.value;
    assert !Answered(after, Keys[0]);
    AcceptedAnswer(before, replies);
    assert IsEarliestUnanswered(after, 0);
  }

  /** When the extraction fills the field being asked and erases nothing, the next
      question comes strictly later in catalog order. */
  lemma AcceptedAnswerAdvances(answers: map<string, string>, replies: Replies, k: nat, k': nat)
    requires IsEarliestUnanswered(answers, k)
    requires replies.validator.Some? && IsYes(replies.validator.value) && replies.extraction.Some?
    requires forall x :: x in replies.extraction.value ==> replies.extraction.value[x] != ""
    requires Keys[k] in replies.extraction.value
    requires IsEarliestUnanswered(Turn(answers, replies).answers, k')
    ensures k < k'
  {
    var after := Turn(answers, replies).answers;
    forall j | 0 <= j < k
      ensures Answered(after, Keys[j])
    {
      AnsweredFieldStaysAnswered(answers, replies, Keys[j]);
    }
    assert Answered(after, Keys[k]);
  }

  /** An accepted answer from which nothing is extracted stores nothing new and
      asks the same question again, though the reply calls the answer valid. */
  lemma EmptyExtractionReasks(answers: map<string, string>, verdict: string, clarification: Option<string>, k: nat)
    requires IsEarliestUnanswered(answers, k) && IsYes(verdict)
    ensures Turn(answers, Replies(Some(verdict), clarification, Some(map[])))
         == TurnResult(NextQuestion(QuestionsMap[Keys[k]]), answers)
  {
    var replies := Replies(Some(verdict), clarification, Some(map[]));
    assert answers + replies.extraction.value == answers;
    AcceptedAnswer(answers, replies);
  }

  /** The `isValidResponse` field of a turn's reply is the validator's verdict, or
      true when the session was already complete. (A failed turn's reply has no
      such field: `IsValidResponse` is `None` on `ServerError`.) */
  lemma ReplyValidityIsVerdict(answers: map<string, string>, replies: Replies)
    requires Turn(answers, replies).outcome != ServerError
    ensures Turn(answers, replies).outcome.IsValidResponse() == Some(Complete(answers) || IsYes(replies.validator.value))
  {
    NoneUnansweredIffComplete(answers);
  }

  /** The text of a turn's reply: the thank-you message on a complete session, the
      trimmed clarification on a rejected answer, after an accepted answer the
      thank-you message exactly when the merge completes the questionnaire and no
      text otherwise, and the fixed error text on a failure. */
  lemma ReplyText(answers: map<string, string>, replies: Replies)
    ensures Complete(answers) ==> Turn(answers, replies).outcome.Text() == Some(CompletionMessage)
    ensures !Complete(answers) && replies.validator.Some? && !IsYes(replies.validator.value) && replies.clarification.Some?
      ==> Turn(answers, replies).outcome.Text() == Some(Trim(replies.clarification.value))
    ensures !Complete(answers) && replies.validator.Some? && IsYes(replies.validator.value) && replies.extraction.Some?
      ==> Turn(answers, replies).outcome.Text()
          == if Complete(answers + replies.extraction.value) then Some(CompletionMessage) else None
    ensures Turn(answers, replies).outcome == ServerError ==> Turn(answers, replies).outcome.Text() == Some(ServerErrorMessage)
  {
    NoneUnansweredIffComplete(answers);
    if replies.extraction.Some? {
      NoneUnansweredIffComplete(answers + replies.extraction.value);
    }
  }
}
