/**
  The per-user session table of the intake service and its two endpoints.
  `/start` creates or resets a user's session; `/respond` runs one turn of the
  dialogue on it and stores the merged answers in place.

  A session holds nothing but its answer map, so the table maps a user id to
  that map.
 */
module Sessions {
  import opened Wrappers
  import opened Catalog
  import opened Validity
  import opened Dialogue

  class SessionStore {
    /** user id -> the answers collected so far */
    var userSessions: map<string, map<string, string>>

    constructor ()
      ensures userSessions == map[]
    {
      userSessions := map[];
    }

    /** `/start`: give `userId` a fresh, empty session (replacing any it had) and ask
        the first catalog question. */
    method Start(userId: string) returns (question: string)
      modifies this
      ensures userSessions == old(userSessions)[userId := map[]]
      ensures forall u :: u != userId && u in old(userSessions) ==> u in userSessions && userSessions[u] == old(userSessions)[u]
      ensures IsEarliestUnanswered(userSessions[userId], 0)
      ensures question == QuestionsMap[Keys[0]] == QuestionsMap["current_role"]
    {
      userSessions := userSessions[userId := map[]];
      var firstField := Keys[0];
      question := QuestionsMap[firstField];
    }

    /** `/respond`: run one dialogue turn on the session of `userId`, given the
        replies of the model calls, and store the answers it leaves.
        The body follows the handler's own control flow step by step (early
        returns, the merge written into the table before the next question is
        chosen); the postcondition proves that flow agrees with `Turn`. */
    method Respond(userId: string, replies: Replies) returns (outcome: Outcome)
      modifies this
      ensures userId !in old(userSessions) ==> outcome == SessionNotFound && userSessions == old(userSessions)
      ensures userId in old(userSessions) ==>
        var turn := Turn(old(userSessions)[userId], replies);
        outcome == turn.outcome && userSessions == old(userSessions)[userId := turn.answers]
      ensures userSessions.Keys == old(userSessions).Keys
      ensures forall u :: u != userId && u in old(userSessions) ==> userSessions[u] == old(userSessions)[u]
    {
      if userId !in userSessions {
        return SessionNotFound;
      }
      var answers := userSessions[userId];
      assert userSessions[userId := answers] == userSessions;  // storing the same answers back changes nothing

      var unansweredFields := Unanswered(answers);
      if |unansweredFields| == 0 {
        return AllAnswered(answers);
      }
      var currentField := unansweredFields[0];
      var currentQuestion := QuestionsMap[currentField];

      if replies.validator.None? {
        return ServerError;
      }
      var isValidResponse := IsYes(replies.validator.value);

      if !isValidResponse {
        if replies.clarification.None? {
          return ServerError;
        }
        var customMessage := Trim(replies.clarification.value);
        return Reprompt(customMessage, currentQuestion);
      }

      if replies.extraction.None? {
        return ServerError;
      }
      var extractedData := replies.extraction.value;
      answers := answers + extractedData;
      userSessions := userSessions[userId := answers];

      var nextUnansweredFields := Unanswered(answers);
      if |nextUnansweredFields| == 0 {
        return AllAnswered(answers);
      }
      var nextField := nextUnansweredFields[0];
      outcome := NextQuestion(QuestionsMap[nextField]);
    }
  }
}
