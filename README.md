# Intake dialogue of the linkup service, in Dafny

The linkup service runs a short intake conversation. It asks a fixed list of
four questions (`current_role`, `collaboration_needs`, `domain`, `region`). A
language model judges each free-text answer. A second model call drafts a
polite re-prompt when an answer is rejected. A third call extracts structured
fields from an accepted answer. The service keeps a table of per-user answer
maps until every field is filled.

This project models the decision logic of the two HTTP handlers in
`index.js`:

- **`Catalog`** (`catalog.dfy`): the ordered question catalog (`questionsMap`)
  and the "which fields are still unanswered" filter. A field is unanswered
  when its value is absent or falsy. Values are strings, and `""` stands for
  every falsy value.
- **`Validity`** (`validity.dfy`): the accept rule. A reply is accepted when,
  trimmed and lower-cased, it is exactly `"yes"`. `Trim` strips exactly the
  WhiteSpace and LineTerminator code points of the ECMAScript grammar, as
  `String.prototype.trim` does.
- **`Dialogue`** (`dialogue.dfy`): `Turn`, the pure decision `/respond` makes
  for a user who has a session. It returns the reply (`Outcome`) and the
  answers stored afterwards. The lemmas about `Turn` state each outcome: the
  session is already complete, the answer is rejected, the answer is
  accepted, or a model call fails.
- **`Sessions`** (`sessions.dfy`): class `SessionStore`. Its field
  `userSessions` is the mutable table. Its methods `Start` and `Respond` are
  the two handlers. Each one updates the table in place, and its postcondition
  ties the new table and the reply to `Turn`.
- **`Scenarios`** (`scenarios.dfy`): three worked turns, each stated for every
  reply text the accept rule treats alike. They are an accepted first answer,
  a rejected first answer, and the answer that completes the questionnaire.

The model calls are not modelled. Their replies are the `Replies` argument of
a turn:

- the validator's raw text;
- the clarification's raw text;
- the parsed extraction object.

Each reply is an `Option`. `None` means the call threw: a transport failure,
a validator or clarification reply with no text to `trim`, or an extraction
reply that `JSON.parse` rejects. The handler catches all of these in one
place and answers with a server error, so the model does too (`ServerError`).
An extraction reply with no text does not throw: `JSON.parse(null)` is
`null`, whose spread adds nothing, so it is the empty map
(`Dialogue.EmptyExtractionReasks`). The user's own answer
text only goes into the model prompts, so it is not a parameter of the
decision.

A reader might expect answers only to grow, stray keys to be dropped and the
open question to be stored. The code does none of these, and the model follows
the code in each of the points below:

- Answers are **not** monotonic. The merge `{...answers, ...extracted}` lets
  an extracted value overwrite an existing answer, even with an empty one,
  and the dialogue then asks that question again
  (`Dialogue.ExtractedEmptyValueErasesAnswer`). The property that does hold
  is `Dialogue.AnsweredFieldStaysAnswered`: a field stays answered unless the
  extraction gives it an empty value.
- Extracted keys outside the catalog, and extracted empty values, are kept in
  the answers, not dropped.
- There is no stored "pending field". Each turn recomputes the current
  question as the earliest unanswered field in catalog order.
- `/start` does not reject a request without a user id. JavaScript turns the
  missing id into the key `"undefined"`, and the model takes the id as an
  arbitrary string.
- The clarification text is trimmed before it is returned.

## Model

| member | source | states |
|---|---|---|
| `Catalog.UnansweredIn` | index.js:54 | the filtered list holds exactly the listed fields whose answer is absent or empty, and is no longer than the list |
| `Catalog.Unanswered` | index.js:54 | the filter over the catalog keeps exactly the catalog fields with no non-empty answer |
| `Catalog.FirstOfUnansweredIn` | index.js:54-66 | the head of the filtered list is the earliest field of the list that is unanswered; every field before it is answered |
| `Catalog.FirstUnanswered` | index.js:54-67 | the field taken as current is the earliest unanswered catalog field in catalog order |
| `Catalog.NoneUnansweredIffComplete` | index.js:54-57 | the filter comes back empty exactly when every catalog field has a non-empty answer |
| `Catalog.EarliestUnansweredExists` | index.js:54-66 | an incomplete answer map has exactly one earliest unanswered catalog field |
| `Validity.TrimStartSpec` | index.js:87 | trimming the start removes a whitespace prefix, and the longest one: the rest is empty or starts with a non-whitespace character |
| `Validity.TrimEndSpec` | index.js:87 | trimming the end removes a whitespace suffix, and the longest one |
| `Validity.TrimSpec` | index.js:87 | `trim` returns the slice of its input left between a whitespace prefix and a whitespace suffix; the slice neither starts nor ends with whitespace |
| `Validity.TrimStartPadded` | index.js:87 | with any whitespace put in front of a string that starts with none, trimming the start gives back that string |
| `Validity.TrimEndPadded` | index.js:87 | with any whitespace put after a string that ends with none, trimming the end gives back that string |
| `Validity.TrimPadded` | index.js:87 | `trim` of whitespace + core + whitespace is the core, when the core does not start or end with whitespace |
| `Validity.LowerCharYes` | index.js:87 | under `toLowerCase` a character becomes "y", "e" or "s" exactly when it is that letter in either case, and nothing becomes an ASCII capital |
| `Validity.ToLowerSpec` | index.js:87 | lower-casing keeps the length and lower-cases each character in place |
| `Validity.IsYesIff` | index.js:87 | a reply is accepted exactly when its trimmed text is "yes" in some mix of upper and lower case |
| `Validity.AcceptedReplyShape` | index.js:87 | every accepted reply is a spelling of "yes" with only whitespace around it |
| `Validity.PaddedYesAccepted` | index.js:87 | every spelling of "yes" with any whitespace around it is accepted |
| `Validity.RejectedCore` | index.js:87 | a reply without surrounding whitespace that does not spell "yes" is rejected |
| `Validity.AcceptedExamples` | index.js:87 | "Yes", "YES" and " yes\n" are accepted |
| `Validity.RejectedExamples` | index.js:87 | "Yes.", "No", "" and "Yes, it is" are rejected |
| `Dialogue.ReplyValidityIsVerdict` | index.js:58-163 | the `isValidResponse` field of a reply that is not a server error is the validator's verdict on the answer, or true when the session was already complete |
| `Dialogue.ReplyText` | index.js:58-167 | the reply text (`message` or `error`): the thank-you message on a complete session, the trimmed clarification on a rejected answer, after an accepted answer the thank-you message exactly when the merge completes the answers and none otherwise, and the fixed error text on a failure |
| `Dialogue.Turn` | index.js:53-168 | a turn never reports a missing session; it either leaves the answers alone or replaces them by their merge with the extracted map; a completion reply carries the complete, stored answers |
| `Dialogue.CurrentQuestionIsEarliest` | index.js:54-67 | the current field, the head of the filtered list, is the earliest unanswered catalog field, so its prompt is the one asked |
| `Dialogue.CompleteSessionIsFinal` | index.js:54-63 | on a complete session a turn returns the completion reply with the unchanged answers, whatever the model replies |
| `Dialogue.CompleteSessionIgnoresReplies` | index.js:54-63 | a complete session consults no model reply: any two sets of replies give the same turn |
| `Dialogue.CompletionRepeats` | index.js:54-63 | once a turn completes the questionnaire, every later turn repeats the same completion payload and changes nothing |
| `Dialogue.AcceptedIff` | index.js:87-163 | on an open session the answer is accepted (merge, then completion or next question) exactly when the validator says "yes" and the extraction parses; it is re-prompted exactly when the validator says something else and the clarification arrives |
| `Dialogue.RejectedAnswer` | index.js:87-116 | a rejected answer leaves the answers unchanged and replies with the trimmed clarification and the same current question |
| `Dialogue.AcceptedAnswerMerges` | index.js:144-147 | after an accepted answer the keys are the old keys plus the extracted ones; extracted keys take the extracted value and every other old key keeps its value |
| `Dialogue.AcceptedAnswer` | index.js:147-163 | after the merge, a complete map gives the completion reply with the merged answers; otherwise the reply asks the prompt of the earliest unanswered field of the merged map |
| `Dialogue.ServerErrorIff` | index.js:69-168 | a turn fails exactly when the session is open and a model call it makes fails (validator, then clarification or extraction); a failed turn changes no answer |
| `Dialogue.OnlyAcceptanceChangesAnswers` | index.js:144-147 | the answers change only on an accepted answer |
| `Dialogue.RejectionIgnoresExtraction` | index.js:89-117 | when the answer is rejected, the extraction reply cannot affect the turn |
| `Dialogue.AcceptanceIgnoresClarification` | index.js:89-147 | when the answer is accepted, the clarification reply cannot affect the turn |
| `Dialogue.AnsweredFieldStaysAnswered` | index.js:147-150 | an answered field stays answered through a turn unless the extraction gives it an empty value |
| `Dialogue.ExtractedEmptyValueErasesAnswer` | index.js:147-150 | counterexample to monotonic answers: an extracted empty role erases the stored role and the role question is asked again |
| `Dialogue.AcceptedAnswerAdvances` | index.js:147-163 | when the extraction fills the current field and erases nothing, the next question comes strictly later in catalog order |
| `Dialogue.EmptyExtractionReasks` | index.js:144-163 | an accepted answer whose extraction parses to no fields (`null` included) stores nothing and asks the same question again, with `isValidResponse` true |
| `Sessions.SessionStore.constructor` | index.js:33 | the session table starts empty |
| `Sessions.SessionStore.Start` | index.js:35-43 | the user's session is replaced by an empty one, other users' sessions are untouched, and the reply is the `current_role` prompt, the first field still open |
| `Sessions.SessionStore.Respond` | index.js:45-169 | without a session the reply is "session not found" and the table is unchanged; otherwise the reply and the user's new answers are those of `Turn`, no session is created or removed, and other users' sessions are untouched |
| `Scenarios.AcceptedFirstAnswer` | index.js:144-163 | on a new session, an accepted answer from which only the role is extracted stores the role and asks the collaboration question |
| `Scenarios.RejectedFirstAnswer` | index.js:87-116 | on a new session, a rejected answer stores nothing and asks the role question again with the trimmed clarification |
| `Scenarios.CompletingAnswer` | index.js:144-158 | with only the region missing, an accepted answer supplying it returns the completion payload with all four fields |

## Left out

- HTTP plumbing (index.js:1-17, 171-173): Express routing, `body-parser`, CORS and `app.listen` are framework wiring.
- Status codes and logging (index.js:37, 50, 166-167): `SessionNotFound` stands for the 400 reply and `ServerError` for the 500 reply; the log lines have no effect on state.
- The model client and its calls (index.js:20-22, 71-85, 96-108, 130-142): these are network calls. Their replies are the `Replies` argument, and a call that throws is `None`.
- Prompt texts sent to the model (index.js:80-82, 91-94, 120-128, 139): they only shape what the model replies, and the replies are inputs.
- The JSON grammar of `JSON.parse` (index.js:144): only its outcome is modelled, as a map of strings or a failure. `null`, numbers and booleans spread to nothing, so they are the empty map. Other parsed values are outside the model: arrays and strings (which the spread splits into index keys), and non-string field values such as `0` or `false` that JavaScript also treats as falsy.
- Full Unicode lower-casing: `ToLower` folds only `A`-`Z`; `toLowerCase` also folds other scripts.
- Concurrency: each `Respond` is treated as atomic, while in `index.js` the handler awaits the model between reading the session (index.js:47) and writing the merge (index.js:147). Two interleavings are not modelled. A `/start` for the same user during that wait puts a new session object in the table (index.js:38); the later merge goes into the old object, which is no longer in the table, so the reset survives and the reply is still computed from the old answers. A second `/respond` for the same user during that wait reads `session.answers` afresh at index.js:147, so the two merges build on each other and no extracted value is lost; what goes stale is the current question each handler chose at index.js:54.
- JavaScript object keys: user ids and answer keys are plain map keys. Keys such as `__proto__` or `constructor` behave differently on a plain JavaScript object and are not modelled. The coercion of a missing user id to the key `"undefined"` is not modelled either.
- The key order of the `data` object in the completion reply: maps here are unordered.
