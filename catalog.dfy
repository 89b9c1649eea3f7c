/**
  The question catalog of the intake dialogue (the `questionsMap` object of
  index.js) and the one query the dialogue makes of it: which catalog fields an
  answer map still leaves open, in catalog order.

  Answer values are abstracted to strings; the empty string stands for every
  value JavaScript treats as falsy, which is what `!answers[field]` tests.
 */
module Catalog {

  /** The field names in catalog order: the key order of `questionsMap`. */
  const Keys: seq<string> := ["current_role", "collaboration_needs", "domain", "region"]

  /** The prompt shown for each field. */
  const QuestionsMap: map<string, string> := map[
    "current_role" := "What’s your current role, and what are your strengths? (For example, 'I’m a tech expert who has developed a healthcare app.')",
    "collaboration_needs" := "What kind of collaboration are you looking for? (For example, are you looking for a technical partner, an investor, or a sales partner?)",
    "domain" := "What is your business domain? (What industry or field does your business belong to? For example, 'I’m in the healthcare domain, developing a fitness tracking app.')",
    "region" := "What is your preferred region for collaboration? (Which geographical area would you prefer to collaborate in or with? For example, 'I’m looking to collaborate with partners in North America or Europe.')"
  ]

  /** A field is answered when it holds a value that is not falsy. */
  predicate Answered(answers: map<string, string>, field: string)
  {
    field in answers && answers[field] != ""
  }

  /** Every catalog field is answered: the questionnaire is complete. */
  predicate Complete(answers: map<string, string>)
  {
    forall k :: 0 <= k < |Keys| ==> Answered(answers, Keys[k])
  }

  /** `Keys[k]` is the earliest catalog field, in catalog order, that is not answered. */
  predicate IsEarliestUnanswered(answers: map<string, string>, k: int)
  {
    && 0 <= k < |Keys|
    && !Answered(answers, Keys[k])
    && forall j :: 0 <= j < k ==> Answered(answers, Keys[j])
  }

  /** `fields` with the answered ones filtered out, order kept. */
  function UnansweredIn(fields: seq<string>, answers: map<string, string>): (r: seq<string>)
    ensures |r| <= |fields|
    ensures forall f :: f in r <==> f in fields && !Answered(answers, f)
  {
    if fields == [] then []
    else if Answered(answers, fields[0]) then UnansweredIn(fields[1..], answers)
    else [fields[0]] + UnansweredIn(fields[1..], answers)
  }

  /** The catalog fields still open, in catalog order: the `filter` over `Object.keys(questionsMap)`. */
  function Unanswered(answers: map<string, string>): (r: seq<string>)
    ensures forall f :: f in r ==> f in QuestionsMap && !Answered(answers, f)
    ensures forall f :: f in Keys && !Answered(answers, f) ==> f in r
  {
    UnansweredIn(Keys, answers)
  }

  /** The head of a filtered list is the earliest field of the list left unanswered. */
  lemma {:induction false} FirstOfUnansweredIn(fields: seq<string>, answers: map<string, string>) returns (k: nat)
    requires UnansweredIn(fields, answers) != []
    ensures k < |fields| && fields[k] == UnansweredIn(fields, answers)[0]
    ensures !Answered(answers, fields[k])
    ensures forall j :: 0 <= j < k ==> Answered(answers, fields[j])
  {
    if Answered(answers, fields[0]) {
      var k' := FirstOfUnansweredIn(fields[1..], answers);
      k := k' + 1;
    } else {
      k := 0;
    }
  }

  /** The field the dialogue asks next is the earliest unanswered one in catalog order. */
  lemma FirstUnanswered(answers: map<string, string>) returns (k: nat)
    requires Unanswered(answers) != []
    ensures IsEarliestUnanswered(answers, k)
    ensures Keys[k] == Unanswered(answers)[0]
  {
    k := FirstOfUnansweredIn(Keys, answers);
  }

  /** No catalog field is left open exactly when the questionnaire is complete. */
  lemma NoneUnansweredIffComplete(answers: map<string, string>)
    ensures Unanswered(answers) == [] <==> Complete(answers)
  {
    if Unanswered(answers) == [] {
      forall k | 0 <= k < |Keys|
        ensures Answered(answers, Keys[k])
      {
        assert Keys[k] in Keys;
      }
    } else {
      var f := Unanswered(answers)[0];
      assert f in Keys && !Answered(answers, f);
    }
  }

  /** There is exactly one earliest unanswered field, unless the questionnaire is complete. */
  lemma EarliestUnansweredExists(answers: map<string, string>) returns (k: nat)
    requires !Complete(answers)
    ensures IsEarliestUnanswered(answers, k)
    ensures forall k' :: IsEarliestUnanswered(answers, k') ==> k' == k
  {
    NoneUnansweredIffComplete(answers);
    k := FirstUnanswered(answers);
  }
}
