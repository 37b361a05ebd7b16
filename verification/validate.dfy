/** `validate_results`: the final integrity check over the answer records. */
module Validate {
  import opened Wrappers
  import opened Json
  import opened Extract
  import opened Agent

  /** Outputs must be strictly shorter than this many characters. */
  const MaxOutputLength: nat := 5000

  /** Why validation stopped. Every error but the first names the answer index
      it was raised at. */
  datatype ValidationError =
    | LengthMismatch(questionCount: nat, answerCount: nat)  // ValueError: counts differ
    | MissingOutput(index: nat)                             // ValueError: no "output" in the record
    | NotSubscriptable(index: nat)                          // TypeError from `in` or from `record["output"]`
    | NonStringOutput(index: nat)                           // TypeError: the output is not a string
    | TooLong(index: nat, length: nat)                      // ValueError: 5000 characters or more

  /** The property every answer record must have: a mapping whose "output"
      is a string shorter than the limit. */
  predicate WellFormed(answer: Value)
  {
    && answer.JObject?
    && "output" in answer.fields
    && answer.fields["output"].JStr?
    && |answer.fields["output"].s| < MaxOutputLength
  }

  /** The checks on one record, in the order the loop body makes them.
      `"output" in answer` is a key test on a mapping, a substring test on a
      string, an element test on a list and a TypeError on anything else; when
      it holds for a string or a list, `answer["output"]` raises TypeError. */
  function RecordFault(answer: Value, idx: nat): (e: Option<ValidationError>)
    ensures e.None? <==> WellFormed(answer)
    ensures e.Some? ==> !e.value.LengthMismatch? && e.value.index == idx
    ensures e.Some? && answer.JObject? ==>
              e.value == (if "output" !in answer.fields then MissingOutput(idx)
                          else if !answer.fields["output"].JStr? then NonStringOutput(idx)
                          else TooLong(idx, |answer.fields["output"].s|))
    ensures !answer.JObject? ==> e.Some? && (e.value.MissingOutput? || e.value.NotSubscriptable?)
    ensures answer.JStr? ==> (e.Some? && e.value.NotSubscriptable? <==> Contains(answer.s, "output"))
    ensures answer.JArray? ==> (e.Some? && e.value.NotSubscriptable? <==> JStr("output") in answer.items)
    ensures !answer.JObject? && !answer.JStr? && !answer.JArray? ==> e == Some(NotSubscriptable(idx))
  {
    match answer
    case JObject(fields) =>
      if "output" !in fields then Some(MissingOutput(idx))
      else if !fields["output"].JStr? then Some(NonStringOutput(idx))
      else if |fields["output"].s| >= MaxOutputLength then Some(TooLong(idx, |fields["output"].s|))
      else None
    case JStr(s) => Some(if Contains(s, "output") then NotSubscriptable(idx) else MissingOutput(idx))
    case JArray(items) => Some(if JStr("output") in items then NotSubscriptable(idx) else MissingOutput(idx))
    case _ => Some(NotSubscriptable(idx))
  }

  /** The loop over `answers[i..]`: passes exactly when every record from `i`
      on is well formed, and otherwise fails at the first one that is not. */
  function ValidateFrom(answers: seq<Value>, i: nat): (r: Outcome<ValidationError>)
    requires i <= |answers|
    ensures r.Pass? <==> forall j :: i <= j < |answers| ==> WellFormed(answers[j])
    ensures r.Fail? ==>
              && !r.error.LengthMismatch?
              && i <= r.error.index < |answers|
              && RecordFault(answers[r.error.index], r.error.index) == Some(r.error)
              && forall j :: i <= j < r.error.index ==> WellFormed(answers[j])
    decreases |answers| - i
  {
    if i == |answers| then Pass
    else
      match RecordFault(answers[i], i)
      case Some(e) => Fail(e)
      case None => ValidateFrom(answers, i + 1)
  }

  /** `validate_results(questions, answers)`: the counts must agree, and then
      every answer record must be well formed; the first failure is
      reported. */
  function ValidateResults(questions: seq<Value>, answers: seq<Value>): (r: Outcome<ValidationError>)
    ensures r.Pass? <==>
              |questions| == |answers| && forall j :: 0 <= j < |answers| ==> WellFormed(answers[j])
    ensures |questions| != |answers| ==> r == Fail(LengthMismatch(|questions|, |answers|))
    ensures r.Fail? && |questions| == |answers| ==>
              && !r.error.LengthMismatch?
              && r.error.index < |answers|
              && RecordFault(answers[r.error.index], r.error.index) == Some(r.error)
              && forall j :: 0 <= j < r.error.index ==> WellFormed(answers[j])
  {
    if |questions| != |answers| then Fail(LengthMismatch(|questions|, |answers|))
    else ValidateFrom(answers, 0)
  }

  /** What `build_answers` returns always has the right count and shape, so
      validation of it passes exactly when every answer is shorter than the
      limit. */
  lemma BuiltAnswersValidate(questions: seq<Value>, answers: seq<Value>,
                              searches: nat -> Searcher, summaries: nat -> Summarizer)
    requires |answers| == |questions|
    requires forall i :: 0 <= i < |questions| ==> questions[i].JObject?
    requires forall i :: 0 <= i < |questions| ==>
               answers[i] == OutputRecord(AgentLoop(QuestionText(questions[i]), searches(i), summaries(i)).answer)
    ensures ValidateResults(questions, answers).Pass? <==>
              forall i :: 0 <= i < |questions| ==>
                |AgentLoop(QuestionText(questions[i]), searches(i), summaries(i)).answer| < MaxOutputLength
  {
  }

  /** Summaries of fewer than 4999 characters keep every answer under the
      limit: an extracted answer adds at most one period to a prefix of its
      summary, and both sentinels are short. */
  lemma ShortSummariesValidate(questions: seq<Value>, answers: seq<Value>,
                                searches: nat -> Searcher, summaries: nat -> Summarizer)
    requires |answers| == |questions|
    requires forall i :: 0 <= i < |questions| ==> questions[i].JObject?
    requires forall i :: 0 <= i < |questions| ==>
               answers[i] == OutputRecord(AgentLoop(QuestionText(questions[i]), searches(i), summaries(i)).answer)
    requires forall i, title :: |summaries(i)(title)| < MaxOutputLength - 1
    ensures ValidateResults(questions, answers).Pass?
  {
    forall i | 0 <= i < |questions|
      ensures |AgentLoop(QuestionText(questions[i]), searches(i), summaries(i)).answer| < MaxOutputLength
    {
      AgentAnswerShape(QuestionText(questions[i]), searches(i), summaries(i));
    }
    BuiltAnswersValidate(questions, answers, searches, summaries);
  }
}
