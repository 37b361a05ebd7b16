/** `agent_loop` and `build_answers`: one search per question, the summary of
    the first hit, and its first two sentences as the answer. The two network
    helpers are passed in as total functions; each already turns every
    failure into an empty result, so neither can raise. */
module Agent {
  import opened Wrappers
  import opened Json
  import opened Text
  import opened Extract

  /** The sentinel for a fault raised while answering one question. */
  const ErrorText: string := "Error processing question"

  /** The `limit` that `search_wikipedia` is called with (its default). */
  const SearchLimit: nat := 3

  /** The `max_sentences` that the loop hands to `extract_answer`. */
  const AnswerSentences: nat := 2

  /** A call the loop makes to one of its network collaborators. */
  datatype Call = Search(query: Value, limit: nat) | Summary(title: string)

  /** What one question produced: the answer and the calls made, in order. */
  datatype Run = Run(answer: string, calls: seq<Call>)

  /** Search: the query value and result limit to a list of article titles. */
  type Searcher = (Value, nat) -> seq<string>

  /** Summary: an article title to its introductory plain text. */
  type Summarizer = string -> string

  /** One question through the loop. The only statement that can raise is the
      slice `question[:60]` in the log line, so a value that cannot be sliced
      is the error sentinel and nothing is searched; a list can be sliced and
      goes to the search as it is. Otherwise the question is searched once,
      and when there are hits only the first title's summary is fetched and
      cut to two sentences. */
  function AgentLoop(question: Value, search: Searcher, summary: Summarizer): (r: Run)
    ensures r.answer == ErrorText <==> !question.Sliceable()
    ensures !question.Sliceable() ==> r.calls == []
    ensures question.Sliceable() && search(question, SearchLimit) == [] ==>
              r.answer == NotAvailable && r.calls == [Search(question, SearchLimit)]
    ensures question.Sliceable() && search(question, SearchLimit) != [] ==>
              var title := search(question, SearchLimit)[0];
              && r.calls == [Search(question, SearchLimit), Summary(title)]
              && r.answer == ExtractAnswer(summary(title), AnswerSentences)
  {
    if !question.Sliceable() then Run(ErrorText, [])
    else
      var results := search(question, SearchLimit);
      if results == [] then Run(NotAvailable, [Search(question, SearchLimit)])
      else
        var title := results[0];
        var content := summary(title);
        Run(ExtractAnswer(content, AnswerSentences), [Search(question, SearchLimit), Summary(title)])
  }

  /** Every answer is one of the two sentinels or a period-terminated prefix of
      the fetched summary (with at most one period added), and the "not
      available" sentinel means exactly that the search or the summary came
      back empty. */
  lemma AgentAnswerShape(question: Value, search: Searcher, summary: Summarizer)
    ensures var r := AgentLoop(question, search, summary);
      || r.answer == NotAvailable
      || r.answer == ErrorText
      || (&& |r.calls| == 2 && r.calls[1].Summary?
          && EndsWithPeriod(r.answer)
          && r.answer <= summary(r.calls[1].title) + [Period]
          && Count(r.answer, Period) <= AnswerSentences)
    ensures var r := AgentLoop(question, search, summary);
      r.answer == NotAvailable <==>
        && question.Sliceable()
        && (search(question, SearchLimit) == [] || summary(search(question, SearchLimit)[0]) == [])
    ensures |AgentLoop(question, search, summary).answer| > 0
  {
  }

  /** The question text of an input record: `record.get("input", "")`. */
  function QuestionText(record: Value): Value
    requires record.JObject?
  {
    if "input" in record.fields then record.fields["input"] else JStr("")
  }

  /** The output record `{"output": answer}`. */
  function OutputRecord(answer: string): Value
  {
    JObject(map["output" := JStr(answer)])
  }

  /** `build_answers`: the loop over the records in order. The network may
      answer differently from one record to the next (a timeout for one, hits
      for the same text a moment later), so record `i` is answered with its own
      collaborators `searches(i)` and `summaries(i)`. A record that is not a
      mapping makes `.get` raise, which nothing catches, so the whole build
      fails at the first such record (its index is returned). */
  method BuildAnswers(questions: seq<Value>, searches: nat -> Searcher, summaries: nat -> Summarizer)
    returns (r: Result<seq<Value>, nat>)
    ensures r.Success? <==> forall i :: 0 <= i < |questions| ==> questions[i].JObject?
    ensures r.Success? ==>
              && |r.value| == |questions|
              && forall i :: 0 <= i < |questions| ==>
                   r.value[i] == OutputRecord(AgentLoop(QuestionText(questions[i]), searches(i), summaries(i)).answer)
    ensures r.Failure? ==>
              && r.error < |questions|
              && !questions[r.error].JObject?
              && forall i :: 0 <= i < r.error ==> questions[i].JObject?
  {
    r := AnswerEach(questions, (i: nat, q: Value) => AgentLoop(q, searches(i), summaries(i)).answer);
  }

  /** The loop of `build_answers` with the per-record answerer `answer`, given
      the record's index and question text: reads each record's question text,
      answers it and wraps the answer in an output record, stopping at the
      first record that is not a mapping. */
  method AnswerEach(questions: seq<Value>, answer: (nat, Value) -> string)
    returns (r: Result<seq<Value>, nat>)
    ensures r.Success? <==> forall i :: 0 <= i < |questions| ==> questions[i].JObject?
    ensures r.Success? ==>
              && |r.value| == |questions|
              && forall i :: 0 <= i < |questions| ==>
                   r.value[i] == OutputRecord(answer(i, QuestionText(questions[i])))
    ensures r.Failure? ==>
              && r.error < |questions|
              && !questions[r.error].JObject?
              && forall i :: 0 <= i < r.error ==> questions[i].JObject?
  {
    var answers: seq<Value> := [];
    var idx := 0;
    while idx < |questions|
      invariant 0 <= idx <= |questions|
      invariant |answers| == idx
      invariant forall i :: 0 <= i < idx ==> questions[i].JObject?
      invariant forall i :: 0 <= i < idx ==> answers[i] == OutputRecord(answer(i, QuestionText(questions[i])))
    {
      var question := questions[idx];
      if !question.JObject? {
        return Failure(idx);
      }
      answers := answers + [OutputRecord(answer(idx, QuestionText(question)))];
      idx := idx + 1;
    }
    return Success(answers);
  }
}
