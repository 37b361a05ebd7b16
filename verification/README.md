# Wikipedia answer generator — verified model

This project models the answer pipeline of `generate_answer_template.py`, a
batch script that answers trivia questions from Wikipedia. The script works in
three steps:

- **`extract_answer`** cuts an article extract down to its first sentences. A
  sentence boundary is any literal `.`.
- **`agent_loop`** answers one question. It makes one search, fetches the
  summary of the first hit and extracts two sentences from it. A fault becomes
  the sentinel `"Error processing question"`.
- **`build_answers`** and **`validate_results`** run the loop over the input
  records in order. They then check the shape of the `{"output": …}` records.

The two network helpers are parameters of the model: `search`
(`(Value, nat) -> seq<string>`, a question and a limit to titles) and `summary`
(`string -> string`, a title to its intro text). Each source helper catches
every exception and returns `[]` or `""`, so it never raises. Within one call of
`agent_loop` each helper is called at most once, so a function models it
exactly. The network can still answer differently from one call to the next:
the same text can time out for one record and find titles for the next. So
`build_answers` gives record `i` its own pair, `searches(i)` and
`summaries(i)`, and promises nothing across records. The model records each
call in `Run.calls`. This makes statements such as "the summary is never
fetched when the search is empty" provable.

Python values read from JSON are `Json.Value`. This matters in two places:

- A question that is a list can be sliced, so it is searched as it is.
- Any other non-string question raises and becomes the error sentinel.

Modules:

- `Wrappers` (wrappers.dfy): Option, Result and Outcome.
- `Json` (json.dfy): decoded JSON values, plus Python's substring test.
- `Text` (text.dfy): `str.split`, `str.join` and list slicing for a
  one-character separator. It also holds `UpToNth`, a reference definition of
  "the text before the k-th period" that does not split.
- `Extract` (extract.dfy): `extract_answer`.
- `Agent` (agent.dfy): `agent_loop` and `build_answers`.
- `Validate` (validate.dfy): `validate_results`, and how it relates to what
  `build_answers` produces.

The code makes one search per question and reads only the `"input"` field.
Extraction rejoins the pieces with `"."` and does not trim them or drop empty
ones. For example, `"A.. B."` with two sentences gives `"A."`.

## Model

| member | source | states |
|---|---|---|
| Text.Split | generate_answer_template.py:84 | `s.split(".")` has one more piece than `s` has periods, no piece contains a period, and joining the pieces with the period gives back `s` |
| Text.SplitJoin | generate_answer_template.py:84-85 | splitting undoes joining for any non-empty list of period-free pieces, so split and join are exact inverses |
| Text.UpToNthSpec | generate_answer_template.py:84-85 | the reference text "before the k-th period" is a prefix of the content with min(k-1, all) periods; when it stops short, the next character is a period; with fewer than k periods it is the whole content |
| Text.KeepPiecesIsUpToNth | generate_answer_template.py:84-85 | splitting on `.`, keeping the first k pieces (`sentences[:k]`) and rejoining with `.` gives exactly the text before the k-th period |
| Extract.ExtractAnswer | generate_answer_template.py:78-91 | empty content gives the sentinel; the sentinel appears exactly for empty content, k = 0, or k = 1 with a leading period; otherwise the answer ends in a period, is a prefix of content + ".", has at most k periods, and is the kept text with a period appended only when it lacked one |
| Extract.NeverSentinelFromTwoSentences | generate_answer_template.py:85-91 | for k >= 2 and non-empty content the answer is never the sentinel and is at most one character longer than the content |
| Extract.ZeroSentencesIsSentinel | generate_answer_template.py:85-91 | `max_sentences = 0` always gives the sentinel |
| Extract.ExampleShortSentences | generate_answer_template.py:84-91 | `"A. B. C."` with two sentences gives `"A. B."`, with the inner space kept |
| Extract.ExampleTwoSentenceExtract | generate_answer_template.py:88-91 | an extract of exactly two sentences comes back unchanged, with no second period added |
| Agent.AgentLoop | generate_answer_template.py:94-118 | the error sentinel appears exactly when the question cannot be sliced, and then no call is made; otherwise search runs once on the whole question with limit 3; on no hits the answer is "not available" and no summary is fetched; on hits only the first title's summary is fetched and the answer is its two-sentence extract |
| Agent.AgentAnswerShape | generate_answer_template.py:96-118 | every answer is non-empty and is a sentinel or a period-terminated prefix of the fetched summary + "." with at most two periods; "not available" appears exactly when the question was searched and the search or the summary came back empty |
| Agent.BuildAnswers | generate_answer_template.py:121-135 | succeeds exactly when every record is a mapping; then it returns one `{"output": answer}` per record in the same order, answering the record's `"input"` or `""` with that record's own network answers; otherwise it fails at the first record that is not a mapping |
| Agent.AnswerEach | generate_answer_template.py:121-135 | the loop of `build_answers` for any answerer of a record's index and question text: it succeeds exactly when every record is a mapping, and then gives the same count of `{"output": …}` records in input order; otherwise it fails at the first record that is not a mapping |
| Validate.RecordFault | generate_answer_template.py:145-156 | one record passes exactly when it is a mapping with a string "output" shorter than 5000; a mapping fails as missing, non-string or too long, in that order; a string or list fails as not subscriptable exactly when it contains `"output"` (substring or element), and as missing otherwise; any other value fails as not subscriptable |
| Validate.ValidateFrom | generate_answer_template.py:145-156 | the loop passes exactly when every remaining record is well formed, and otherwise reports the first record that is not, with that record's own error |
| Validate.ValidateResults | generate_answer_template.py:138-156 | passes exactly when the counts match and every answer is well formed; a count mismatch is reported first, and otherwise the first bad index is reported |
| Validate.BuiltAnswersValidate | generate_answer_template.py:121-156 | the output of `build_answers` passes validation exactly when every answer is shorter than 5000 characters |
| Validate.ShortSummariesValidate | generate_answer_template.py:152-156 | if every summary, for every record, is shorter than 4999 characters, the output of `build_answers` always passes validation |

## Left out

- `search_wikipedia` and `get_wikipedia_summary` (HTTP requests, timeouts, JSON decoding) are the function parameters `search` and `summary`. Both catch every exception, so they are total functions here.
- `time.sleep` and every `print` are left out: they do not affect any result. The slice `question[:60]` inside the first `print` is kept, because it is what raises on a non-sliceable question.
- `load_questions`, `main` and the write-then-reread of the answers file are left out: they are file I/O and JSON serialisation.
- Extract.ExtractAnswer: `max_sentences` is a `nat`; Python's slice semantics for a negative count are not modelled. The default of 3 is not modelled either, since the only caller passes 2.
- Exceptions that `except Exception` does not catch (`KeyboardInterrupt` and the like) are left out.
- JSON numbers carry an integer only. No contract looks at a number beyond its type, so floats need nothing more.
- Planning several queries, re-ranking results by token overlap, retrying with other queries and probing other input field names are left out: the code implements none of them.
