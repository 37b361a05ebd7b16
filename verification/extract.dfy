/** `extract_answer`: cut an article extract down to its first few
    "sentences", where a sentence boundary is any literal '.'. */
module Extract {
  import opened Text

  /** The sentinel returned when there is nothing to answer with. */
  const NotAvailable: string := "Information not available"

  /** The sentence separator, split on and rejoined with. */
  const Period: char := '.'

  /** Whether `s` is non-empty and its last character is a period. */
  predicate EndsWithPeriod(s: string) {
    s != [] && s[|s| - 1] == Period
  }

  /** The answer `extract_answer(content, maxSentences)` returns. The text kept
      is the first `maxSentences` pieces of `content` split on '.', rejoined
      with '.' (pieces are neither trimmed nor dropped); a '.' is appended
      when the kept text does not already end in one; an empty result becomes
      the sentinel. The contract describes the answer through `UpToNth`, a
      reference definition that does not split. */
  function ExtractAnswer(content: string, maxSentences: nat): (r: string)
    ensures content == [] ==> r == NotAvailable
    ensures r == NotAvailable <==>
              content == [] || maxSentences == 0 || (maxSentences == 1 && content[0] == Period)
    ensures r != NotAvailable ==> EndsWithPeriod(r) && r <= content + [Period]
    ensures r != NotAvailable ==> Count(r, Period) <= maxSentences
    ensures r != NotAvailable ==>
              var kept := UpToNth(content, Period, maxSentences);
              kept != [] && (if EndsWithPeriod(kept) then r == kept else r == kept + [Period])
  {
    if content == [] then NotAvailable
    else
      var answer := Join(Take(Split(content, Period), maxSentences), Period);
      var answer' := if answer != [] && answer[|answer| - 1] != Period then answer + [Period] else answer;
      KeepPiecesIsUpToNth(content, Period, maxSentences);
      UpToNthSpec(content, Period, maxSentences);
      if answer' != [] then
        KeptAnswerFacts(content, maxSentences, answer, answer');
        answer'
      else NotAvailable
  }

  /** What the kept text and its period-terminated form satisfy, given the
      facts `UpToNthSpec` establishes about the kept text. */
  lemma KeptAnswerFacts(content: string, k: nat, kept: string, r: string)
    requires content != [] && kept != []
    requires kept == UpToNth(content, Period, k)
    requires r == if kept[|kept| - 1] != Period then kept + [Period] else kept
    ensures k >= 1
    ensures EndsWithPeriod(r) && r <= content + [Period]
    ensures Count(r, Period) <= k
  {
    UpToNthSpec(content, Period, k);
    assert kept <= content + [Period];
    if r == kept + [Period] {
      CountAppend(kept, [Period], Period);
      if |kept| < |content| {
        assert r == content[..|kept| + 1];
      } else {
        assert kept == content;
      }
    }
  }

  /** The sentinel is produced exactly when the kept text is empty. For two or
      more sentences and a non-empty content it never is. */
  lemma NeverSentinelFromTwoSentences(content: string, k: nat)
    requires content != [] && k >= 2
    ensures ExtractAnswer(content, k) != NotAvailable
    ensures |ExtractAnswer(content, k)| <= |content| + 1
  {
  }

  /** Asking for zero sentences always yields the sentinel. */
  lemma ZeroSentencesIsSentinel(content: string)
    ensures ExtractAnswer(content, 0) == NotAvailable
  {
  }

  /** A run of short sentences keeps the first two, with no space trimmed. */
  lemma ExampleShortSentences()
    ensures ExtractAnswer("A. B. C.", 2) == "A. B."
  {
    var a, b, rest := "A", " B", " C.";
    var c := "A. B. C.";
    assert a + [Period] + (b + [Period] + rest) == c;
    UpToNthPiece(b, rest, Period, 1);
    UpToNthPiece(a, b + [Period] + rest, Period, 2);
    var kept := UpToNth(c, Period, 2);
    assert kept == a + [Period] + b;
    assert !EndsWithPeriod(kept);
  }

  /** An extract of exactly two sentences comes back unchanged: its kept text
      already ends in the extract's final period. */
  lemma ExampleTwoSentenceExtract()
    ensures ExtractAnswer("A play. Of 1600.", 2)
         == "A play. Of 1600."
  {
    var h, w := "A play", " Of 1600";
    var c := "A play. Of 1600.";
    assert h + [Period] + (w + [Period] + []) == c;
    UpToNthPiece(w, [], Period, 1);
    UpToNthPiece(h, w + [Period] + [], Period, 2);
    var kept := UpToNth(c, Period, 2);
    assert kept == h + [Period] + w;
    assert !EndsWithPeriod(kept);
    assert kept + [Period] == c;
  }
}
