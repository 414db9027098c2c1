/** `analyze_question` of the backend (synerge-reader-backend/main.py): a
    one-line description of a question built from keyword tests on the
    lower-cased question, its long words and the length of the selection. */
module Analysis {
  import opened Text
  import Decimal

  const InformationWords: seq<string> := ["what", "how", "why", "when", "where", "who"]
  const ComparisonWords: seq<string> := ["compare", "difference", "similar"]
  const ExplanationWords: seq<string> := ["explain", "describe", "define"]

  const InformationPart := "Question type: Information seeking"
  const ComparisonPart := "Question type: Comparison"
  const ExplanationPart := "Question type: Explanation"

  /** `any(word in text for word in words)`. */
  predicate MentionsAny(text: string, words: seq<string>) {
    exists i | 0 <= i < |words| :: Contains(text, words[i])
  }

  /** The question-type labels, in the order the source tests them. */
  function QuestionTypes(question: string): seq<string> {
    var q := ToLower(question);
    (if MentionsAny(q, InformationWords) then [InformationPart] else [])
    + (if MentionsAny(q, ComparisonWords) then [ComparisonPart] else [])
    + (if MentionsAny(q, ExplanationWords) then [ExplanationPart] else [])
  }

  /** `[word for word in words if len(word) > 3]`. */
  function LongWords(words: seq<string>): seq<string> {
    if words == [] then []
    else LongWords(words[..|words| - 1]) + (if |words[|words| - 1]| > 3 then [words[|words| - 1]] else [])
  }

  /** `key_terms[:5]`. */
  function KeyTerms(question: string): seq<string> {
    var long := LongWords(Split(ToLower(question)));
    if |long| <= 5 then long else long[..5]
  }

  function KeyTermsPart(question: string): string {
    "Key terms: " + Join(KeyTerms(question), ", ")
  }

  function ContextPart(selectedText: string): string {
    "Context length: " + Decimal.NatToString(|selectedText|) + " characters"
  }

  /** The list `analysis_parts` at the end of the function. */
  function AnalysisParts(question: string, selectedText: string): seq<string> {
    QuestionTypes(question) + [KeyTermsPart(question)]
    + (if selectedText != [] then [ContextPart(selectedText)] else [])
  }

  /** `analyze_question(question, selected_text)`. */
  method AnalyzeQuestion(question: string, selectedText: string) returns (analysis: string)
    ensures analysis == Join(AnalysisParts(question, selectedText), "; ")
  {
    var lowered := ToLower(question);
    var parts: seq<string> := [];
    if MentionsAny(lowered, InformationWords) {
      parts := parts + [InformationPart];
    }
    if MentionsAny(lowered, ComparisonWords) {
      parts := parts + [ComparisonPart];
    }
    if MentionsAny(lowered, ExplanationWords) {
      parts := parts + [ExplanationPart];
    }
    assert parts == QuestionTypes(question);
    var keyTerms := CollectLongWords(Split(lowered));
    if |keyTerms| > 5 {
      keyTerms := keyTerms[..5];
    }
    assert keyTerms == KeyTerms(question);
    parts := parts + ["Key terms: " + Join(keyTerms, ", ")];
    assert parts == QuestionTypes(question) + [KeyTermsPart(question)];
    if selectedText != [] {
      parts := parts + ["Context length: " + Decimal.NatToString(|selectedText|) + " characters"];
    }
    assert parts == AnalysisParts(question, selectedText);
    analysis := Join(parts, "; ");
  }

  /** The comprehension over `question.lower().split()` that keeps the
      words longer than three characters. */
  method CollectLongWords(words: seq<string>) returns (long: seq<string>)
    ensures long == LongWords(words)
  {
    long := [];
    for k := 0 to |words|
      invariant long == LongWords(words[..k])
    {
      if |words[k]| > 3 {
        long := long + [words[k]];
      }
      assert words[..k + 1][..k] == words[..k];
    }
    assert words[..|words|] == words;
  }

  // ----- properties -----

  lemma {:induction false} LongWordsAreLong(words: seq<string>)
    ensures forall i :: 0 <= i < |LongWords(words)| ==> |LongWords(words)[i]| > 3 && LongWords(words)[i] in words
    decreases |words|
  {
    if words != [] {
      var init := words[..|words| - 1];
      LongWordsAreLong(init);
      assert forall w :: w in init ==> w in words;
    }
  }

  /** At most five key terms, each longer than three characters and each a
      word of the lower-cased question. */
  lemma KeyTermsBounded(question: string)
    ensures |KeyTerms(question)| <= 5
    ensures forall i :: 0 <= i < |KeyTerms(question)| ==>
              |KeyTerms(question)[i]| > 3 && KeyTerms(question)[i] in Split(ToLower(question))
  {
    LongWordsAreLong(Split(ToLower(question)));
  }

  /** The labels differ from each other and from the other two parts. */
  lemma PartsDiffer(question: string, selectedText: string)
    ensures InformationPart != ComparisonPart && InformationPart != ExplanationPart
    ensures ComparisonPart != ExplanationPart
    ensures KeyTermsPart(question) !in [InformationPart, ComparisonPart, ExplanationPart]
    ensures ContextPart(selectedText) !in [InformationPart, ComparisonPart, ExplanationPart]
    ensures KeyTermsPart(question) != ContextPart(selectedText)
  {
    var key := KeyTermsPart(question);
    var ctx := ContextPart(selectedText);
    assert key[0] == 'K' && ctx[0] == 'C';
    assert InformationPart[0] == 'Q' && ComparisonPart[0] == 'Q' && ExplanationPart[0] == 'Q';
    assert InformationPart[15] == 'I' && ComparisonPart[15] == 'C' && ExplanationPart[15] == 'E';
  }

  /** Each question type is listed exactly when one of its keywords occurs
      in the lower-cased question, and nothing else is listed. */
  lemma QuestionTypesFacts(question: string)
    ensures var types := QuestionTypes(question);
      && |types| <= 3
      && (forall i :: 0 <= i < |types| ==> types[i] in [InformationPart, ComparisonPart, ExplanationPart])
      && (InformationPart in types <==> MentionsAny(ToLower(question), InformationWords))
      && (ComparisonPart in types <==> MentionsAny(ToLower(question), ComparisonWords))
      && (ExplanationPart in types <==> MentionsAny(ToLower(question), ExplanationWords))
  {
    PartsDiffer(question, []);
  }

  lemma InAppendNotTail(p: string, a: seq<string>, b: seq<string>)
    requires p !in b
    ensures p in a + b <==> p in a
  {
  }

  /** The analysis lists each question type exactly when one of its keywords
      occurs in the lower-cased question, then the key terms, then the
      selection length when there is a selection. */
  lemma AnalysisPartsFacts(question: string, selectedText: string)
    ensures var parts := AnalysisParts(question, selectedText);
      && |parts| == |QuestionTypes(question)| + 1 + (if selectedText != [] then 1 else 0)
      && |QuestionTypes(question)| <= 3
      && (InformationPart in parts <==> MentionsAny(ToLower(question), InformationWords))
      && (ComparisonPart in parts <==> MentionsAny(ToLower(question), ComparisonWords))
      && (ExplanationPart in parts <==> MentionsAny(ToLower(question), ExplanationWords))
      && parts[|QuestionTypes(question)|] == KeyTermsPart(question)
      && (selectedText != [] <==> parts[|parts| - 1] == ContextPart(selectedText))
  {
    PartsLayout(question, selectedText);
    PartsTypes(question, selectedText);
  }

  /** The analysis is the question types, then the key terms, then the
      context exactly when there is a selection. */
  lemma PartsLayout(question: string, selectedText: string)
    ensures var parts := AnalysisParts(question, selectedText);
      && |parts| == |QuestionTypes(question)| + 1 + (if selectedText != [] then 1 else 0)
      && parts[|QuestionTypes(question)|] == KeyTermsPart(question)
      && (selectedText != [] <==> parts[|parts| - 1] == ContextPart(selectedText))
  {
    var types := QuestionTypes(question);
    var key := KeyTermsPart(question);
    var parts := AnalysisParts(question, selectedText);
    PartsDiffer(question, selectedText);
    if selectedText == [] {
      assert parts == types + [key];
      assert parts[|parts| - 1] == key;
    } else {
      assert parts == types + [key, ContextPart(selectedText)];
    }
  }

  /** A question-type label is in the analysis exactly when it is among the
      question types. */
  lemma PartsTypes(question: string, selectedText: string)
    ensures var parts := AnalysisParts(question, selectedText);
      && |QuestionTypes(question)| <= 3
      && (InformationPart in parts <==> MentionsAny(ToLower(question), InformationWords))
      && (ComparisonPart in parts <==> MentionsAny(ToLower(question), ComparisonWords))
      && (ExplanationPart in parts <==> MentionsAny(ToLower(question), ExplanationWords))
  {
    var types := QuestionTypes(question);
    var tail := [KeyTermsPart(question)] + (if selectedText != [] then [ContextPart(selectedText)] else []);
    assert AnalysisParts(question, selectedText) == types + tail;
    QuestionTypesFacts(question);
    PartsDiffer(question, selectedText);
    InAppendNotTail(InformationPart, types, tail);
    InAppendNotTail(ComparisonPart, types, tail);
    InAppendNotTail(ExplanationPart, types, tail);
  }

  /** The returned string starts with the first part and contains every
      part: each question type whose keywords occur, the key terms, and the
      context length when there is a selection. */
  lemma AnalysisNamesEachPart(question: string, selectedText: string)
    ensures var parts := AnalysisParts(question, selectedText);
      var analysis := Join(parts, "; ");
      && parts != [] && parts[0] <= analysis
      && (forall i :: 0 <= i < |parts| ==> Contains(analysis, parts[i]))
      && (MentionsAny(ToLower(question), InformationWords) ==> Contains(analysis, InformationPart))
      && (MentionsAny(ToLower(question), ComparisonWords) ==> Contains(analysis, ComparisonPart))
      && (MentionsAny(ToLower(question), ExplanationWords) ==> Contains(analysis, ExplanationPart))
      && Contains(analysis, KeyTermsPart(question))
      && (selectedText != [] ==> Contains(analysis, ContextPart(selectedText)))
  {
    var parts := AnalysisParts(question, selectedText);
    PartsLayout(question, selectedText);
    PartsTypes(question, selectedText);
    JoinStartsWithFirst(parts, "; ");
    forall i | 0 <= i < |parts| ensures Contains(Join(parts, "; "), parts[i]) {
      JoinHasEach(parts, "; ", i);
    }
  }
}
