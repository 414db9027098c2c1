/** The `/ask` endpoint of the backend (synerge-reader-backend/main.py): the
    context fallback, the prompt it sends to the language model, and the
    answer stream `stream_generate` produces, with the in-band trailers that
    report the stored history entry or an error. */
module Ask {
  import opened Text
  import opened Markers
  import Retrieval

  const NoRelevantContext: string := "No relevant context found in uploaded documents."
  const NoContext: string := "No context provided."

  /** `context_chunks` after the fallback: the retrieved chunks, else the
      selection, else a fixed notice. */
  function ContextChunks(retrieved: seq<string>, selectedText: string): (ctx: seq<string>)
    ensures ctx != []
    ensures retrieved != [] ==> ctx == retrieved
    ensures retrieved == [] && selectedText != [] ==> ctx == [selectedText]
  {
    if retrieved != [] then retrieved
    else if selectedText != [] then [selectedText]
    else [NoRelevantContext]
  }

  /** `combined_text`: the context chunks separated by blank lines, then the
      selection, stripped; a fixed notice when that leaves nothing. */
  function CombinedText(ctx: seq<string>, selectedText: string): (c: string)
    ensures c != []
    ensures !IsSpace(c[0]) && !IsSpace(c[|c| - 1])
  {
    var joined := if ctx != [] then Join(ctx, "\n\n") + "\n\n" else "";
    StrippedOrNotice(joined + (if selectedText != [] then selectedText else ""))
  }

  /** `s.strip()`, replaced by the fixed notice when nothing is left. */
  function StrippedOrNotice(s: string): (c: string)
    ensures c != []
    ensures !IsSpace(c[0]) && !IsSpace(c[|c| - 1])
    ensures IsBlank(s) ==> c == NoContext
  {
    var t := Trim(s);
    TrimHasNoOuterSpace(s);
    TrimEmptyIffBlank(s);
    if t == [] then
      assert NoContext[0] == 'N' && NoContext[|NoContext| - 1] == '.';
      NoContext
    else t
  }

  const SnippetOpen: string := "<text_snippet>\n"
  const SnippetClose: string := "\n</text_snippet>\n<question>\n"
  const QuestionClose: string := "\n</question>"

  /** The prompt: the combined text inside `<text_snippet>` tags, then the
      question inside `<question>` tags. */
  function Prompt(combined: string, question: string): (p: string)
    ensures SnippetOpen <= p
    ensures p[|p| - |QuestionClose|..] == QuestionClose
    ensures |p| == |SnippetOpen| + |combined| + |SnippetClose| + |question| + |QuestionClose|
  {
    SnippetOpen + combined + SnippetClose + question + QuestionClose
  }

  /** The leftmost occurrence of `needle` in `hay` at or after `from`. */
  function FirstOccurrence(hay: string, needle: string, from: nat): (r: Option<nat>)
    requires from <= |hay|
    ensures r.Some? ==> from <= r.value && OccursAt(hay, needle, r.value)
    ensures r.Some? ==> forall i :: from <= i < r.value ==> !OccursAt(hay, needle, i)
    ensures r.None? ==> forall i :: from <= i <= |hay| ==> !OccursAt(hay, needle, i)
    decreases |hay| - from
  {
    if OccursAt(hay, needle, from) then Some(from)
    else if from == |hay| then None
    else FirstOccurrence(hay, needle, from + 1)
  }

  /** What a reader of the prompt takes as the snippet: everything between
      the opening tag and the first closing tag. */
  function SnippetOf(prompt: string): Option<string> {
    if |prompt| >= |SnippetOpen| && prompt[..|SnippetOpen|] == SnippetOpen then
      match FirstOccurrence(prompt, SnippetClose, |SnippetOpen|)
      case Some(i) => Some(prompt[|SnippetOpen|..i])
      case None => None
    else None
  }

  /** The answer pipeline up to the prompt: retrieve the three best chunks,
      fall back, combine and wrap. The relevant history is computed as the
      endpoint computes it but, as there, does not reach the prompt. */
  method AskQuestion(question: string, selectedText: string,
                     chunkRows: seq<Retrieval.ChunkRow>, historyRows: seq<Retrieval.HistoryRow>)
    returns (prompt: string)
    ensures var retrieved := Retrieval.Items(Retrieval.Take(Retrieval.SortByScore(Retrieval.ChunkCandidates(question, chunkRows)), 3));
      prompt == Prompt(CombinedText(ContextChunks(retrieved, selectedText), selectedText), question)
    ensures |prompt| > |SnippetOpen| + |SnippetClose| + |QuestionClose| + |question|
  {
    var contextChunks := Retrieval.GetRelevantChunks(question, chunkRows, 3);
    if contextChunks == [] && selectedText != [] {
      contextChunks := [selectedText];
    } else if contextChunks == [] {
      contextChunks := [NoRelevantContext];
    }
    var relevantHistory := Retrieval.GetRelevantHistory(question, selectedText, historyRows, 3);
    var combined := CombinedText(contextChunks, selectedText);
    prompt := SnippetOpen + combined + SnippetClose + question + QuestionClose;
  }

  // ----- the answer stream -----

  /** How a client's request to `/ask` went: `fetch` threw, the status was
      not ok, or the body arrived as `chunks` (already decoded to text) and
      then either ended or the next read threw. */
  datatype AskResponse = FetchFailed | NotOk | Streamed(chunks: seq<string>, readFailed: bool)

  /** One line of the language model's streamed reply: empty, not JSON (or
      not an object), or an object whose `response` field is given (`""`
      when the field is missing). */
  datatype StreamLine = EmptyLine | Unparsable | Parsed(response: string)

  /** What storing the answer did: no user has the token, the entry was
      stored under a row id, or the database raised. */
  datatype DbOutcome = UserMissing | Stored(entryId: nat) | DbFailed

  const DbErrorMessage: string := "Database error occurred"

  /** The answer tokens: the non-empty `response` of every parsed line, in order. */
  function Tokens(lines: seq<StreamLine>): seq<string> {
    if lines == [] then []
    else
      var last := lines[|lines| - 1];
      Tokens(lines[..|lines| - 1]) + (if last.Parsed? && last.response != [] then [last.response] else [])
  }

  /** The trailer sent when the request to the model failed with `message`. */
  function FailureTrailer(failure: Option<string>): seq<string> {
    match failure
    case None => []
    case Some(message) => [ErrorTrailer("LLM streaming error: " + message)]
  }

  /** The trailer that reports the storing of a non-empty answer. */
  function Closing(answer: string, db: DbOutcome): (c: seq<string>)
    ensures |c| <= 1
    ensures c != [] ==> answer != [] && !db.UserMissing?
  {
    if answer == [] then []
    else match db
      case UserMissing => []
      case Stored(id) => [EntryTrailer(id)]
      case DbFailed => [ErrorTrailer(DbErrorMessage)]
  }

  /** Everything `stream_generate` yields, piece by piece. */
  function Emitted(lines: seq<StreamLine>, failure: Option<string>, db: DbOutcome): (e: seq<string>)
    ensures Tokens(lines) <= e
    ensures |Tokens(lines)| <= |e| <= |Tokens(lines)| + 2
  {
    Tokens(lines) + FailureTrailer(failure) + Closing(Concat(Tokens(lines)), db)
  }

  /** `stream_generate`: `lines` are the lines the model sent before the
      request ended, `failure` the message of the exception that ended it
      early (if any), `db` what storing the answer did. */
  method StreamGenerate(lines: seq<StreamLine>, failure: Option<string>, db: DbOutcome)
    returns (emitted: seq<string>, answer: string)
    ensures answer == Concat(Tokens(lines))
    ensures emitted == Emitted(lines, failure, db)
  {
    var answerChunks: seq<string> := [];
    emitted := [];
    for k := 0 to |lines|
      invariant answerChunks == Tokens(lines[..k])
      invariant emitted == answerChunks
    {
      assert lines[..k + 1][..k] == lines[..k];
      match lines[k]
      case Parsed(token) =>
        if token != [] {
          answerChunks := answerChunks + [token];
          emitted := emitted + [token];
        }
      case _ =>
    }
    assert lines[..|lines|] == lines;
    if failure.Some? {
      emitted := emitted + [ErrorTrailer("LLM streaming error: " + failure.value)];
    }
    answer := Concat(answerChunks);
    if answer != [] {
      match db
      case UserMissing =>
      case Stored(id) =>
        emitted := emitted + [EntryTrailer(id)];
      case DbFailed =>
        emitted := emitted + [ErrorTrailer(DbErrorMessage)];
    }
  }

  // ----- properties -----

  lemma {:induction false} TokensAreNonEmpty(lines: seq<StreamLine>)
    ensures forall i :: 0 <= i < |Tokens(lines)| ==> Tokens(lines)[i] != []
    decreases |lines|
  {
    if lines != [] {
      TokensAreNonEmpty(lines[..|lines| - 1]);
    }
  }

  /** The answer is empty exactly when the model sent no token. */
  lemma AnswerEmptyIffNoToken(lines: seq<StreamLine>)
    ensures Concat(Tokens(lines)) == [] <==> Tokens(lines) == []
  {
    TokensAreNonEmpty(lines);
    var t := Tokens(lines);
    if t != [] {
      assert Concat(t) == Concat(t[..|t| - 1]) + t[|t| - 1];
      assert t[|t| - 1] != [];
    }
  }

  /** Every token comes first, in order; at most two trailers follow; the
      entry trailer is the last piece when the answer was stored, and no
      database trailer follows an empty answer. */
  lemma StreamOrder(lines: seq<StreamLine>, failure: Option<string>, db: DbOutcome)
    ensures var e := Emitted(lines, failure, db);
      var tokens := Tokens(lines);
      && e[..|tokens|] == tokens
      && |e| <= |tokens| + 2
      && (db.Stored? && tokens != [] ==> e[|e| - 1] == EntryTrailer(db.entryId))
      && (tokens == [] ==> e == FailureTrailer(failure))
  {
    AnswerEmptyIffNoToken(lines);
    var tokens := Tokens(lines);
    var e := Emitted(lines, failure, db);
    assert e == tokens + (FailureTrailer(failure) + Closing(Concat(tokens), db));
    assert e[..|tokens|] == tokens;
    if tokens == [] {
      assert Closing(Concat(tokens), db) == [];
      assert e == FailureTrailer(failure);
    }
  }

  /** The body the client receives: the answer, then the error trailer of a
      failed request, then the trailer about storing the answer. */
  lemma StreamBody(lines: seq<StreamLine>, failure: Option<string>, db: DbOutcome)
    ensures Concat(Emitted(lines, failure, db))
         == Concat(Tokens(lines)) + Concat(FailureTrailer(failure)) + Concat(Closing(Concat(Tokens(lines)), db))
  {
    var tokens := Tokens(lines);
    ConcatAppend(tokens + FailureTrailer(failure), Closing(Concat(tokens), db));
    ConcatAppend(tokens, FailureTrailer(failure));
  }

  /** The placeholder is used when the context and the selection are blank. */
  lemma {:induction false} BlankJoin(ctx: seq<string>)
    requires forall i :: 0 <= i < |ctx| ==> IsBlank(ctx[i])
    ensures IsBlank(Join(ctx, "\n\n"))
    decreases |ctx|
  {
    if |ctx| > 1 {
      BlankJoin(ctx[1..]);
      var j := Join(ctx, "\n\n");
      assert j == ctx[0] + "\n\n" + Join(ctx[1..], "\n\n");
      forall i | 0 <= i < |j| ensures IsSpace(j[i]) {
        if i < |ctx[0]| {
          assert j[i] == ctx[0][i];
        } else if i >= |ctx[0]| + 2 {
          assert j[i] == Join(ctx[1..], "\n\n")[i - |ctx[0]| - 2];
        }
      }
    }
  }

  lemma BlankInputsGivePlaceholder(ctx: seq<string>, selectedText: string)
    requires forall i :: 0 <= i < |ctx| ==> IsBlank(ctx[i])
    requires IsBlank(selectedText)
    ensures CombinedText(ctx, selectedText) == NoContext
  {
    BlankJoin(ctx);
    var joined := if ctx != [] then Join(ctx, "\n\n") + "\n\n" else "";
    var raw := joined + (if selectedText != [] then selectedText else "");
    forall i | 0 <= i < |raw| ensures IsSpace(raw[i]) {
      if i < |joined| && ctx != [] {
        if i < |Join(ctx, "\n\n")| {
          assert raw[i] == Join(ctx, "\n\n")[i];
        }
      } else if i >= |joined| {
        assert raw[i] == selectedText[i - |joined|];
      }
    }
    TrimEmptyIffBlank(raw);
  }

  /** A non-blank selection always ends the snippet (trimmed). */
  lemma SnippetEndsWithSelection(ctx: seq<string>, selectedText: string)
    requires !IsBlank(selectedText)
    ensures EndsWith(CombinedText(ctx, selectedText), Trim(selectedText))
  {
    var joined := if ctx != [] then Join(ctx, "\n\n") + "\n\n" else "";
    TrimEndsWithTrimmed(joined, selectedText);
    TrimEmptyIffBlank(selectedText);
    TrimEmptyIffBlank(joined + selectedText);
  }

  lemma TrimEndDoubled(s: string)
    requires !IsBlank(s)
    ensures TrimEnd(s + "\n\n" + s) == s + "\n\n" + TrimEnd(s)
  {
    TrimEndAppendNonBlank(s + "\n\n", s);
  }

  lemma TrimStartDoubled(s: string)
    requires !IsBlank(s)
    ensures TrimStart(s + "\n\n" + TrimEnd(s)) == TrimStart(s) + "\n\n" + TrimEnd(s)
  {
    TrimStartThrough(s, "\n\n", TrimEnd(s));
  }

  lemma TrimStartThrough(s: string, sep: string, e: string)
    requires !IsBlank(s)
    ensures TrimStart(s + sep + e) == TrimStart(s) + sep + e
  {
    TrimStartAppendNonBlank(s, sep + e);
    AppendAssoc(s, sep, e);
    AppendAssoc(TrimStart(s), sep, e);
  }

  lemma TrimDoubled(s: string)
    requires !IsBlank(s)
    ensures Trim(s + "\n\n" + s) == TrimStart(s) + "\n\n" + TrimEnd(s)
  {
    TrimEndDoubled(s);
    TrimStartDoubled(s);
  }

  /** When retrieval finds nothing, the selection stands in for the context
      and is then appended once more: the snippet holds it twice. */
  lemma SelectionOnlyAppearsTwice(selectedText: string)
    requires !IsBlank(selectedText)
    ensures CombinedText(ContextChunks([], selectedText), selectedText)
         == TrimStart(selectedText) + "\n\n" + TrimEnd(selectedText)
  {
    var s := selectedText;
    var ctx := ContextChunks([], s);
    assert ctx == [s];
    assert Join(ctx, "\n\n") == s;
    var raw := s + "\n\n" + s;
    assert !IsBlank(raw) by {
      var i :| 0 <= i < |s| && !IsSpace(s[i]);
      assert raw[i] == s[i];
    }
    TrimEmptyIffBlank(raw);
    TrimDoubled(s);
    assert CombinedText(ctx, s) == Trim(raw);
  }

  /** A match with none before it is the first occurrence. */
  lemma FirstOccurrenceAt(hay: string, needle: string, from: nat, k: nat)
    requires from <= k <= |hay|
    requires OccursAt(hay, needle, k)
    requires forall i :: from <= i < k ==> !OccursAt(hay, needle, i)
    ensures FirstOccurrence(hay, needle, from) == Some(k)
  {
    var r := FirstOccurrence(hay, needle, from);
    if r.Some? {
      assert !(r.value < k);
      assert !(k < r.value);
    }
  }

  /** A snippet without `<` is read back intact from the prompt. */
  lemma PromptSnippetRoundTrip(combined: string, question: string)
    requires forall j :: 0 <= j < |combined| ==> combined[j] != '<'
    ensures SnippetOf(Prompt(combined, question)) == Some(combined)
  {
    var p := Prompt(combined, question);
    var n := |SnippetOpen|;
    var close := n + |combined|;
    var tail := SnippetClose + question + QuestionClose;
    assert p == SnippetOpen + combined + tail;
    assert p[..n] == SnippetOpen;
    assert p[n..close] == combined;
    assert p[close..close + |SnippetClose|] == SnippetClose;
    assert OccursAt(p, SnippetClose, close);
    forall i | n <= i < close ensures !OccursAt(p, SnippetClose, i) {
      var c := p[i + 1];
      if i + 1 < close {
        assert c == combined[i + 1 - n];
      } else {
        assert c == SnippetClose[0];
      }
      assert c != SnippetClose[1];
    }
    FirstOccurrenceAt(p, SnippetClose, n, close);
  }
}
