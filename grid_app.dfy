/** The ask flow of the grid layout (synerge-reader-frontend/src/GridApp.jsx):
    `handleAsk` reads the whole answer stream into one string, takes the
    first `__ENTRY_ID__<digits>__` marker out of it and trims the rest;
    `handleTextSelection` opens the ask box for a non-blank selection. */
module GridApp {
  import opened Text
  import opened Decimal
  import opened Markers
  import Ask

  /** The answer text shown and the history entry id, if one was found. */
  datatype Decoded = Decoded(answer: string, entryId: Option<nat>)

  /** The extraction after the body was read: with a match of
      `/__ENTRY_ID__(\d+)__/`, its digits give the id and the body without
      that first match, trimmed, gives the answer; without one the body is
      the answer as it is. */
  function DecodeBody(body: string): (d: Decoded)
    ensures d.entryId.None? <==> !HasEntryMarker(body)
    ensures d.entryId.None? ==> d.answer == body
  {
    match FindEntry(body, 0)
    case None => Decoded(body, None)
    case Some(p) =>
      Decoded(Trim(body[..p] + body[EntryMatchEnd(body, p)..]), Some(DigitsValue(EntryDigits(body, p))))
  }

  /** The read loop of `handleAsk`: every chunk read is appended to the
      body, so the body is the chunks one after another. */
  method ReadBody(chunks: seq<string>) returns (body: string)
    ensures body == Concat(chunks)
  {
    body := "";
    for k := 0 to |chunks|
      invariant body == Concat(chunks[..k])
    {
      assert chunks[..k + 1][..k] == chunks[..k];
      body := body + chunks[k];
    }
    assert chunks[..|chunks|] == chunks;
  }

  /** The state `handleAsk` and `handleTextSelection` read and write. */
  datatype AnswerView = AnswerView(question: string, answer: string, entryId: Option<nat>)

  const SelectFirst: string := "Please select some text first."
  const BackendFailed: string := "Could not get answer from backend."

  class GridAppState {
    var selectedText: string
    var isLoading: bool
    var error: string
    var askOpen: bool
    var answer: Option<AnswerView>

    constructor()
      ensures selectedText == "" && !isLoading && error == "" && !askOpen && answer == None
    {
      selectedText := "";
      isLoading := false;
      error := "";
      askOpen := false;
      answer := None;
    }

    /** `handleAsk(question)`; `requested` tells whether a request was sent. */
    method HandleAsk(question: string, response: Ask.AskResponse) returns (requested: bool)
      modifies this
      ensures selectedText == old(selectedText)
      ensures requested <==> !IsBlank(old(selectedText))
      ensures !requested ==>
        error == SelectFirst && isLoading == old(isLoading) && askOpen == old(askOpen) && answer == old(answer)
      ensures requested ==> !isLoading && !askOpen
      ensures requested && response.Streamed? && !response.readFailed ==>
        var d := DecodeBody(Concat(response.chunks));
        answer == Some(AnswerView(question, d.answer, d.entryId)) && error == old(error)
      ensures requested && !(response.Streamed? && !response.readFailed) ==>
        error == BackendFailed && answer == old(answer)
    {
      var blank := TrimsToEmpty(selectedText);
      if blank {
        error := SelectFirst;
        return false;
      }
      requested := true;
      SendQuestion(question, response);
    }

    /** `handleAsk` past the blank-selection guard: the request, the read
        loop, the decoding of the body and the closing of the ask box. */
    method SendQuestion(question: string, response: Ask.AskResponse)
      modifies this
      ensures selectedText == old(selectedText)
      ensures !isLoading && !askOpen
      ensures response.Streamed? && !response.readFailed ==>
        var d := DecodeBody(Concat(response.chunks));
        answer == Some(AnswerView(question, d.answer, d.entryId)) && error == old(error)
      ensures !(response.Streamed? && !response.readFailed) ==>
        error == BackendFailed && answer == old(answer)
    {
      isLoading := true;
      match response {
        case Streamed(chunks, readFailed) =>
          var body := ReadBody(chunks);
          if readFailed {
            error := BackendFailed;
          } else {
            var d := DecodeBody(body);
            answer := Some(AnswerView(question, d.answer, d.entryId));
          }
        case _ =>
          error := BackendFailed;
      }
      isLoading := false;
      askOpen := false;
    }

    /** `handleTextSelection(text)`. */
    method HandleTextSelection(text: string)
      modifies this
      ensures selectedText == text
      ensures askOpen == (old(askOpen) || !IsBlank(text))
      ensures isLoading == old(isLoading) && error == old(error) && answer == old(answer)
    {
      selectedText := text;
      var blank := TrimsToEmpty(text);
      if !blank {
        askOpen := true;
      }
    }
  }

  // ----- properties of the decoding -----

  /** With no marker in `A`, the trailer is found, its id read back, and
      only it is cut out: whatever follows it stays in the answer. */
  lemma DecodeTrailer(a: string, n: nat, r: string)
    requires !HasEntryMarker(a)
    ensures DecodeBody(a + EntryTrailer(n) + r) == Decoded(Trim(a + "\n\n" + r), Some(n))
  {
    var body := a + EntryTrailer(n) + r;
    var p := |a| + 2;
    TrailerIsFirstMatch(a, n, r);
    ParsePrinted(n);
    var e := EntryMatchEnd(body, p);
    assert body[..p] == a + "\n\n";
    assert body[e..] == r;
  }

  lemma BlankLineIsBlank()
    ensures IsBlank("\n\n")
  {
    var gap: string := "\n\n";
    assert gap[0] == '\n' && gap[1] == '\n';
  }

  /** The round trip of the backend's trailer: the answer comes back trimmed
      and the id comes back exactly. */
  lemma DecodeRoundTrip(a: string, n: nat)
    requires !HasEntryMarker(a)
    ensures DecodeBody(a + EntryTrailer(n)) == Decoded(Trim(a), Some(n))
  {
    var t := EntryTrailer(n);
    var e: string := [];
    DecodeTrailer(a, n, e);
    assert a + t + e == a + t;
    var gap: string := "\n\n";
    assert a + gap + e == a + gap;
    BlankLineIsBlank();
    TrimAppendBlank(a, gap);
  }

  /** End to end: whatever the stream's pieces, the grid layout shows the
      stored answer (with the error trailer of a failed model request, if
      one came, left in the text) and learns the id of the stored entry. */
  lemma BackendToGridApp(lines: seq<Ask.StreamLine>, failure: Option<string>, n: nat)
    requires Ask.Tokens(lines) != []
    requires !HasEntryMarker(Concat(Ask.Tokens(lines)) + Concat(Ask.FailureTrailer(failure)))
    ensures DecodeBody(Concat(Ask.Emitted(lines, failure, Ask.Stored(n))))
         == Decoded(Trim(Concat(Ask.Tokens(lines)) + Concat(Ask.FailureTrailer(failure))), Some(n))
  {
    var answer := Concat(Ask.Tokens(lines));
    Ask.AnswerEmptyIffNoToken(lines);
    Ask.StreamBody(lines, failure, Ask.Stored(n));
    assert Ask.Closing(answer, Ask.Stored(n)) == [EntryTrailer(n)];
    ConcatSingle(EntryTrailer(n));
    DecodeRoundTrip(answer + Concat(Ask.FailureTrailer(failure)), n);
  }
}
