/** The single-page layout (synerge-reader-frontend/src/App.jsx): the list of
    parsed documents kept sorted by name, the ask flow that classifies every
    received chunk of the answer stream on its own, and the selection
    handler that opens or closes the ask box. */
module App {
  import opened Text
  import opened Decimal
  import opened Markers
  import Ask
  import GridApp

  // ----- documents: handleFileParsed -----

  datatype Doc = Doc(name: string, text: string)

  /** `a.localeCompare(b) <= 0`, taken as the order of code points. */
  predicate NameLe(a: string, b: string)
    decreases |a|
  {
    a == [] || (b != [] && (a[0] < b[0] || (a[0] == b[0] && NameLe(a[1..], b[1..]))))
  }

  lemma {:induction false} NameLeTotal(a: string, b: string)
    ensures NameLe(a, b) || NameLe(b, a)
    decreases |a|
  {
    if a != [] && b != [] && a[0] == b[0] {
      NameLeTotal(a[1..], b[1..]);
    }
  }

  lemma {:induction false} NameLeTransitive(a: string, b: string, c: string)
    requires NameLe(a, b) && NameLe(b, c)
    ensures NameLe(a, c)
    decreases |a|
  {
    if a != [] && a[0] == b[0] && b[0] == c[0] {
      NameLeTransitive(a[1..], b[1..], c[1..]);
    }
  }

  predicate SortedByName(docs: seq<Doc>) {
    forall i, j :: 0 <= i < j < |docs| ==> NameLe(docs[i].name, docs[j].name)
  }

  /** Places `d` in front of the first document whose name is not smaller. */
  function InsertByName(d: Doc, sorted: seq<Doc>): seq<Doc> {
    if sorted == [] || NameLe(d.name, sorted[0].name) then [d] + sorted
    else [sorted[0]] + InsertByName(d, sorted[1..])
  }

  lemma {:induction false} InsertByNameCounts(d: Doc, sorted: seq<Doc>)
    ensures multiset(InsertByName(d, sorted)) == multiset(sorted) + multiset{d}
    decreases |sorted|
  {
    if sorted != [] && !NameLe(d.name, sorted[0].name) {
      InsertByNameCounts(d, sorted[1..]);
      assert sorted == [sorted[0]] + sorted[1..];
    }
  }

  /** Inserting above a lower bound keeps every name above it. */
  lemma {:induction false} InsertByNameBounded(d: Doc, s: seq<Doc>, lo: string)
    requires NameLe(lo, d.name)
    requires forall j :: 0 <= j < |s| ==> NameLe(lo, s[j].name)
    ensures forall j :: 0 <= j < |InsertByName(d, s)| ==> NameLe(lo, InsertByName(d, s)[j].name)
    decreases |s|
  {
    if s == [] || NameLe(d.name, s[0].name) {
      var r := [d] + s;
      forall j | 0 <= j < |r| ensures NameLe(lo, r[j].name) {
        if j > 0 { assert r[j] == s[j - 1]; }
      }
    } else {
      InsertByNameBounded(d, s[1..], lo);
      var rest := InsertByName(d, s[1..]);
      var r := [s[0]] + rest;
      forall j | 0 <= j < |r| ensures NameLe(lo, r[j].name) {
        if j > 0 { assert r[j] == rest[j - 1]; }
      }
    }
  }

  lemma {:induction false} InsertByNameSorted(d: Doc, sorted: seq<Doc>)
    requires SortedByName(sorted)
    ensures SortedByName(InsertByName(d, sorted))
    decreases |sorted|
  {
    var r := InsertByName(d, sorted);
    if sorted == [] || NameLe(d.name, sorted[0].name) {
      forall i, j | 0 <= i < j < |r| ensures NameLe(r[i].name, r[j].name) {
        if i == 0 && j > 1 {
          NameLeTransitive(d.name, sorted[0].name, sorted[j - 1].name);
        }
      }
    } else {
      NameLeTotal(d.name, sorted[0].name);
      var rest := InsertByName(d, sorted[1..]);
      InsertByNameSorted(d, sorted[1..]);
      forall j | 0 <= j < |sorted[1..]| ensures NameLe(sorted[0].name, sorted[1..][j].name) {
        assert sorted[1..][j] == sorted[j + 1];
      }
      InsertByNameBounded(d, sorted[1..], sorted[0].name);
      forall i, j | 0 <= i < j < |r| ensures NameLe(r[i].name, r[j].name) {
        if i > 0 { assert r[i] == rest[i - 1] && r[j] == rest[j - 1]; }
        else { assert r[j] == rest[j - 1]; }
      }
    }
  }

  /** `Array.prototype.sort` with `localeCompare`: stable, so documents with
      equal names keep their order. */
  function SortByName(docs: seq<Doc>): (r: seq<Doc>)
    ensures SortedByName(r)
    ensures multiset(r) == multiset(docs)
  {
    if docs == [] then []
    else
      assert docs == [docs[0]] + docs[1..];
      InsertByNameSorted(docs[0], SortByName(docs[1..]));
      InsertByNameCounts(docs[0], SortByName(docs[1..]));
      InsertByName(docs[0], SortByName(docs[1..]))
  }

  /** `prevDocs.filter((doc) => doc.name !== name)`. */
  function OtherNames(docs: seq<Doc>, name: string): (r: seq<Doc>)
    ensures forall i :: 0 <= i < |r| ==> r[i].name != name && r[i] in docs
  {
    if docs == [] then []
    else (if docs[0].name != name then [docs[0]] else []) + OtherNames(docs[1..], name)
  }

  /** The update `handleFileParsed(text, name)` applies to the list. */
  function NextDocuments(prev: seq<Doc>, name: string, text: string): (r: seq<Doc>)
    ensures SortedByName(r)
    ensures Doc(name, text) in r
  {
    var appended := OtherNames(prev, name) + [Doc(name, text)];
    assert Doc(name, text) in multiset(appended);
    SortByName(appended)
  }

  /** How many documents carry `name`. */
  function CountNamed(docs: seq<Doc>, name: string): nat {
    if docs == [] then 0
    else (if docs[0].name == name then 1 else 0) + CountNamed(docs[1..], name)
  }

  predicate UniqueNames(docs: seq<Doc>) {
    forall i, j :: 0 <= i < j < |docs| ==> docs[i].name != docs[j].name
  }

  lemma {:induction false} CountNamedAppend(a: seq<Doc>, b: seq<Doc>, name: string)
    ensures CountNamed(a + b, name) == CountNamed(a, name) + CountNamed(b, name)
    decreases |a|
  {
    if a == [] {
      assert a + b == b;
    } else {
      assert (a + b)[0] == a[0];
      assert (a + b)[1..] == a[1..] + b;
      CountNamedAppend(a[1..], b, name);
    }
  }

  lemma {:induction false} CountNamedInsert(d: Doc, sorted: seq<Doc>, name: string)
    ensures CountNamed(InsertByName(d, sorted), name) == CountNamed(sorted, name) + CountNamed([d], name)
    decreases |sorted|
  {
    if sorted == [] || NameLe(d.name, sorted[0].name) {
      CountNamedAppend([d], sorted, name);
    } else {
      CountNamedInsert(d, sorted[1..], name);
      assert ([sorted[0]] + InsertByName(d, sorted[1..]))[1..] == InsertByName(d, sorted[1..]);
    }
  }

  lemma {:induction false} CountNamedSort(docs: seq<Doc>, name: string)
    ensures CountNamed(SortByName(docs), name) == CountNamed(docs, name)
    decreases |docs|
  {
    if docs != [] {
      CountNamedSort(docs[1..], name);
      CountNamedInsert(docs[0], SortByName(docs[1..]), name);
    }
  }

  lemma {:induction false} CountNamedOthers(docs: seq<Doc>, name: string, n: string)
    ensures CountNamed(OtherNames(docs, name), n) == if n == name then 0 else CountNamed(docs, n)
    decreases |docs|
  {
    if docs != [] {
      var head := if docs[0].name != name then [docs[0]] else [];
      CountNamedAppend(head, OtherNames(docs[1..], name), n);
      CountNamedOthers(docs[1..], name, n);
    }
  }

  lemma {:induction false} UniqueIffCountsAtMostOne(docs: seq<Doc>)
    ensures UniqueNames(docs) <==> forall n :: CountNamed(docs, n) <= 1
    decreases |docs|
  {
    if docs != [] {
      var tail := docs[1..];
      UniqueIffCountsAtMostOne(tail);
      if UniqueNames(docs) {
        assert UniqueNames(tail) by {
          forall i, j | 0 <= i < j < |tail| ensures tail[i].name != tail[j].name {
            assert tail[i] == docs[i + 1] && tail[j] == docs[j + 1];
          }
        }
        forall n ensures CountNamed(docs, n) <= 1 {
          assert CountNamed(docs, n) == (if docs[0].name == n then 1 else 0) + CountNamed(tail, n);
          assert CountNamed(tail, n) <= 1;
          if docs[0].name == n {
            forall i | 0 <= i < |tail| ensures tail[i].name != n {
              assert tail[i] == docs[i + 1];
            }
            CountNamedAbsent(tail, n);
          }
        }
      } else {
        var i, j :| 0 <= i < j < |docs| && docs[i].name == docs[j].name;
        var n := docs[i].name;
        if i == 0 {
          CountNamedPresent(tail, n, j - 1);
          assert CountNamed(docs, n) >= 2;
        } else {
          assert !UniqueNames(tail) by {
            assert tail[i - 1] == docs[i] && tail[j - 1] == docs[j];
          }
          var m :| CountNamed(tail, m) > 1;
          assert CountNamed(docs, m) > 1;
        }
      }
    }
  }

  lemma {:induction false} CountNamedAbsent(docs: seq<Doc>, n: string)
    requires forall i :: 0 <= i < |docs| ==> docs[i].name != n
    ensures CountNamed(docs, n) == 0
    decreases |docs|
  {
    if docs != [] {
      CountNamedAbsent(docs[1..], n);
    }
  }

  lemma {:induction false} CountNamedPresent(docs: seq<Doc>, n: string, k: nat)
    requires k < |docs| && docs[k].name == n
    ensures CountNamed(docs, n) >= 1
    decreases k
  {
    if k > 0 {
      CountNamedPresent(docs[1..], n, k - 1);
    }
  }

  lemma {:induction false} OtherNamesKeeps(docs: seq<Doc>, name: string, d: Doc)
    requires d in docs && d.name != name
    ensures d in OtherNames(docs, name)
    decreases |docs|
  {
    if docs[0] != d {
      OtherNamesKeeps(docs[1..], name, d);
    }
  }

  /** After the update the list is sorted by name, exactly one document
      carries the name, and it carries the new text. */
  lemma NextDocumentsHasName(prev: seq<Doc>, name: string, text: string)
    ensures var next := NextDocuments(prev, name, text);
      && SortedByName(next)
      && CountNamed(next, name) == 1
      && Doc(name, text) in next
      && forall i :: 0 <= i < |next| && next[i].name == name ==> next[i].text == text
  {
    var next := NextDocuments(prev, name, text);
    NextDocumentsCounts(prev, name, text, name);
    NextDocumentsHasNew(prev, name, text);
    forall i | 0 <= i < |next| && next[i].name == name ensures next[i].text == text {
      NextDocumentsAddsOnlyNew(prev, name, text, next[i]);
    }
  }

  lemma NextDocumentsHasNew(prev: seq<Doc>, name: string, text: string)
    ensures Doc(name, text) in NextDocuments(prev, name, text)
  {
    var all := OtherNames(prev, name) + [Doc(name, text)];
    assert all[|all| - 1] == Doc(name, text);
    assert multiset(NextDocuments(prev, name, text)) == multiset(all);
    assert Doc(name, text) in multiset(all);
  }

  lemma NextDocumentsKeepsEach(prev: seq<Doc>, name: string, text: string, d: Doc)
    requires d in prev && d.name != name
    ensures d in NextDocuments(prev, name, text)
  {
    var all := OtherNames(prev, name) + [Doc(name, text)];
    OtherNamesKeeps(prev, name, d);
    assert d in all;
    assert multiset(NextDocuments(prev, name, text)) == multiset(all);
    assert d in multiset(all);
  }

  lemma NextDocumentsAddsOnlyNew(prev: seq<Doc>, name: string, text: string, d: Doc)
    requires d in NextDocuments(prev, name, text)
    ensures d == Doc(name, text) || (d in prev && d.name != name)
  {
    var others := OtherNames(prev, name);
    var all := others + [Doc(name, text)];
    assert multiset(NextDocuments(prev, name, text)) == multiset(all);
    assert d in multiset(all);
    assert d in all;
    if d != Doc(name, text) {
      assert d in others;
      var i :| 0 <= i < |others| && others[i] == d;
    }
  }

  lemma NextDocumentsCounts(prev: seq<Doc>, name: string, text: string, n: string)
    ensures CountNamed(NextDocuments(prev, name, text), n)
         == if n == name then 1 else CountNamed(prev, n)
  {
    var others := OtherNames(prev, name);
    CountNamedSort(others + [Doc(name, text)], n);
    CountNamedAppend(others, [Doc(name, text)], n);
    CountNamedOthers(prev, name, n);
    assert CountNamed([Doc(name, text)], n) == if n == name then 1 else 0;
  }

  /** Documents with other names are kept, nothing else joins, and names
      that were unique stay unique. */
  lemma NextDocumentsKeepsOthers(prev: seq<Doc>, name: string, text: string)
    ensures var next := NextDocuments(prev, name, text);
      && (forall d :: d in prev && d.name != name ==> d in next)
      && (forall d :: d in next ==> d == Doc(name, text) || (d in prev && d.name != name))
      && (UniqueNames(prev) ==> UniqueNames(next))
  {
    var next := NextDocuments(prev, name, text);
    forall d | d in prev && d.name != name ensures d in next {
      NextDocumentsKeepsEach(prev, name, text, d);
    }
    forall d | d in next ensures d == Doc(name, text) || (d in prev && d.name != name) {
      NextDocumentsAddsOnlyNew(prev, name, text, d);
    }
    if UniqueNames(prev) {
      UniqueIffCountsAtMostOne(prev);
      forall n ensures CountNamed(next, n) <= 1 {
        NextDocumentsCounts(prev, name, text, n);
      }
      UniqueIffCountsAtMostOne(next);
    }
  }

  // ----- the answer stream, one chunk at a time: handleAsk -----

  /** What a received chunk is taken for: the first test that applies of
      "contains `__ENTRY_ID__`" and "contains `__ERROR__`", else answer text. */
  datatype ChunkKind = EntryChunk | ErrorChunk | TextChunk

  function KindOf(chunk: string): (k: ChunkKind)
    ensures k != TextChunk <==> Contains(chunk, EntryTag) || Contains(chunk, ErrorTag)
  {
    if Contains(chunk, EntryTag) then EntryChunk
    else if Contains(chunk, ErrorTag) then ErrorChunk
    else TextChunk
  }

  /** `parseInt(idMatch[1], 10)` when `/__ENTRY_ID__(\d+)__/` matches. */
  function EntryIdOf(chunk: string): (r: Option<nat>)
    ensures r.Some? <==> HasEntryMarker(chunk)
    ensures r.Some? ==> Contains(chunk, EntryTag)
  {
    match FindEntry(chunk, 0)
    case None => None
    case Some(p) =>
      assert OccursAt(chunk, EntryTag, p);
      Some(DigitsValue(EntryDigits(chunk, p)))
  }

  const UnknownStreamError: string := "An unknown backend streaming error occurred."

  /** The error an error chunk sets: the captured message when
      `/__ERROR__(.*)__/` matches with a non-empty group, else a fixed text. */
  function ErrorOf(chunk: string): (e: string)
    ensures e != []
  {
    match FindError(chunk, 0)
    case Some(m) => if m != [] then "Backend streaming error: " + m else UnknownStreamError
    case None => UnknownStreamError
  }

  /** The loop's variables after some chunks: the answer so far, the entry
      id, the error state and whether an answer was shown yet. */
  datatype Progress = Progress(fullAnswer: string, entryId: Option<nat>, error: string, shown: bool)

  /** One pass of the loop body. */
  function Step(pr: Progress, chunk: string): (r: Progress)
    ensures pr.fullAnswer <= r.fullAnswer
    ensures pr.shown ==> r.shown
    ensures pr.error != [] ==> r.error != []
    ensures pr.entryId.Some? ==> r.entryId.Some?
  {
    match KindOf(chunk)
    case EntryChunk =>
      (match EntryIdOf(chunk)
       case Some(id) => pr.(entryId := Some(id))
       case None => pr)
    case ErrorChunk => pr.(error := ErrorOf(chunk))
    case TextChunk => pr.(fullAnswer := pr.fullAnswer + chunk, shown := true)
  }

  /** The loop over `chunks`, from the state before the first read. */
  function Run(chunks: seq<string>): Progress {
    if chunks == [] then Progress("", None, "", false)
    else Step(Run(chunks[..|chunks| - 1]), chunks[|chunks| - 1])
  }

  /** The chunks classified as answer text, in order. */
  function TextChunks(chunks: seq<string>): seq<string> {
    if chunks == [] then []
    else TextChunks(chunks[..|chunks| - 1])
         + (if KindOf(chunks[|chunks| - 1]) == TextChunk then [chunks[|chunks| - 1]] else [])
  }

  /** The answer object `handleAsk` shows. */
  datatype AnswerView = AnswerView(question: string, answer: string)

  /** The outcome of the history refresh after the stream ended. */
  datatype HistoryFetch = HistoryFailed | HistoryLoaded(entries: seq<HistoryEntry>)
  datatype HistoryEntry = HistoryEntry(question: string, answer: string)

  const SelectFromDocument: string := "Please select some text from the document before asking a question."
  const BackendFailed: string := "Could not get answer from backend."

  class AppState {
    var documents: seq<Doc>
    var selectedText: string
    var isLoading: bool
    var error: string
    var askOpen: bool
    var answer: Option<AnswerView>
    var history: seq<HistoryEntry>

    constructor()
      ensures documents == [] && selectedText == "" && !isLoading && error == ""
      ensures !askOpen && answer == None && history == []
    {
      documents := [];
      selectedText := "";
      isLoading := false;
      error := "";
      askOpen := false;
      answer := None;
      history := [];
    }

    /** `handleFileParsed(text, name)`. */
    method HandleFileParsed(text: string, name: string)
      modifies this
      ensures documents == NextDocuments(old(documents), name, text)
      ensures error == ""
      ensures selectedText == old(selectedText) && isLoading == old(isLoading)
      ensures askOpen == old(askOpen) && answer == old(answer) && history == old(history)
    {
      documents := SortByName(OtherNames(documents, name) + [Doc(name, text)]);
      error := "";
    }

    /** `handleAsk(question)`. `requested` tells whether a request was sent;
        `entryId` is the local variable the loop fills. */
    method HandleAsk(question: string, response: Ask.AskResponse, historyFetch: HistoryFetch)
      returns (requested: bool, entryId: Option<nat>)
      modifies this
      ensures documents == old(documents) && selectedText == old(selectedText)
      ensures requested <==> !IsBlank(old(selectedText))
      ensures !requested ==>
        && error == SelectFromDocument && entryId == None
        && isLoading == old(isLoading) && askOpen == old(askOpen)
        && answer == old(answer) && history == old(history)
      ensures requested ==>
        && !isLoading
        && (!response.Streamed? ==>
              error == BackendFailed && answer == None && entryId == None
              && askOpen == old(askOpen) && history == old(history))
        && (response.Streamed? ==>
              var pr := Run(response.chunks);
              && entryId == pr.entryId
              && answer == (if pr.shown then Some(AnswerView(question, pr.fullAnswer)) else None))
        && (response.Streamed? && response.readFailed ==>
              error == BackendFailed && askOpen == old(askOpen) && history == old(history))
        && (response.Streamed? && !response.readFailed ==>
              && !askOpen
              && (historyFetch.HistoryLoaded? ==>
                    error == Run(response.chunks).error && history == historyFetch.entries)
              && (historyFetch.HistoryFailed? ==> error == BackendFailed && history == old(history)))
    {
      var blank := TrimsToEmpty(selectedText);
      requested := !blank;
      if !requested {
        error := SelectFromDocument;
        entryId := None;
      } else {
        entryId := SendQuestion(question, response, historyFetch);
      }
    }

    /** `handleAsk` past the blank-selection guard: the request, the read
        loop and what follows it. */
    method SendQuestion(question: string, response: Ask.AskResponse, historyFetch: HistoryFetch)
      returns (entryId: Option<nat>)
      modifies this
      ensures documents == old(documents) && selectedText == old(selectedText)
      ensures !isLoading
      ensures !response.Streamed? ==>
        error == BackendFailed && answer == None && entryId == None
        && askOpen == old(askOpen) && history == old(history)
      ensures response.Streamed? ==>
        var pr := Run(response.chunks);
        && entryId == pr.entryId
        && answer == (if pr.shown then Some(AnswerView(question, pr.fullAnswer)) else None)
      ensures response.Streamed? && response.readFailed ==>
        error == BackendFailed && askOpen == old(askOpen) && history == old(history)
      ensures response.Streamed? && !response.readFailed ==>
        && !askOpen
        && (historyFetch.HistoryLoaded? ==>
              error == Run(response.chunks).error && history == historyFetch.entries)
        && (historyFetch.HistoryFailed? ==> error == BackendFailed && history == old(history))
    {
      isLoading := true;
      error := "";
      answer := None;
      entryId := None;
      if !response.Streamed? {
        error := BackendFailed;
        isLoading := false;
        return;
      }
      entryId := ReadChunks(question, response.chunks);
      FinishAsk(response.readFailed, historyFetch);
    }

    /** What `handleAsk` does once the read loop has ended: a failed read
        reports the backend error; a complete one closes the box and
        reloads the history. Loading ends either way. */
    method FinishAsk(readFailed: bool, historyFetch: HistoryFetch)
      modifies this
      ensures documents == old(documents) && selectedText == old(selectedText) && answer == old(answer)
      ensures !isLoading
      ensures readFailed ==>
        error == BackendFailed && askOpen == old(askOpen) && history == old(history)
      ensures !readFailed ==>
        && !askOpen
        && (historyFetch.HistoryLoaded? ==> error == old(error) && history == historyFetch.entries)
        && (historyFetch.HistoryFailed? ==> error == BackendFailed && history == old(history))
    {
      if readFailed {
        error := BackendFailed;
        isLoading := false;
        return;
      }
      isLoading := false;
      askOpen := false;
      match historyFetch {
        case HistoryLoaded(entries) =>
          history := entries;
        case HistoryFailed =>
          error := BackendFailed;
          isLoading := false;
      }
    }

    /** The read loop of `handleAsk`: every chunk is taken for an entry
        chunk, an error chunk or answer text on its own. */
    method ReadChunks(question: string, chunks: seq<string>) returns (entryId: Option<nat>)
      modifies this
      requires error == "" && answer == None
      ensures var pr := Run(chunks);
        && entryId == pr.entryId && error == pr.error
        && answer == (if pr.shown then Some(AnswerView(question, pr.fullAnswer)) else None)
      ensures documents == old(documents) && selectedText == old(selectedText) && isLoading == old(isLoading)
      ensures askOpen == old(askOpen) && history == old(history)
    {
      entryId := None;
      var fullAnswer := "";
      var shown := false;
      for k := 0 to |chunks|
        invariant Run(chunks[..k]) == Progress(fullAnswer, entryId, error, shown)
        invariant answer == (if shown then Some(AnswerView(question, fullAnswer)) else None)
        invariant documents == old(documents) && selectedText == old(selectedText) && isLoading == old(isLoading)
        invariant askOpen == old(askOpen) && history == old(history)
      {
        assert chunks[..k + 1][..k] == chunks[..k];
        assert Run(chunks[..k + 1]) == Step(Run(chunks[..k]), chunks[k]);
        entryId, fullAnswer, shown := TakeChunk(question, chunks[k], entryId, fullAnswer, shown);
      }
      assert chunks[..|chunks|] == chunks;
    }

    /** One pass of the read loop: an entry chunk sets the id when its tag
        parses, an error chunk sets the error, anything else is appended to
        the answer, which is then shown. */
    method TakeChunk(question: string, chunk: string, entryId: Option<nat>, fullAnswer: string, shown: bool)
      returns (entryId': Option<nat>, fullAnswer': string, shown': bool)
      modifies this
      requires answer == (if shown then Some(AnswerView(question, fullAnswer)) else None)
      ensures Progress(fullAnswer', entryId', error, shown')
           == Step(Progress(fullAnswer, entryId, old(error), shown), chunk)
      ensures answer == (if shown' then Some(AnswerView(question, fullAnswer')) else None)
      ensures documents == old(documents) && selectedText == old(selectedText) && isLoading == old(isLoading)
      ensures askOpen == old(askOpen) && history == old(history)
    {
      entryId', fullAnswer', shown' := entryId, fullAnswer, shown;
      if Contains(chunk, EntryTag) {
        assert KindOf(chunk) == EntryChunk;
        var idMatch := FindEntry(chunk, 0);
        if idMatch.Some? {
          entryId' := Some(DigitsValue(EntryDigits(chunk, idMatch.value)));
        }
        return;
      }
      if Contains(chunk, ErrorTag) {
        assert KindOf(chunk) == ErrorChunk;
        var errorMatch := FindError(chunk, 0);
        if errorMatch.Some? && errorMatch.value != [] {
          error := "Backend streaming error: " + errorMatch.value;
        } else {
          error := UnknownStreamError;
        }
        return;
      }
      assert KindOf(chunk) == TextChunk;
      fullAnswer' := fullAnswer' + chunk;
      shown' := true;
      answer := Some(AnswerView(question, fullAnswer'));
    }

    /** `handleTextSelection(text)`. */
    method HandleTextSelection(text: string)
      modifies this
      ensures selectedText == text
      ensures askOpen == !IsBlank(text)
      ensures documents == old(documents) && isLoading == old(isLoading) && error == old(error)
      ensures answer == old(answer) && history == old(history)
    {
      selectedText := text;
      var blank := TrimsToEmpty(text);
      if !blank {
        askOpen := true;
      } else {
        askOpen := false;
      }
    }
  }

  // ----- properties of the per-chunk loop -----

  /** `fullAnswer` is the concatenation of exactly the chunks that hold
      neither marker, in order; the answer is shown once one arrived. */
  lemma {:induction false} FullAnswerIsTextChunks(chunks: seq<string>)
    ensures Run(chunks).fullAnswer == Concat(TextChunks(chunks))
    ensures Run(chunks).shown <==> TextChunks(chunks) != []
    decreases |chunks|
  {
    if chunks != [] {
      var init := chunks[..|chunks| - 1];
      var last := chunks[|chunks| - 1];
      FullAnswerIsTextChunks(init);
      assert Run(chunks) == Step(Run(init), last);
      if KindOf(last) == TextChunk {
        assert TextChunks(chunks) == TextChunks(init) + [last];
        ConcatAppend(TextChunks(init), [last]);
        ConcatSingle(last);
        assert Run(chunks) == Run(init).(fullAnswer := Run(init).fullAnswer + last, shown := true);
        assert |TextChunks(chunks)| > 0;
      } else {
        assert TextChunks(chunks) == TextChunks(init) + [] == TextChunks(init);
        assert Run(chunks).fullAnswer == Run(init).fullAnswer && Run(chunks).shown == Run(init).shown;
      }
    }
  }

  /** No text chunk holds either marker. */
  lemma {:induction false} TextChunksHoldNoMarker(chunks: seq<string>)
    ensures forall i :: 0 <= i < |TextChunks(chunks)| ==>
      !Contains(TextChunks(chunks)[i], EntryTag) && !Contains(TextChunks(chunks)[i], ErrorTag)
    decreases |chunks|
  {
    if chunks != [] {
      TextChunksHoldNoMarker(chunks[..|chunks| - 1]);
    }
  }

  /** The chunk sets the entry id: it was taken for an entry chunk and
      the digit pattern matched in it. */
  predicate SetsEntryId(chunk: string) {
    KindOf(chunk) == EntryChunk && EntryIdOf(chunk).Some?
  }

  /** No chunk after index `i` sets the entry id. */
  predicate NoneSetAfter(chunks: seq<string>, i: int) {
    forall j :: 0 <= j < |chunks| && i < j ==> !SetsEntryId(chunks[j])
  }

  lemma NoneSetAfterExtend(init: seq<string>, last: string, i: int)
    requires NoneSetAfter(init, i) && !SetsEntryId(last)
    ensures NoneSetAfter(init + [last], i)
  {
    var chunks := init + [last];
    forall j | 0 <= j < |chunks| && i < j ensures !SetsEntryId(chunks[j]) {
      if j < |init| {
        assert chunks[j] == init[j];
      } else {
        assert chunks[j] == last;
      }
    }
  }

  lemma StepEntryId(pr: Progress, chunk: string)
    ensures Step(pr, chunk).entryId == if SetsEntryId(chunk) then EntryIdOf(chunk) else pr.entryId
  {
  }

  /** A chunk that does not set the id keeps an earlier setter the last. */
  lemma LastSetterExtends(init: seq<string>, last: string, i: int, id: nat)
    requires 0 <= i < |init| && SetsEntryId(init[i]) && EntryIdOf(init[i]) == Some(id) && NoneSetAfter(init, i)
    requires !SetsEntryId(last)
    ensures var chunks := init + [last];
      0 <= i < |chunks| && SetsEntryId(chunks[i]) && EntryIdOf(chunks[i]) == Some(id) && NoneSetAfter(chunks, i)
  {
    NoneSetAfterExtend(init, last, i);
    assert (init + [last])[i] == init[i];
  }

  /** A chunk that sets the id is the last setter. */
  lemma LastSetterIsLast(init: seq<string>, last: string)
    requires SetsEntryId(last)
    ensures var chunks := init + [last];
      SetsEntryId(chunks[|init|]) && EntryIdOf(chunks[|init|]) == EntryIdOf(last) && NoneSetAfter(chunks, |init|)
  {
    assert (init + [last])[|init|] == last;
  }

  /** The entry id is that of the last chunk that sets it, and stays null
      when no chunk does. */
  lemma {:induction false} EntryIdFromMatchingChunk(chunks: seq<string>)
    ensures Run(chunks).entryId.Some? ==>
      exists i :: 0 <= i < |chunks| && SetsEntryId(chunks[i]) && EntryIdOf(chunks[i]) == Run(chunks).entryId
        && NoneSetAfter(chunks, i)
    ensures Run(chunks).entryId.None? ==> NoneSetAfter(chunks, -1)
    decreases |chunks|
  {
    if chunks != [] {
      var n := |chunks| - 1;
      var init := chunks[..n];
      var last := chunks[n];
      assert init + [last] == chunks;
      EntryIdFromMatchingChunk(init);
      assert Run(chunks) == Step(Run(init), last);
      StepEntryId(Run(init), last);
      if SetsEntryId(last) {
        LastSetterIsLast(init, last);
      } else if Run(init).entryId.Some? {
        var i :| 0 <= i < |init| && SetsEntryId(init[i]) && EntryIdOf(init[i]) == Run(init).entryId
          && NoneSetAfter(init, i);
        LastSetterExtends(init, last, i, Run(init).entryId.value);
      } else {
        NoneSetAfterExtend(init, last, -1);
      }
    }
  }

  lemma StepError(pr: Progress, chunk: string)
    ensures Step(pr, chunk).error != [] <==> pr.error != [] || KindOf(chunk) == ErrorChunk
  {
  }

  /** Some chunk before index `k` was taken for an error chunk. */
  predicate ErrorChunkBefore(chunks: seq<string>, k: int) {
    exists i :: 0 <= i < k && i < |chunks| && KindOf(chunks[i]) == ErrorChunk
  }

  /** An error is reported exactly when some chunk was taken for an error
      chunk. */
  lemma {:induction false} ErrorIffErrorChunk(chunks: seq<string>)
    ensures Run(chunks).error != [] <==> exists i :: 0 <= i < |chunks| && KindOf(chunks[i]) == ErrorChunk
    decreases |chunks|
  {
    if chunks != [] {
      var n := |chunks| - 1;
      var init := chunks[..n];
      var last := chunks[n];
      ErrorIffErrorChunk(init);
      assert Run(chunks) == Step(Run(init), last);
      StepError(Run(init), last);
      assert ErrorChunkBefore(init, n) <==> ErrorChunkBefore(chunks, n) by {
        if ErrorChunkBefore(init, n) {
          var i :| 0 <= i < n && i < |init| && KindOf(init[i]) == ErrorChunk;
          assert chunks[i] == init[i];
        }
        if ErrorChunkBefore(chunks, n) {
          var i :| 0 <= i < n && i < |chunks| && KindOf(chunks[i]) == ErrorChunk;
          assert init[i] == chunks[i];
        }
      }
      assert ErrorChunkBefore(chunks, n + 1) <==> ErrorChunkBefore(chunks, n) || KindOf(last) == ErrorChunk;
    }
  }

  /** A chunk that is exactly one of the backend's error trailers reports
      the backend's message. */
  lemma ErrorTrailerChunk(message: string)
    requires message != []
    requires forall j :: 0 <= j < |message| ==> !IsLineTerminator(message[j])
    requires !Contains(ErrorTrailer(message), EntryTag)
    ensures KindOf(ErrorTrailer(message)) == ErrorChunk
    ensures ErrorOf(ErrorTrailer(message)) == "Backend streaming error: " + message
  {
    var s := ErrorTrailer(message);
    assert OccursAt(s, ErrorTag, 2);
    ErrorTrailerCaptured(message);
  }

  // ----- the two frontends on the same stream -----

  lemma RunAppend(chunks: seq<string>, c: string)
    ensures Run(chunks + [c]) == Step(Run(chunks), c)
  {
    assert (chunks + [c])[..|chunks|] == chunks;
  }

  /** A chunk that is some marker-free text followed by the entry trailer
      is an entry chunk that yields the id. */
  lemma TrailerChunk(a: string, n: nat)
    requires !HasEntryMarker(a)
    ensures KindOf(a + EntryTrailer(n)) == EntryChunk
    ensures EntryIdOf(a + EntryTrailer(n)) == Some(n)
  {
    var t := EntryTrailer(n);
    var e: string := [];
    assert a + t + e == a + t;
    TrailerIsFirstMatch(a, n, e);
    ParsePrinted(n);
    var c := a + t;
    assert c[|a| + 2..|a| + 2 + 12] == EntryTag;
    assert OccursAt(c, EntryTag, |a| + 2);
  }

  lemma {:induction false} AllTextRun(chunks: seq<string>)
    requires forall i :: 0 <= i < |chunks| ==> KindOf(chunks[i]) == TextChunk
    ensures Run(chunks) == Progress(Concat(chunks), None, [], chunks != [])
    decreases |chunks|
  {
    if chunks != [] {
      AllTextRun(chunks[..|chunks| - 1]);
    }
  }

  /** When every piece `stream_generate` yields arrives as a chunk of its
      own and no token mentions a marker, this layout recovers the answer
      and the entry id. */
  lemma SeparateChunksDecode(lines: seq<Ask.StreamLine>, n: nat)
    requires Ask.Tokens(lines) != []
    requires forall i :: 0 <= i < |Ask.Tokens(lines)| ==> KindOf(Ask.Tokens(lines)[i]) == TextChunk
    ensures var pr := Run(Ask.Emitted(lines, None, Ask.Stored(n)));
      pr.fullAnswer == Concat(Ask.Tokens(lines)) && pr.entryId == Some(n) && pr.error == []
  {
    var tokens := Ask.Tokens(lines);
    Ask.AnswerEmptyIffNoToken(lines);
    assert Ask.Emitted(lines, None, Ask.Stored(n)) == tokens + [EntryTrailer(n)];
    AllTextRun(tokens);
    RunAppend(tokens, EntryTrailer(n));
    var e: string := [];
    assert e + EntryTrailer(n) == EntryTrailer(n);
    TrailerChunk(e, n);
  }

  /** A string without the entry tag has no entry marker. */
  lemma NoTagNoMarker(a: string)
    requires !Contains(a, EntryTag)
    ensures !HasEntryMarker(a)
  {
    if HasEntryMarker(a) {
      var p :| 0 <= p <= |a| && EntryMatchAt(a, p);
      assert OccursAt(a, EntryTag, p);
    }
  }

  lemma SplitTrailerRun(a: string, n: nat)
    requires a != [] && KindOf(a) == TextChunk
    ensures Run([a, EntryTrailer(n)]) == Progress(a, Some(n), [], true)
  {
    var t := EntryTrailer(n);
    var e: string := [];
    AllTextRun([a]);
    ConcatSingle(a);
    RunAppend([a], t);
    assert [a] + [t] == [a, t];
    assert e + t == t;
    TrailerChunk(e, n);
  }

  lemma MergedTrailerRun(a: string, n: nat)
    requires KindOf(a) == TextChunk
    ensures Run([a + EntryTrailer(n)]) == Progress([], Some(n), [], false)
  {
    NoTagNoMarker(a);
    TrailerChunk(a, n);
    RunAppend([], a + EntryTrailer(n));
    assert [] + [a + EntryTrailer(n)] == [a + EntryTrailer(n)];
  }

  /** The same body split in two ways: when a text chunk and the entry
      trailer arrive separately, the text is the answer; when they arrive
      in one chunk, the whole chunk is taken for the entry chunk and the
      text is lost, while the buffering layout decodes the same body into
      the trimmed text either way. */
  lemma TrailerSplitVersusMerged(a: string, n: nat)
    requires a != [] && KindOf(a) == TextChunk
    ensures Concat([a, EntryTrailer(n)]) == Concat([a + EntryTrailer(n)])
    ensures Run([a, EntryTrailer(n)]) == Progress(a, Some(n), [], true)
    ensures Run([a + EntryTrailer(n)]) == Progress([], Some(n), [], false)
    ensures GridApp.DecodeBody(Concat([a + EntryTrailer(n)])) == GridApp.Decoded(Trim(a), Some(n))
  {
    var t := EntryTrailer(n);
    SplitTrailerRun(a, n);
    MergedTrailerRun(a, n);
    ConcatSingle(a + t);
    ConcatAppend([a], [t]);
    ConcatSingle(a);
    ConcatSingle(t);
    assert [a] + [t] == [a, t];
    NoTagNoMarker(a);
    GridApp.DecodeRoundTrip(a, n);
  }
}
