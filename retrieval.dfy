/** The keyword retrieval of the backend (synerge-reader-backend/main.py):
    `get_relevant_history` scores stored question/answer rows against the
    new question and selection, `get_relevant_chunks` scores stored document
    chunks by word overlap with the question; both drop zero scores, sort by
    score (highest first, ties in fetch order) and keep the first few. The
    rows are the ones the database query returned. */
module Retrieval {
  import opened Text

  /** One row of `SELECT id, ts, selected_text, question, answer FROM chat_history`. */
  datatype HistoryRow = HistoryRow(id: int, ts: string, selectedText: string, question: string, answer: string)

  /** One row of `SELECT chunk_text, embedding_json FROM document_chunks`. */
  datatype ChunkRow = ChunkRow(chunkText: string, embeddingJson: string)

  /** An item with its relevance score: the history dictionary with its
      `relevance_score`, or the `(chunk_text, overlap_score)` pair. */
  datatype Ranked<T> = Ranked(item: T, score: int)

  // ----- ordering: Python's stable `list.sort(key=score, reverse=True)` -----

  /** Highest score first. */
  predicate NonIncreasing<T>(s: seq<Ranked<T>>) {
    forall i, j :: 0 <= i < j < |s| ==> s[i].score >= s[j].score
  }

  /** The elements that carry score `k`, in order. */
  function WithScore<T>(s: seq<Ranked<T>>, k: int): seq<Ranked<T>> {
    if s == [] then []
    else (if s[0].score == k then [s[0]] else []) + WithScore(s[1..], k)
  }

  /** Places `x` in front of the first element that does not score higher. */
  function InsertByScore<T>(x: Ranked<T>, sorted: seq<Ranked<T>>): seq<Ranked<T>> {
    if sorted == [] || sorted[0].score <= x.score then [x] + sorted
    else [sorted[0]] + InsertByScore(x, sorted[1..])
  }

  lemma {:induction false} InsertByScoreCounts<T>(x: Ranked<T>, sorted: seq<Ranked<T>>)
    ensures multiset(InsertByScore(x, sorted)) == multiset(sorted) + multiset{x}
    decreases |sorted|
  {
    if sorted != [] && sorted[0].score > x.score {
      InsertByScoreCounts(x, sorted[1..]);
      assert sorted == [sorted[0]] + sorted[1..];
    }
  }

  lemma InsertByScoreFacts<T>(x: Ranked<T>, sorted: seq<Ranked<T>>)
    requires NonIncreasing(sorted)
    ensures NonIncreasing(InsertByScore(x, sorted))
    ensures multiset(InsertByScore(x, sorted)) == multiset(sorted) + multiset{x}
  {
    InsertByScoreCounts(x, sorted);
    InsertByScoreSorted(x, sorted);
  }

  /** Inserting below a bound keeps every score below it. */
  lemma {:induction false} InsertByScoreBounded<T>(x: Ranked<T>, s: seq<Ranked<T>>, b: int)
    requires x.score <= b
    requires forall j :: 0 <= j < |s| ==> s[j].score <= b
    ensures forall j :: 0 <= j < |InsertByScore(x, s)| ==> InsertByScore(x, s)[j].score <= b
    decreases |s|
  {
    if s != [] && s[0].score > x.score {
      InsertByScoreBounded(x, s[1..], b);
      var rest := InsertByScore(x, s[1..]);
      var r := [s[0]] + rest;
      forall j | 0 <= j < |r| ensures r[j].score <= b {
        if j > 0 { assert r[j] == rest[j - 1]; }
      }
    } else {
      var r := [x] + s;
      forall j | 0 <= j < |r| ensures r[j].score <= b {
        if j > 0 { assert r[j] == s[j - 1]; }
      }
    }
  }

  lemma {:induction false} InsertByScoreSorted<T>(x: Ranked<T>, sorted: seq<Ranked<T>>)
    requires NonIncreasing(sorted)
    ensures NonIncreasing(InsertByScore(x, sorted))
    decreases |sorted|
  {
    if sorted != [] && sorted[0].score > x.score {
      var tail := sorted[1..];
      assert NonIncreasing(tail) by {
        forall i, j | 0 <= i < j < |tail| ensures tail[i].score >= tail[j].score {
          assert tail[i] == sorted[i + 1] && tail[j] == sorted[j + 1];
        }
      }
      InsertByScoreSorted(x, tail);
      forall j | 0 <= j < |tail| ensures tail[j].score <= sorted[0].score {
        assert tail[j] == sorted[j + 1];
      }
      InsertByScoreBounded(x, tail, sorted[0].score);
      var rest := InsertByScore(x, tail);
      var r := [sorted[0]] + rest;
      forall i, j | 0 <= i < j < |r| ensures r[i].score >= r[j].score {
        assert r[j] == rest[j - 1];
        if i > 0 { assert r[i] == rest[i - 1]; }
      }
    } else {
      var r := [x] + sorted;
      forall i, j | 0 <= i < j < |r| ensures r[i].score >= r[j].score {
        assert r[j] == sorted[j - 1];
        if i > 0 { assert r[i] == sorted[i - 1]; } else { assert sorted[0].score >= sorted[j - 1].score; }
      }
    }
  }

  /** Python's stable sort on the score, reversed: highest score first,
      equal scores in their original order. */
  function SortByScore<T>(s: seq<Ranked<T>>): (r: seq<Ranked<T>>)
    ensures NonIncreasing(r)
    ensures multiset(r) == multiset(s)
  {
    if s == [] then []
    else
      assert s == [s[0]] + s[1..];
      InsertByScoreFacts(s[0], SortByScore(s[1..]));
      InsertByScore(s[0], SortByScore(s[1..]))
  }

  /** Python's slice `s[:limit]`, including a negative `limit`, which drops
      that many elements from the end. */
  function Take<T>(s: seq<T>, limit: int): (r: seq<T>)
    ensures r <= s
    ensures limit >= 0 ==> |r| == if limit < |s| then limit else |s|
  {
    if limit >= 0 then s[..if limit < |s| then limit else |s|]
    else s[..if |s| + limit > 0 then |s| + limit else 0]
  }

  /** What survives sorting and slicing is an element of the input. */
  lemma TakeSortedFrom<T>(s: seq<Ranked<T>>, limit: int)
    ensures var r := Take(SortByScore(s), limit);
      NonIncreasing(r) && forall i :: 0 <= i < |r| ==> r[i] in s
  {
    var sorted := SortByScore(s);
    var r := Take(sorted, limit);
    forall i | 0 <= i < |r| ensures r[i] in s {
      assert r[i] == sorted[i];
      assert sorted[i] in multiset(sorted);
    }
  }

  // ----- get_relevant_history -----

  /** `any(word in hay for word in words)`. */
  predicate AnyWordIn(words: seq<string>, hay: string) {
    exists i | 0 <= i < |words| :: Contains(hay, words[i])
  }

  /** The relevance score of one stored row: +1 when a word of the question
      occurs (as a substring) in the row's question, +2 when a word of the
      selection occurs in the row's selected text; both compared in lower case. */
  function HistoryScore(question: string, selectedText: string, row: HistoryRow): (score: int)
    ensures 0 <= score <= 3
  {
    (if AnyWordIn(Split(ToLower(question)), ToLower(row.question)) then 1 else 0)
    + (if AnyWordIn(Split(ToLower(selectedText)), ToLower(row.selectedText)) then 2 else 0)
  }

  /** The scored rows the loop keeps: those with a positive score, in fetch order. */
  function HistoryCandidates(question: string, selectedText: string, rows: seq<HistoryRow>): seq<Ranked<HistoryRow>> {
    if rows == [] then []
    else
      var row := rows[|rows| - 1];
      var score := HistoryScore(question, selectedText, row);
      HistoryCandidates(question, selectedText, rows[..|rows| - 1])
        + (if score > 0 then [Ranked(row, score)] else [])
  }

  /** `get_relevant_history(question, selected_text, limit)` after the rows were fetched. */
  method GetRelevantHistory(question: string, selectedText: string, rows: seq<HistoryRow>, limit: int)
    returns (result: seq<Ranked<HistoryRow>>)
    ensures result == Take(SortByScore(HistoryCandidates(question, selectedText, rows)), limit)
    ensures forall i :: 0 <= i < |result| ==>
              result[i].item in rows && 0 < result[i].score == HistoryScore(question, selectedText, result[i].item)
    ensures NonIncreasing(result)
    ensures limit >= 0 ==> |result| <= limit
  {
    if rows == [] {
      return [];
    }
    var relevant: seq<Ranked<HistoryRow>> := [];
    for k := 0 to |rows|
      invariant relevant == HistoryCandidates(question, selectedText, rows[..k])
    {
      var row := rows[k];
      var score := 0;
      if AnyWordIn(Split(ToLower(question)), ToLower(row.question)) {
        score := score + 1;
      }
      if AnyWordIn(Split(ToLower(selectedText)), ToLower(row.selectedText)) {
        score := score + 2;
      }
      if score > 0 {
        relevant := relevant + [Ranked(row, score)];
      }
      assert rows[..k + 1][..k] == rows[..k];
    }
    assert rows[..|rows|] == rows;
    result := Take(SortByScore(relevant), limit);
    HistoryCandidatesSound(question, selectedText, rows);
    TakeSortedFrom(relevant, limit);
  }

  /** Every kept row comes from the input and carries its positive score;
      every row with a positive score is kept. */
  lemma {:induction false} HistoryCandidatesSound(question: string, selectedText: string, rows: seq<HistoryRow>)
    ensures forall c :: c in HistoryCandidates(question, selectedText, rows) <==>
              c.item in rows && 0 < c.score == HistoryScore(question, selectedText, c.item)
    decreases |rows|
  {
    if rows != [] {
      var init := rows[..|rows| - 1];
      HistoryCandidatesSound(question, selectedText, init);
      assert rows == init + [rows[|rows| - 1]];
    }
  }

  /** The score is 3, 2, 1 or 0, and positive exactly when a question word
      or a selection word matches. */
  lemma HistoryScoreRange(question: string, selectedText: string, row: HistoryRow)
    ensures 0 <= HistoryScore(question, selectedText, row) <= 3
    ensures HistoryScore(question, selectedText, row) > 0 <==>
              AnyWordIn(Split(ToLower(question)), ToLower(row.question))
              || AnyWordIn(Split(ToLower(selectedText)), ToLower(row.selectedText))
  {
  }

  /** An empty selection contributes nothing to a history score. */
  lemma EmptySelectionScoresQuestionOnly(question: string, row: HistoryRow)
    ensures HistoryScore(question, "", row) <= 1
  {
    assert Split(ToLower("")) == [];
  }

  // ----- get_relevant_chunks -----

  /** `set(s.lower().split())`. */
  function WordSet(s: string): set<string> {
    set w | w in Split(ToLower(s))
  }

  /** `len(question_words.intersection(chunk_words))`. */
  function Overlap(question: string, chunkText: string): (n: nat)
    ensures n <= |WordSet(question)| && n <= |WordSet(chunkText)|
  {
    var q, c := WordSet(question), WordSet(chunkText);
    assert q == (q - c) + (q * c);
    assert c == (c - q) + (q * c);
    |q * c|
  }

  /** The question and the chunk have a lower-cased word in common. */
  predicate SharesWord(question: string, chunkText: string) {
    exists w :: w in WordSet(question) && w in WordSet(chunkText)
  }

  /** A chunk scores above zero exactly when it shares a word with the question. */
  lemma OverlapPositiveIffShared(question: string, chunkText: string)
    ensures Overlap(question, chunkText) > 0 <==> SharesWord(question, chunkText)
  {
    var common := WordSet(question) * WordSet(chunkText);
    if common != {} {
      var w :| w in common;
      assert w in WordSet(question) && w in WordSet(chunkText);
    }
    if SharesWord(question, chunkText) {
      var w :| w in WordSet(question) && w in WordSet(chunkText);
      assert w in common;
      assert |common| >= |{w}|;
    }
  }

  /** The scored chunks the loop keeps: positive overlap, in fetch order. */
  function ChunkCandidates(question: string, rows: seq<ChunkRow>): seq<Ranked<string>> {
    if rows == [] then []
    else
      var text := rows[|rows| - 1].chunkText;
      var score := Overlap(question, text);
      ChunkCandidates(question, rows[..|rows| - 1]) + (if score > 0 then [Ranked(text, score)] else [])
  }

  lemma {:induction false} ChunkCandidatesSound(question: string, rows: seq<ChunkRow>)
    ensures forall c :: c in ChunkCandidates(question, rows) <==>
              (exists r :: r in rows && r.chunkText == c.item) && 0 < c.score == Overlap(question, c.item)
    decreases |rows|
  {
    if rows != [] {
      var init := rows[..|rows| - 1];
      ChunkCandidatesSound(question, init);
      assert rows == init + [rows[|rows| - 1]];
    }
  }

  function Items<T>(s: seq<Ranked<T>>): (r: seq<T>)
    ensures |r| == |s|
  {
    seq(|s|, i requires 0 <= i < |s| => s[i].item)
  }

  /** `get_relevant_chunks(question, top_k)` after the rows were fetched. */
  method GetRelevantChunks(question: string, rows: seq<ChunkRow>, topK: int) returns (result: seq<string>)
    ensures result == Items(Take(SortByScore(ChunkCandidates(question, rows)), topK))
    ensures forall i :: 0 <= i < |result| ==>
              SharesWord(question, result[i]) && exists r :: r in rows && r.chunkText == result[i]
    ensures forall i, j :: 0 <= i < j < |result| ==> Overlap(question, result[i]) >= Overlap(question, result[j])
    ensures topK >= 0 ==> |result| <= topK
  {
    if rows == [] {
      return [];
    }
    var scored := ScoreChunks(question, rows);
    result := Items(Take(SortByScore(scored), topK));
    RelevantChunksFacts(question, rows, topK);
  }

  /** The scoring loop of `get_relevant_chunks`: every row whose text shares
      a word with the question becomes a candidate scored by the overlap. */
  method ScoreChunks(question: string, rows: seq<ChunkRow>) returns (scored: seq<Ranked<string>>)
    ensures scored == ChunkCandidates(question, rows)
  {
    scored := [];
    for k := 0 to |rows|
      invariant scored == ChunkCandidates(question, rows[..k])
    {
      var text := rows[k].chunkText;
      var overlapScore := |WordSet(question) * WordSet(text)|;
      if overlapScore > 0 {
        scored := scored + [Ranked(text, overlapScore)];
      }
      assert rows[..k + 1][..k] == rows[..k];
    }
    assert rows[..|rows|] == rows;
  }

  /** The chunks returned share a word with the question, come from the
      stored rows, are ordered by decreasing overlap and are at most `topK`. */
  lemma RelevantChunksFacts(question: string, rows: seq<ChunkRow>, topK: int)
    ensures var result := Items(Take(SortByScore(ChunkCandidates(question, rows)), topK));
      && (forall i :: 0 <= i < |result| ==>
            SharesWord(question, result[i]) && exists r :: r in rows && r.chunkText == result[i])
      && (forall i, j :: 0 <= i < j < |result| ==> Overlap(question, result[i]) >= Overlap(question, result[j]))
      && (topK >= 0 ==> |result| <= topK)
  {
    var scored := ChunkCandidates(question, rows);
    var top := Take(SortByScore(scored), topK);
    var result := Items(top);
    ChunkCandidatesSound(question, rows);
    TakeSortedFrom(scored, topK);
    forall i | 0 <= i < |result|
      ensures SharesWord(question, result[i]) && exists r :: r in rows && r.chunkText == result[i]
    {
      assert top[i] in scored;
      OverlapPositiveIffShared(question, result[i]);
    }
    forall i, j | 0 <= i < j < |result|
      ensures Overlap(question, result[i]) >= Overlap(question, result[j])
    {
      assert top[i] in scored && top[j] in scored;
    }
  }

  // ----- properties of the ranking -----

  lemma {:induction false} InsertKeepsOtherScores<T>(x: Ranked<T>, sorted: seq<Ranked<T>>, k: int)
    requires NonIncreasing(sorted)
    ensures WithScore(InsertByScore(x, sorted), k)
         == if x.score == k then [x] + WithScore(sorted, k) else WithScore(sorted, k)
    decreases |sorted|
  {
    if sorted == [] || sorted[0].score <= x.score {
      var r := [x] + sorted;
      assert r[0] == x && r[1..] == sorted;
      if x.score == k && sorted != [] && sorted[0].score < k {
        WithScoreBelow(sorted, k);
      }
    } else {
      InsertKeepsOtherScores(x, sorted[1..], k);
      var r := [sorted[0]] + InsertByScore(x, sorted[1..]);
      assert r[0] == sorted[0] && r[1..] == InsertByScore(x, sorted[1..]);
    }
  }

  lemma {:induction false} WithScoreBelow<T>(sorted: seq<Ranked<T>>, k: int)
    requires NonIncreasing(sorted)
    requires sorted != [] && sorted[0].score < k
    ensures WithScore(sorted, k) == []
    decreases |sorted|
  {
    if |sorted| > 1 {
      WithScoreBelow(sorted[1..], k);
    }
  }

  /** The sort is stable: the elements of any one score appear in the same
      order before and after sorting. */
  lemma {:induction false} SortIsStable<T>(s: seq<Ranked<T>>, k: int)
    ensures WithScore(SortByScore(s), k) == WithScore(s, k)
    decreases |s|
  {
    if s != [] {
      SortIsStable(s[1..], k);
      InsertKeepsOtherScores(s[0], SortByScore(s[1..]), k);
    }
  }

  /** Top-k: every position of the sorted list cut by the limit scores no
      higher than any position kept, so duplicates cut off are covered too;
      in particular no candidate left out outscores one kept. */
  lemma TakeKeepsTheBest<T>(s: seq<Ranked<T>>, limit: int)
    ensures var sorted := SortByScore(s);
      var r := Take(sorted, limit);
      forall i, j :: 0 <= i < |r| <= j < |sorted| ==> r[i].score >= sorted[j].score
    ensures var r := Take(SortByScore(s), limit);
      forall x, i :: x in s && x !in r && 0 <= i < |r| ==> r[i].score >= x.score
  {
    var sorted := SortByScore(s);
    var r := Take(sorted, limit);
    forall i, j | 0 <= i < |r| <= j < |sorted| ensures r[i].score >= sorted[j].score {
      assert r[i] == sorted[i];
    }
    forall m | 0 <= m < |r| ensures sorted[m] in r {
      assert r[m] == sorted[m];
    }
    forall x, i | x in s && x !in r && 0 <= i < |r| ensures r[i].score >= x.score {
      assert x in multiset(sorted);
      var j :| 0 <= j < |sorted| && sorted[j] == x;
    }
  }
}
