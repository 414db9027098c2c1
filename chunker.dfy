/** `chunk_text` of the backend (synerge-reader-backend/main.py): a greedy
    packer that splits a document into whitespace-separated words and packs
    consecutive words, joined by single spaces, into chunks of at most
    `max_chunk_size` characters. A word longer than the budget gets a chunk
    of its own. */
module Chunker {
  import opened Text

  /** `sum(len(w) for w in ws)`. */
  function SumLengths(ws: seq<string>): nat {
    if ws == [] then 0 else SumLengths(ws[..|ws| - 1]) + |ws[|ws| - 1]|
  }

  /** The backend's `current_size`: the length of `" ".join(ws)`, computed as
      the total word length plus one space between neighbours; -1 for no words. */
  function CurrentSize(ws: seq<string>): int {
    SumLengths(ws) + |ws| - 1
  }

  /** The packing test: `current_size + len(word) + 1 <= max_chunk_size`. */
  predicate Fits(current: seq<string>, word: string, maxChunkSize: int) {
    CurrentSize(current) + |word| + 1 <= maxChunkSize
  }

  /** The groups of words the packing loop produces, continuing from the
      words `current` already gathered for the open chunk with `rest` still
      to come. */
  function Pack(current: seq<string>, rest: seq<string>, maxChunkSize: int): (groups: seq<seq<string>>)
    ensures forall i :: 0 <= i < |groups| ==> groups[i] != []
    decreases |rest|
  {
    if rest == [] then
      (if current == [] then [] else [current])
    else if Fits(current, rest[0], maxChunkSize) then
      Pack(current + [rest[0]], rest[1..], maxChunkSize)
    else
      (if current == [] then [] else [current]) + Pack([rest[0]], rest[1..], maxChunkSize)
  }

  /** Each group rendered as `" ".join(group)`. */
  function JoinAll(groups: seq<seq<string>>): (chunks: seq<string>)
    ensures |chunks| == |groups|
  {
    seq(|groups|, i requires 0 <= i < |groups| => Join(groups[i], " "))
  }

  function Flatten(groups: seq<seq<string>>): seq<string> {
    if groups == [] then [] else groups[0] + Flatten(groups[1..])
  }

  /** The words of every chunk, chunk after chunk. */
  function WordsOf(chunks: seq<string>): seq<string> {
    if chunks == [] then [] else Split(chunks[0]) + WordsOf(chunks[1..])
  }

  /** The size bound a closed chunk keeps: at most the budget, unless it is a
      single word. */
  predicate WithinBudget(group: seq<string>, maxChunkSize: int) {
    |group| <= 1 || CurrentSize(group) <= maxChunkSize
  }

  /** A chunk was closed only because the next word did not fit. */
  predicate Greedy(groups: seq<seq<string>>, maxChunkSize: int)
    requires forall i :: 0 <= i < |groups| ==> groups[i] != []
  {
    forall i :: 0 <= i < |groups| - 1 ==> !Fits(groups[i], groups[i + 1][0], maxChunkSize)
  }

  /** The greedy rule stated on chunk strings: `chunk` was closed because
      adding a space and the first word of `next` would exceed the budget. */
  predicate ClosedBeforeNext(chunk: string, next: string, maxChunkSize: int) {
    Split(next) != [] && |chunk| + 1 + |Split(next)[0]| > maxChunkSize
  }

  /** `chunk_text(text, max_chunk_size)`. */
  method ChunkText(text: string, maxChunkSize: int) returns (chunks: seq<string>)
    ensures chunks == JoinAll(Pack([], Split(text), maxChunkSize))
    ensures IsBlank(text) ==> chunks == []
    ensures WordsOf(chunks) == Split(text)
    ensures forall i :: 0 <= i < |chunks| ==> chunks[i] != []
    ensures forall i :: 0 <= i < |chunks| ==> |chunks[i]| <= maxChunkSize || IsWord(chunks[i])
    ensures forall i :: 0 <= i < |chunks| - 1 ==> ClosedBeforeNext(chunks[i], chunks[i + 1], maxChunkSize)
  {
    TrimEmptyIffBlank(text);
    if text == [] || Trim(text) == [] {
      SplitEmptyIffBlank(text);
      ChunksOfText(text, maxChunkSize);
      return [];
    }
    chunks := PackWords(Split(text), maxChunkSize);
    ChunksOfText(text, maxChunkSize);
  }

  /** The packing loop of `chunk_text` over the words of the text. */
  method PackWords(words: seq<string>, maxChunkSize: int) returns (chunks: seq<string>)
    ensures chunks == JoinAll(Pack([], words, maxChunkSize))
  {
    chunks := [];
    var current: seq<string> := [];
    ghost var groups: seq<seq<string>> := [];
    for k := 0 to |words|
      invariant chunks == JoinAll(groups)
      invariant groups + Pack(current, words[k..], maxChunkSize) == Pack([], words, maxChunkSize)
    {
      var word := words[k];
      var currentSize := SumLengths(current) + |current| - 1;
      PackUnfold(current, words, k, maxChunkSize);
      if currentSize + |word| + 1 <= maxChunkSize {
        current := current + [word];
      } else {
        ghost var later := Pack([word], words[k + 1..], maxChunkSize);
        if current != [] {
          JoinAllAppend(groups, current);
          chunks := chunks + [Join(current, " ")];
          AppendAssoc(groups, [current], later);
          groups := groups + [current];
        } else {
          assert [] + later == later;
        }
        current := [word];
      }
    }
    assert words[|words|..] == [];
    if current != [] {
      JoinAllAppend(groups, current);
      chunks := chunks + [Join(current, " ")];
      groups := groups + [current];
    } else {
      assert groups + [] == groups;
    }
  }

  /** One step of the packing loop. */
  lemma PackUnfold(current: seq<string>, words: seq<string>, k: int, maxChunkSize: int)
    requires 0 <= k < |words|
    ensures Pack(current, words[k..], maxChunkSize)
      == if Fits(current, words[k], maxChunkSize) then Pack(current + [words[k]], words[k + 1..], maxChunkSize)
         else (if current == [] then [] else [current]) + Pack([words[k]], words[k + 1..], maxChunkSize)
  {
    assert words[k..][0] == words[k];
    assert words[k..][1..] == words[k + 1..];
  }

  lemma JoinAllAppend(groups: seq<seq<string>>, g: seq<string>)
    ensures JoinAll(groups + [g]) == JoinAll(groups) + [Join(g, " ")]
  {
  }

  // ----- properties of the packing -----

  /** Packing neither loses, duplicates nor reorders a word. */
  lemma {:induction false} PackFlattens(current: seq<string>, rest: seq<string>, maxChunkSize: int)
    ensures Flatten(Pack(current, rest, maxChunkSize)) == current + rest
    decreases |rest|
  {
    if rest == [] {
      if current != [] {
        assert Flatten([current]) == current + Flatten([]);
      }
    } else if Fits(current, rest[0], maxChunkSize) {
      PackFlattens(current + [rest[0]], rest[1..], maxChunkSize);
      assert current + [rest[0]] + rest[1..] == current + rest;
    } else {
      var tail := Pack([rest[0]], rest[1..], maxChunkSize);
      PackFlattens([rest[0]], rest[1..], maxChunkSize);
      assert [rest[0]] + rest[1..] == rest;
      if current != [] {
        var gs := [current] + tail;
        assert gs[0] == current && gs[1..] == tail;
        assert Flatten(gs) == current + Flatten(tail);
      } else {
        assert Pack(current, rest, maxChunkSize) == [] + tail == tail;
        assert current + rest == rest;
      }
    }
  }

  /** Every group is non-empty, consists of words when the input does, and
      keeps the size bound; consecutive groups meet the greedy rule. */
  lemma {:induction false} PackShape(current: seq<string>, rest: seq<string>, maxChunkSize: int)
    requires AllWords(current) && AllWords(rest)
    requires WithinBudget(current, maxChunkSize)
    ensures var gs := Pack(current, rest, maxChunkSize);
      && (forall i :: 0 <= i < |gs| ==> gs[i] != [] && AllWords(gs[i]) && WithinBudget(gs[i], maxChunkSize))
      && Greedy(gs, maxChunkSize)
      && (current != [] ==> gs != [] && current <= gs[0])
    decreases |rest|
  {
    if rest == [] {
    } else if Fits(current, rest[0], maxChunkSize) {
      var next := current + [rest[0]];
      assert next[..|next| - 1] == current;
      PackShape(next, rest[1..], maxChunkSize);
    } else {
      PackShape([rest[0]], rest[1..], maxChunkSize);
      var tail := Pack([rest[0]], rest[1..], maxChunkSize);
      if current != [] {
        var gs := [current] + tail;
        assert tail[0][0] == rest[0];
        forall i | 0 <= i < |gs| - 1 ensures !Fits(gs[i], gs[i + 1][0], maxChunkSize) {
          if i > 0 { assert gs[i] == tail[i - 1] && gs[i + 1] == tail[i]; }
        }
      }
    }
  }

  // ----- from groups of words to chunk strings -----

  lemma {:induction false} SumLengthsAppend(ws: seq<string>, w: string)
    ensures SumLengths(ws + [w]) == SumLengths(ws) + |w|
  {
    assert (ws + [w])[..|ws|] == ws;
  }

  lemma {:induction false} SumLengthsCons(w: string, ws: seq<string>)
    ensures SumLengths([w] + ws) == |w| + SumLengths(ws)
    decreases |ws|
  {
    if ws == [] {
      assert [w] + ws == [w];
      assert [w][..0] == [];
    } else {
      var init := ws[..|ws| - 1];
      assert ([w] + ws)[..|ws|] == [w] + init;
      SumLengthsCons(w, init);
    }
  }

  /** The computed `current_size` is the length of the joined chunk. */
  lemma {:induction false} JoinedLength(ws: seq<string>)
    requires ws != []
    ensures |Join(ws, " ")| == CurrentSize(ws)
    decreases |ws|
  {
    if |ws| == 1 {
      assert ws[..0] == [];
      assert SumLengths(ws) == |ws[0]|;
      assert Join(ws, " ") == ws[0];
    } else {
      JoinedLength(ws[1..]);
      assert ws == [ws[0]] + ws[1..];
      SumLengthsCons(ws[0], ws[1..]);
    }
  }

  lemma {:induction false} WordsOfJoinAll(groups: seq<seq<string>>)
    requires forall i :: 0 <= i < |groups| ==> AllWords(groups[i])
    ensures WordsOf(JoinAll(groups)) == Flatten(groups)
    decreases |groups|
  {
    if groups != [] {
      SplitJoin(groups[0]);
      assert JoinAll(groups)[1..] == JoinAll(groups[1..]);
      WordsOfJoinAll(groups[1..]);
    }
  }

  /** The chunk-level guarantees of `chunk_text`, derived from the packing. */
  lemma ChunksOfText(text: string, maxChunkSize: int)
    ensures var chunks := JoinAll(Pack([], Split(text), maxChunkSize));
      && (IsBlank(text) ==> chunks == [])
      && WordsOf(chunks) == Split(text)
      && (forall i :: 0 <= i < |chunks| ==> chunks[i] != [])
      && (forall i :: 0 <= i < |chunks| ==> |chunks[i]| <= maxChunkSize || IsWord(chunks[i]))
      && (forall i :: 0 <= i < |chunks| - 1 ==> ClosedBeforeNext(chunks[i], chunks[i + 1], maxChunkSize))
  {
    var words := Split(text);
    var groups := Pack([], words, maxChunkSize);
    var chunks := JoinAll(groups);
    SplitEmptyIffBlank(text);
    PackShape([], words, maxChunkSize);
    PackFlattens([], words, maxChunkSize);
    WordsOfJoinAll(groups);
    assert [] + words == words;
    forall i | 0 <= i < |chunks|
      ensures chunks[i] != [] && (|chunks[i]| <= maxChunkSize || IsWord(chunks[i]))
    {
      JoinedLength(groups[i]);
      if |groups[i]| == 1 {
        assert chunks[i] == groups[i][0];
      }
    }
    forall i | 0 <= i < |chunks| - 1
      ensures ClosedBeforeNext(chunks[i], chunks[i + 1], maxChunkSize)
    {
      JoinedLength(groups[i]);
      SplitJoin(groups[i + 1]);
    }
  }
}
