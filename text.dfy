/** String operations the backend (Python `str`) and the frontend (JavaScript
    `String`) rely on, restricted to what the model needs: an ASCII whitespace
    class, ASCII lower-casing, whitespace splitting, trimming, joining,
    concatenation and substring search. */
module Text {

  datatype Option<T> = None | Some(value: T)

  /** Whitespace as both Python's `split()`/`strip()` and JavaScript's `trim()`
      treat it, restricted to ASCII: space, tab, line feed, carriage return,
      vertical tab and form feed. */
  predicate IsSpace(c: char) {
    c == ' ' || c == '\t' || c == '\n' || c == '\r' || c == '\U{000B}' || c == '\U{000C}'
  }

  /** True when `s` holds only whitespace (so `s.strip()` is empty). */
  predicate IsBlank(s: string) {
    forall i :: 0 <= i < |s| ==> IsSpace(s[i])
  }

  /** A word as `split()` produces it: non-empty, no whitespace. */
  predicate IsWord(w: string) {
    w != [] && forall i :: 0 <= i < |w| ==> !IsSpace(w[i])
  }

  predicate AllWords(ws: seq<string>) {
    forall i :: 0 <= i < |ws| ==> IsWord(ws[i])
  }

  /** ASCII lower-casing of one character. */
  function LowerChar(c: char): char {
    if 'A' <= c <= 'Z' then (c as int - 'A' as int + 'a' as int) as char else c
  }

  /** `s.lower()` / `s.toLowerCase()` on ASCII letters; other characters are kept. */
  function ToLower(s: string): (r: string)
    ensures |r| == |s|
    ensures forall i :: 0 <= i < |s| ==> r[i] == LowerChar(s[i])
  {
    if s == [] then [] else [LowerChar(s[0])] + ToLower(s[1..])
  }

  /** Length of the run of non-whitespace characters at the start of `s`. */
  function WordLength(s: string): (n: nat)
    ensures n <= |s|
    ensures forall i :: 0 <= i < n ==> !IsSpace(s[i])
    ensures n < |s| ==> IsSpace(s[n])
  {
    if s == [] || IsSpace(s[0]) then 0 else 1 + WordLength(s[1..])
  }

  /** Python's `s.split()` with no separator: the maximal runs of
      non-whitespace characters, in order. */
  function Split(s: string): (ws: seq<string>)
    ensures AllWords(ws)
    decreases |s|
  {
    if s == [] then []
    else if IsSpace(s[0]) then Split(s[1..])
    else
      var n := WordLength(s);
      [s[..n]] + Split(s[n..])
  }

  /** `sep.join(ws)` / `ws.join(sep)`. */
  function Join(ws: seq<string>, sep: string): string {
    if ws == [] then ""
    else if |ws| == 1 then ws[0]
    else ws[0] + sep + Join(ws[1..], sep)
  }

  /** `"".join(ss)`: the strings one after another. */
  function Concat(ss: seq<string>): string {
    if ss == [] then "" else Concat(ss[..|ss| - 1]) + ss[|ss| - 1]
  }

  /** The result of removing leading whitespace. */
  function TrimStart(s: string): (r: string)
    ensures r == [] || !IsSpace(r[0])
    ensures |r| <= |s| && r == s[|s| - |r|..]
  {
    if s != [] && IsSpace(s[0]) then TrimStart(s[1..]) else s
  }

  /** The result of removing trailing whitespace. */
  function TrimEnd(s: string): (r: string)
    ensures r == [] || !IsSpace(r[|r| - 1])
    ensures |r| <= |s| && r == s[..|r|]
  {
    if s != [] && IsSpace(s[|s| - 1]) then TrimEnd(s[..|s| - 1]) else s
  }

  /** Python's `s.strip()` and JavaScript's `s.trim()`. */
  function Trim(s: string): string {
    TrimStart(TrimEnd(s))
  }

  /** `needle` occurs in `hay` starting at index `i`. */
  predicate OccursAt(hay: string, needle: string, i: int) {
    0 <= i && i + |needle| <= |hay| && hay[i..i + |needle|] == needle
  }

  /** `needle in hay` (Python) / `hay.includes(needle)` (JavaScript). */
  predicate Contains(hay: string, needle: string) {
    exists i | 0 <= i <= |hay| - |needle| :: OccursAt(hay, needle, i)
  }

  // ----- lemmas -----

  lemma {:induction false} ConcatAppend(a: seq<string>, b: seq<string>)
    ensures Concat(a + b) == Concat(a) + Concat(b)
    decreases |b|
  {
    if b == [] {
      assert a + b == a;
    } else {
      var init, last := b[..|b| - 1], b[|b| - 1];
      assert (a + b)[..|a + b| - 1] == a + init && (a + b)[|a + b| - 1] == last;
      assert Concat(a + b) == Concat(a + init) + last;
      ConcatAppend(a, init);
      AppendAssoc(Concat(a), Concat(init), last);
    }
  }

  lemma ConcatSingle(s: string)
    ensures Concat([s]) == s
  {
    assert [s][..0] == [];
  }

  /** A word followed by nothing or by whitespace splits off as one item. */
  lemma {:induction false} SplitWordPrefix(w: string, rest: string)
    requires IsWord(w)
    requires rest == [] || IsSpace(rest[0])
    ensures Split(w + rest) == [w] + Split(rest)
  {
    WordLengthOfWord(w, rest);
    assert (w + rest)[..|w|] == w;
    assert (w + rest)[|w|..] == rest;
  }

  lemma {:induction false} WordLengthOfWord(w: string, rest: string)
    requires forall i :: 0 <= i < |w| ==> !IsSpace(w[i])
    requires rest == [] || IsSpace(rest[0])
    ensures WordLength(w + rest) == |w|
    decreases |w|
  {
    if w != [] {
      assert (w + rest)[1..] == w[1..] + rest;
      WordLengthOfWord(w[1..], rest);
    } else {
      assert w + rest == rest;
    }
  }

  /** Joining words with single spaces and splitting again gives the words
      back: no word is lost, duplicated or reordered. */
  lemma {:induction false} SplitJoin(ws: seq<string>)
    requires AllWords(ws)
    ensures Split(Join(ws, " ")) == ws
    decreases |ws|
  {
    if ws == [] {
    } else if |ws| == 1 {
      SplitWordPrefix(ws[0], "");
      assert ws[0] + "" == ws[0];
    } else {
      var rest := Join(ws[1..], " ");
      assert ws[0] + " " + rest == ws[0] + (" " + rest);
      SplitWordPrefix(ws[0], " " + rest);
      assert (" " + rest)[1..] == rest;
      SplitJoin(ws[1..]);
      assert ws == [ws[0]] + ws[1..];
    }
  }

  /** `s.split()` is empty exactly when `s` is blank. */
  lemma {:induction false} SplitEmptyIffBlank(s: string)
    ensures Split(s) == [] <==> IsBlank(s)
    decreases |s|
  {
    if s != [] && IsSpace(s[0]) {
      SplitEmptyIffBlank(s[1..]);
      if IsBlank(s[1..]) {
        forall i | 0 <= i < |s| ensures IsSpace(s[i]) {
          if i > 0 { assert s[i] == s[1..][i - 1]; }
        }
      }
    }
  }

  /** Trimming gives the empty string exactly for blank input. */
  lemma {:induction false} TrimEmptyIffBlank(s: string)
    ensures Trim(s) == [] <==> IsBlank(s)
  {
    TrimEndEmptyIffBlank(s);
    var e := TrimEnd(s);
    if e != [] {
      assert !IsSpace(e[|e| - 1]);
      TrimStartKeepsLast(e);
    }
  }
  /** The guard `!s.trim()` (JavaScript) / `not s.strip()` (Python): trims
      and tests for the empty string, which happens exactly for blank input. */
  method TrimsToEmpty(s: string) returns (empty: bool)
    ensures empty <==> IsBlank(s)
  {
    TrimEmptyIffBlank(s);
    empty := Trim(s) == [];
  }


  lemma {:induction false} TrimEndEmptyIffBlank(s: string)
    ensures TrimEnd(s) == [] <==> IsBlank(s)
    decreases |s|
  {
    if s != [] && IsSpace(s[|s| - 1]) {
      TrimEndEmptyIffBlank(s[..|s| - 1]);
      if IsBlank(s[..|s| - 1]) {
        forall i | 0 <= i < |s| ensures IsSpace(s[i]) {
          if i < |s| - 1 { assert s[i] == s[..|s| - 1][i]; }
        }
      }
    }
  }

  lemma {:induction false} TrimStartKeepsLast(s: string)
    requires s != [] && !IsSpace(s[|s| - 1])
    ensures TrimStart(s) != []
    decreases |s|
  {
    if IsSpace(s[0]) {
      assert |s| > 1;
      assert s[1..][|s[1..]| - 1] == s[|s| - 1];
      TrimStartKeepsLast(s[1..]);
    }
  }

  /** Trailing whitespace added to a string does not survive trimming. */
  lemma {:induction false} TrimEndAppendBlank(a: string, w: string)
    requires IsBlank(w)
    ensures TrimEnd(a + w) == TrimEnd(a)
    decreases |w|
  {
    if w == [] {
      assert a + w == a;
    } else {
      assert (a + w)[..|a + w| - 1] == a + w[..|w| - 1];
      TrimEndAppendBlank(a, w[..|w| - 1]);
    }
  }

  lemma {:induction false} TrimAppendBlank(a: string, w: string)
    requires IsBlank(w)
    ensures Trim(a + w) == Trim(a)
  {
    TrimEndAppendBlank(a, w);
  }

  /** A trimmed string has no whitespace at either end. */
  lemma {:induction false} TrimHasNoOuterSpace(s: string)
    ensures Trim(s) == [] || (!IsSpace(Trim(s)[0]) && !IsSpace(Trim(s)[|Trim(s)| - 1]))
  {
    var e := TrimEnd(s);
    var r := TrimStart(e);
    if r != [] {
      assert r == e[|e| - |r|..];
      assert r[|r| - 1] == e[|e| - 1];
    }
  }

  /** Trimming the end of `a + b` stops inside `b` when `b` is not blank. */
  lemma {:induction false} TrimEndAppendNonBlank(a: string, b: string)
    requires !IsBlank(b)
    ensures TrimEnd(a + b) == a + TrimEnd(b)
    decreases |b|
  {
    if IsSpace(b[|b| - 1]) {
      var b' := b[..|b| - 1];
      assert (a + b)[..|a + b| - 1] == a + b';
      assert !IsBlank(b') by {
        var i :| 0 <= i < |b| && !IsSpace(b[i]);
        assert b'[i] == b[i];
      }
      TrimEndAppendNonBlank(a, b');
    }
  }

  /** `s.endswith(t)`. */
  predicate EndsWith(s: string, t: string) {
    |t| <= |s| && s[|s| - |t|..] == t
  }

  /** Whatever precedes a non-blank `b`, the trimmed `a + b` ends with the
      trimmed `b`. */
  lemma TrimEndsWithTrimmed(a: string, b: string)
    requires !IsBlank(b)
    ensures EndsWith(Trim(a + b), Trim(b))
  {
    var e := TrimEnd(b);
    TrimEndAppendNonBlank(a, b);
    TrimEndEmptyIffBlank(b);
    TrimStartKeepsLast(e);
    TrimStartAppendEndsWith(a, e);
  }

  /** Whatever precedes `e`, trimming the start of the whole keeps the
      trimmed `e` at the end, as long as that is not empty. */
  lemma TrimStartAppendEndsWith(x: string, e: string)
    requires TrimStart(e) != []
    ensures EndsWith(TrimStart(x + e), TrimStart(e))
  {
    var t := TrimStart(e);
    assert EndsWith(e, t);
    if IsBlank(x) {
      TrimStartAppendBlank(x, e);
      assert t[|t| - |t|..] == t;
    } else {
      TrimStartAppendNonBlank(x, e);
      EndsWithAppend(TrimStart(x), e, t);
    }
  }

  /** Concatenation regroups freely. */
  lemma AppendAssoc<T>(a: seq<T>, b: seq<T>, c: seq<T>)
    ensures a + b + c == a + (b + c)
  {
  }

  lemma EndsWithAppend(p: string, e: string, t: string)
    requires EndsWith(e, t)
    ensures EndsWith(p + e, t)
  {
    assert (p + e)[|p + e| - |t|..] == e[|e| - |t|..];
  }

  /** Leading whitespace added to a string does not survive trimming the start. */
  lemma {:induction false} TrimStartAppendBlank(a: string, b: string)
    requires IsBlank(a)
    ensures TrimStart(a + b) == TrimStart(b)
    decreases |a|
  {
    if a == [] {
      assert a + b == b;
    } else {
      var s := a + b;
      assert s[0] == a[0];
      assert s[1..] == a[1..] + b;
      assert IsBlank(a[1..]) by {
        forall i | 0 <= i < |a[1..]| ensures IsSpace(a[1..][i]) {
          assert a[1..][i] == a[i + 1];
        }
      }
      TrimStartAppendBlank(a[1..], b);
    }
  }

  /** Trimming the start of `a + b` stops inside `a` when `a` is not blank. */
  lemma {:induction false} TrimStartAppendNonBlank(a: string, b: string)
    requires !IsBlank(a)
    ensures TrimStart(a + b) == TrimStart(a) + b
    decreases |a|
  {
    var s := a + b;
    assert s[0] == a[0];
    if IsSpace(a[0]) {
      var a' := a[1..];
      assert s[1..] == a' + b;
      assert !IsBlank(a') by {
        var i :| 0 <= i < |a| && !IsSpace(a[i]);
        assert a'[i - 1] == a[i];
      }
      assert TrimStart(s) == TrimStart(a' + b);
      assert TrimStart(a) == TrimStart(a');
      TrimStartAppendNonBlank(a', b);
    } else {
      assert TrimStart(s) == s;
      assert TrimStart(a) == a;
    }
  }

  /** An occurrence survives text added in front of it, shifted by that text. */
  lemma OccursAfterPrefix(p: string, hay: string, needle: string, i: int)
    requires OccursAt(hay, needle, i)
    ensures OccursAt(p + hay, needle, |p| + i)
  {
    assert (p + hay)[|p| + i..|p| + i + |needle|] == hay[i..i + |needle|];
  }

  /** A joined string starts with its first piece. */
  lemma JoinStartsWithFirst(ws: seq<string>, sep: string)
    requires ws != []
    ensures ws[0] <= Join(ws, sep)
  {
    if |ws| > 1 {
      assert Join(ws, sep) == ws[0] + (sep + Join(ws[1..], sep));
    }
  }

  /** `sep.join(ws)` contains every piece of `ws`. */
  lemma {:induction false} JoinHasEach(ws: seq<string>, sep: string, k: nat)
    requires k < |ws|
    ensures Contains(Join(ws, sep), ws[k])
    decreases |ws|
  {
    var j := Join(ws, sep);
    if k == 0 {
      JoinStartsWithFirst(ws, sep);
      assert j[..|ws[0]|] == ws[0];
      assert OccursAt(j, ws[0], 0);
    } else {
      var rest := Join(ws[1..], sep);
      assert j == (ws[0] + sep) + rest;
      assert ws[1..][k - 1] == ws[k];
      JoinHasEach(ws[1..], sep, k - 1);
      var q :| 0 <= q <= |rest| - |ws[k]| && OccursAt(rest, ws[k], q);
      OccursAfterPrefix(ws[0] + sep, rest, ws[k], q);
    }
  }
}
