/** The in-band markers of the answer stream. The backend's `stream_generate`
    (synerge-reader-backend/main.py) appends `"\n\n__ENTRY_ID__<id>__"` once the
    answer was stored, or `"\n\n__ERROR__<message>__"` on a failure; the
    frontends look for them with the regular expressions
    `/__ENTRY_ID__(\d+)__/` and `/__ERROR__(.*)__/`, which are modelled here
    as leftmost-match functions. */
module Markers {
  import opened Text
  import opened Decimal

  const EntryTag: string := "__ENTRY_ID__"
  const ErrorTag: string := "__ERROR__"
  const Close: string := "__"

  /** `f"\n\n__ENTRY_ID__{entry_id}__"`. */
  function EntryTrailer(id: nat): (t: string)
    ensures OccursAt(t, EntryTag, 2)
    ensures t[|t| - 2..] == Close
  {
    "\n\n" + EntryTag + NatToString(id) + Close
  }

  /** `f"\n\n__ERROR__{message}__"`. */
  function ErrorTrailer(message: string): (t: string)
    ensures OccursAt(t, ErrorTag, 2)
    ensures t[|t| - 2..] == Close
  {
    "\n\n" + ErrorTag + message + Close
  }

  // ----- /__ENTRY_ID__(\d+)__/ -----

  /** Length of the run of digits that starts at index `i`. */
  function DigitRun(s: string, i: nat): (n: nat)
    requires i <= |s|
    ensures i + n <= |s|
    ensures forall j :: i <= j < i + n ==> IsDigit(s[j])
    ensures i + n < |s| ==> !IsDigit(s[i + n])
    decreases |s| - i
  {
    if i < |s| && IsDigit(s[i]) then 1 + DigitRun(s, i + 1) else 0
  }

  /** The regular expression matches at `p` with `\d+` taking `k` digits. */
  predicate RegexEntryMatch(s: string, p: nat, k: nat) {
    && p + 12 + k + 2 <= |s|
    && s[p..p + 12] == EntryTag
    && k > 0 && (forall j :: p + 12 <= j < p + 12 + k ==> IsDigit(s[j]))
    && s[p + 12 + k..p + 12 + k + 2] == Close
  }

  /** `/__ENTRY_ID__(\d+)__/` matches at `p`. As `_` is not a digit, `\d+`
      must take the whole run of digits, so the run is followed by `__`. */
  predicate EntryMatchAt(s: string, p: nat) {
    && p + 12 <= |s|
    && s[p..p + 12] == EntryTag
    && var k := DigitRun(s, p + 12);
       k > 0 && p + 12 + k + 2 <= |s| && s[p + 12 + k..p + 12 + k + 2] == Close
  }

  /** The captured group `(\d+)` of a match at `p`. */
  function EntryDigits(s: string, p: nat): (d: string)
    requires EntryMatchAt(s, p)
    ensures d != [] && AllDigits(d)
  {
    s[p + 12..p + 12 + DigitRun(s, p + 12)]
  }

  /** Index just past a match at `p`. */
  function EntryMatchEnd(s: string, p: nat): (e: nat)
    requires EntryMatchAt(s, p)
    ensures p < e <= |s|
  {
    p + 12 + DigitRun(s, p + 12) + 2
  }

  predicate HasEntryMarker(s: string) {
    exists p | 0 <= p <= |s| :: EntryMatchAt(s, p)
  }

  /** The leftmost match at or after `from`, as `String.prototype.match`
      without the global flag reports it. */
  function FindEntry(s: string, from: nat): (r: Option<nat>)
    requires from <= |s|
    ensures r.Some? ==> from <= r.value < |s| && EntryMatchAt(s, r.value)
    ensures r.Some? ==> forall q :: from <= q < r.value ==> !EntryMatchAt(s, q)
    ensures r.None? ==> forall q :: from <= q <= |s| ==> !EntryMatchAt(s, q)
    decreases |s| - from
  {
    if from == |s| then None
    else if EntryMatchAt(s, from) then Some(from)
    else FindEntry(s, from + 1)
  }

  // ----- /__ERROR__(.*)__/ -----

  /** JavaScript's line terminators, the characters `.` does not match. */
  predicate IsLineTerminator(c: char) {
    c == '\n' || c == '\r' || c == '\U{2028}' || c == '\U{2029}'
  }

  /** Length of the run of non-terminator characters that starts at `i`. */
  function LineRun(s: string, i: nat): (n: nat)
    requires i <= |s|
    ensures i + n <= |s|
    ensures forall j :: i <= j < i + n ==> !IsLineTerminator(s[j])
    ensures i + n < |s| ==> IsLineTerminator(s[i + n])
    decreases |s| - i
  {
    if i < |s| && !IsLineTerminator(s[i]) then 1 + LineRun(s, i + 1) else 0
  }

  /** The last `q` in `[lo, hi - 2]` where `__` starts: greedy `.*` gives back
      characters from the end of the line until `__` follows. */
  function LastCloseIn(s: string, lo: nat, hi: nat): (r: Option<nat>)
    requires lo <= hi <= |s|
    ensures r.Some? ==> lo <= r.value && r.value + 2 <= hi && OccursAt(s, Close, r.value)
    ensures r.Some? ==> forall q :: r.value < q && q + 2 <= hi ==> !OccursAt(s, Close, q)
    ensures r.None? ==> forall q :: lo <= q && q + 2 <= hi ==> !OccursAt(s, Close, q)
    decreases hi
  {
    if hi < lo + 2 then None
    else if s[hi - 2..hi] == Close then Some(hi - 2)
    else LastCloseIn(s, lo, hi - 1)
  }

  /** The captured group of `/__ERROR__(.*)__/` when the match starts at `p`. */
  function ErrorMatchAt(s: string, p: nat): Option<string> {
    if p + 9 <= |s| && s[p..p + 9] == ErrorTag then
      var body := p + 9;
      match LastCloseIn(s, body, body + LineRun(s, body))
      case Some(q) => Some(s[body..q])
      case None => None
    else None
  }

  /** The captured group of the leftmost match at or after `from`. */
  function FindError(s: string, from: nat): (r: Option<string>)
    requires from <= |s|
    ensures r.Some? ==> exists p | from <= p < |s| :: ErrorMatchAt(s, p) == r
    ensures r.None? ==> forall p | from <= p <= |s| :: ErrorMatchAt(s, p).None?
    decreases |s| - from
  {
    if from == |s| then None
    else
      var m := ErrorMatchAt(s, from);
      if m.Some? then m else FindError(s, from + 1)
  }

  // ----- properties of the entry matcher -----

  lemma {:induction false} DigitRunIs(s: string, i: nat, k: nat)
    requires i + k <= |s|
    requires forall j :: i <= j < i + k ==> IsDigit(s[j])
    requires i + k == |s| || !IsDigit(s[i + k])
    ensures DigitRun(s, i) == k
    decreases k
  {
    if k > 0 {
      DigitRunIs(s, i + 1, k - 1);
    }
  }

  /** The model of the regular expression is exact: it matches at `p` for
      some number of digits exactly when `EntryMatchAt` holds, and then only
      with the whole run of digits. */
  lemma RegexEntryMatchIsMaximalRun(s: string, p: nat, k: nat)
    ensures RegexEntryMatch(s, p, k) <==> EntryMatchAt(s, p) && k == DigitRun(s, p + 12)
  {
    if RegexEntryMatch(s, p, k) {
      assert s[p + 12 + k] == Close[0];
      DigitRunIs(s, p + 12, k);
    }
  }

  /** A match holds no whitespace. */
  lemma EntryMatchHasNoSpace(s: string, p: nat)
    requires EntryMatchAt(s, p)
    ensures forall j :: p <= j < EntryMatchEnd(s, p) ==> !IsSpace(s[j])
  {
    var k := DigitRun(s, p + 12);
    forall j | p <= j < EntryMatchEnd(s, p) ensures !IsSpace(s[j]) {
      if j < p + 12 {
        assert s[j] == EntryTag[j - p];
      } else if j >= p + 12 + k {
        assert s[j] == Close[j - (p + 12 + k)];
      }
    }
  }

  /** Whether a match lies inside a prefix does not depend on what follows. */
  lemma EntryMatchInPrefix(s: string, m: nat, p: nat)
    requires m <= |s|
    requires EntryMatchAt(s, p) && EntryMatchEnd(s, p) <= m
    ensures EntryMatchAt(s[..m], p) && EntryMatchEnd(s[..m], p) == EntryMatchEnd(s, p)
    ensures EntryDigits(s[..m], p) == EntryDigits(s, p)
  {
    var k := DigitRun(s, p + 12);
    var t := s[..m];
    assert t[p..p + 12] == s[p..p + 12];
    assert t[p + 12 + k] == s[p + 12 + k];
    DigitRunIs(t, p + 12, k);
    assert t[p + 12 + k..p + 12 + k + 2] == s[p + 12 + k..p + 12 + k + 2];
  }

  /** `__ENTRY_ID__`, the digits `d` and `__` in a row at `p` form a match
      that captures `d`. */
  lemma TagMatchesAt(s: string, p: nat, d: string)
    requires d != [] && AllDigits(d)
    requires p + 12 + |d| + 2 <= |s|
    requires s[p..p + 12] == EntryTag
    requires s[p + 12..p + 12 + |d|] == d
    requires s[p + 12 + |d|..p + 12 + |d| + 2] == Close
    ensures EntryMatchAt(s, p)
    ensures EntryMatchEnd(s, p) == p + 12 + |d| + 2
    ensures EntryDigits(s, p) == d
  {
    var b := p + 12;
    forall j | b <= j < b + |d| ensures IsDigit(s[j]) {
      assert s[j] == s[b..b + |d|][j - b];
    }
    assert s[b + |d|] == s[b + |d|..b + |d| + 2][0];
    DigitRunIs(s, b, |d|);
  }

  lemma Pieces3(x: string, m: string, y: string)
    ensures (x + m + y)[|x|..|x| + |m|] == m
  {
  }

  lemma Pieces4(w: string, x: string, y: string, z: string)
    ensures (w + x + y + z)[|w|..|w| + |x|] == x
    ensures (w + x + y + z)[|w| + |x|..|w| + |x| + |y|] == y
    ensures (w + x + y + z)[|w| + |x| + |y|..|w| + |x| + |y| + |z|] == z
  {
  }

  lemma SubSlice(s: string, i: nat, j: nat, k: nat, l: nat)
    requires i <= j <= |s| && k <= l <= j - i
    ensures s[i..j][k..l] == s[i + k..i + l]
  {
    forall m | 0 <= m < l - k ensures s[i..j][k..l][m] == s[i + k..i + l][m] {
      assert s[i..j][k + m] == s[i + k + m];
    }
  }

  /** The trailer itself is a match that captures the printed id. */
  lemma TrailerMatches(a: string, n: nat, r: string)
    ensures var s := a + EntryTrailer(n) + r;
      && EntryMatchAt(s, |a| + 2)
      && EntryMatchEnd(s, |a| + 2) == |a| + |EntryTrailer(n)|
      && EntryDigits(s, |a| + 2) == NatToString(n)
  {
    var d := NatToString(n);
    var t := EntryTrailer(n);
    var s := a + t + r;
    var o := |a|;
    assert |t| == 2 + 12 + |d| + 2;
    Pieces3(a, t, r);
    Pieces4("\n\n", EntryTag, d, Close);
    SubSlice(s, o, o + |t|, 2, 14);
    SubSlice(s, o, o + |t|, 14, 14 + |d|);
    SubSlice(s, o, o + |t|, 14 + |d|, 16 + |d|);
    TagMatchesAt(s, o + 2, d);
  }

  /** No match starts inside a marker-free `A` or on the trailer's line feeds. */
  lemma NoMatchBeforeTrailer(a: string, n: nat, r: string, q: nat)
    requires !HasEntryMarker(a)
    requires q < |a| + 2
    ensures !EntryMatchAt(a + EntryTrailer(n) + r, q)
  {
    var s := a + EntryTrailer(n) + r;
    assert s[|a|] == '\n' && s[|a| + 1] == '\n';
    if q < |a| && EntryMatchAt(s, q) {
      if EntryMatchEnd(s, q) <= |a| {
        assert s[..|a|] == a;
        EntryMatchInPrefix(s, |a|, q);
      } else {
        EntryMatchHasNoSpace(s, q);
      }
    }
  }

  /** In `A + EntryTrailer(n) + R` with no marker in `A`, the leftmost match
      is the trailer's, and it captures the printed id. */
  lemma TrailerIsFirstMatch(a: string, n: nat, r: string)
    requires !HasEntryMarker(a)
    ensures var s := a + EntryTrailer(n) + r;
      && FindEntry(s, 0) == Some(|a| + 2)
      && EntryMatchEnd(s, |a| + 2) == |a| + |EntryTrailer(n)|
      && EntryDigits(s, |a| + 2) == NatToString(n)
  {
    var s := a + EntryTrailer(n) + r;
    TrailerMatches(a, n, r);
    forall q | 0 <= q < |a| + 2 ensures !EntryMatchAt(s, q) {
      NoMatchBeforeTrailer(a, n, r, q);
    }
    var found := FindEntry(s, 0);
    assert found.Some?;
  }

  // ----- properties of the error matcher -----

  lemma {:induction false} LineRunIs(s: string, i: nat, k: nat)
    requires i + k <= |s|
    requires forall j :: i <= j < i + k ==> !IsLineTerminator(s[j])
    requires i + k == |s| || IsLineTerminator(s[i + k])
    ensures LineRun(s, i) == k
    decreases k
  {
    if k > 0 {
      LineRunIs(s, i + 1, k - 1);
    }
  }

  /** The message and the closing `__` of an error trailer stay on one line. */
  lemma ErrorTrailerLine(message: string)
    requires forall j :: 0 <= j < |message| ==> !IsLineTerminator(message[j])
    ensures |ErrorTrailer(message)| == 13 + |message|
    ensures LineRun(ErrorTrailer(message), 11) == 2 + |message|
  {
    var s := ErrorTrailer(message);
    assert s == "\n\n" + ErrorTag + message + Close;
    forall j | 11 <= j < |s| ensures !IsLineTerminator(s[j]) {
      if j < 11 + |message| {
        assert s[j] == message[j - 11];
      } else {
        assert s[j] == '_';
      }
    }
    LineRunIs(s, 11, |s| - 11);
  }

  /** One step of the search for the leftmost error match. */
  lemma FindErrorStep(s: string, from: nat)
    requires from < |s|
    ensures FindError(s, from) == if ErrorMatchAt(s, from).Some? then ErrorMatchAt(s, from) else FindError(s, from + 1)
  {
  }

  /** The leftmost error match decides `FindError`. */
  lemma {:induction false} FindErrorAt(s: string, from: nat, p: nat)
    requires from <= p < |s|
    requires forall q :: from <= q < p ==> ErrorMatchAt(s, q).None?
    requires ErrorMatchAt(s, p).Some?
    ensures FindError(s, from) == ErrorMatchAt(s, p)
    decreases p - from
  {
    FindErrorStep(s, from);
    if from < p {
      FindErrorAt(s, from + 1, p);
    }
  }

  lemma ErrorTrailerMatch(message: string)
    requires forall j :: 0 <= j < |message| ==> !IsLineTerminator(message[j])
    ensures ErrorMatchAt(ErrorTrailer(message), 2) == Some(message)
  {
    var s := ErrorTrailer(message);
    ErrorTrailerLine(message);
    assert s == "\n\n" + ErrorTag + message + Close;
    assert s[2..11] == ErrorTag;
    assert s[|s| - 2..|s|] == Close;
    assert LastCloseIn(s, 11, |s|) == Some(|s| - 2);
    assert s[11..|s| - 2] == message;
  }

  /** A chunk that is exactly the backend's error trailer yields the message
      as the captured group, provided the message stays on one line. */
  lemma ErrorTrailerCaptured(message: string)
    requires forall j :: 0 <= j < |message| ==> !IsLineTerminator(message[j])
    ensures FindError(ErrorTrailer(message), 0) == Some(message)
  {
    var s := ErrorTrailer(message);
    ErrorTrailerMatch(message);
    assert s[0] == '\n' && s[1] == '\n';
    assert s[0..9][0] == '\n' && s[1..10][0] == '\n';
    FindErrorAt(s, 0, 2);
  }
}
