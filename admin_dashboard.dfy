/** The pure parts of the admin ratings dashboard
    (synerge-reader-frontend/src/components/AdminDashboard/AdminDashboard.jsx):
    the colour of a rating's stars, the rating filter with JavaScript's
    `parseInt`, and the five-character star string of a row. */
module AdminDashboard {
  import opened Text
  import opened Decimal

  // ----- star colour -----

  const Red: string := "#e74c3c"
  const Orange: string := "#f39c12"
  const Yellow: string := "#f1c40f"
  const Green: string := "#2ecc71"

  /** `getStarColor(rating)`. */
  function GetStarColor(rating: int): (c: string)
    ensures c == Red || c == Orange || c == Yellow || c == Green
  {
    if rating <= 2 then Red
    else if rating <= 3 then Orange
    else if rating <= 4 then Yellow
    else Green
  }

  /** Every rating gets exactly one of the four colours, each colour
      standing for exactly one band of ratings. */
  lemma StarColorBands(rating: int)
    ensures GetStarColor(rating) == Red <==> rating <= 2
    ensures GetStarColor(rating) == Orange <==> 2 < rating <= 3
    ensures GetStarColor(rating) == Yellow <==> 3 < rating <= 4
    ensures GetStarColor(rating) == Green <==> 4 < rating
  {
    assert Red[1] == 'e' && Orange[1] == 'f' && Yellow[1] == 'f' && Green[1] == '2';
    assert Orange[2] == '3' && Yellow[2] == '1';
  }

  // ----- parseInt -----

  /** The value of `c` as a digit in base `radix` (10 or 16), if it is one. */
  function RadixDigit(c: char, radix: nat): (d: Option<nat>)
    ensures d.Some? ==> d.value < radix
  {
    if '0' <= c <= '9' && c as int - '0' as int < radix then Some(c as int - '0' as int)
    else if radix == 16 && 'a' <= c <= 'f' then Some(c as int - 'a' as int + 10)
    else if radix == 16 && 'A' <= c <= 'F' then Some(c as int - 'A' as int + 10)
    else None
  }

  predicate AllRadixDigits(s: string, radix: nat) {
    forall i :: 0 <= i < |s| ==> RadixDigit(s[i], radix).Some?
  }

  /** The length of the longest prefix of `s` made of digits in `radix`. */
  function DigitPrefix(s: string, radix: nat): (n: nat)
    ensures n <= |s| && AllRadixDigits(s[..n], radix)
    ensures n < |s| ==> RadixDigit(s[n], radix).None?
  {
    if s == [] || RadixDigit(s[0], radix).None? then 0
    else
      var n := 1 + DigitPrefix(s[1..], radix);
      assert forall i :: 1 <= i < n ==> s[..n][i] == s[1..][..n - 1][i - 1];
      n
  }

  /** The number a string of digits in `radix` denotes. */
  function RadixValue(s: string, radix: nat): nat
    requires AllRadixDigits(s, radix)
  {
    if s == [] then 0
    else radix * RadixValue(s[..|s| - 1], radix) + RadixDigit(s[|s| - 1], radix).value
  }

  /** The digits after the sign: a `0x` or `0X` prefix switches to base
      16, and the longest run of digits that follows is read; None when
      there is none. */
  function ParseUnsigned(u: string): Option<nat> {
    var hex := |u| >= 2 && u[0] == '0' && (u[1] == 'x' || u[1] == 'X');
    var radix := if hex then 16 else 10;
    var body := if hex then u[2..] else u;
    var n := DigitPrefix(body, radix);
    if n == 0 then None else Some(RadixValue(body[..n], radix))
  }

  /** JavaScript's `parseInt(s)` without a radix: leading whitespace is
      skipped and one sign is taken before the digits; None is `NaN`. */
  function ParseInt(s: string): (r: Option<int>)
    ensures r.Some? ==> TrimStart(s) != []
    ensures r.Some? && r.value < 0 ==> TrimStart(s)[0] == '-'
  {
    var t := TrimStart(s);
    var sign := if t != [] && t[0] == '-' then -1 else 1;
    var u := if t != [] && (t[0] == '+' || t[0] == '-') then t[1..] else t;
    match ParseUnsigned(u)
    case None => None
    case Some(v) => Some(sign * v)
  }

  lemma {:induction false} RadixValueDecimal(s: string)
    requires AllDigits(s)
    ensures AllRadixDigits(s, 10) && RadixValue(s, 10) == DigitsValue(s)
    decreases |s|
  {
    if s != [] {
      RadixValueDecimal(s[..|s| - 1]);
    }
  }

  /** The digit run of `d + rest` is `d` when `rest` cannot continue it. */
  lemma {:induction false} DigitPrefixOfRun(d: string, rest: string, radix: nat)
    requires AllRadixDigits(d, radix)
    requires rest == [] || RadixDigit(rest[0], radix).None?
    ensures DigitPrefix(d + rest, radix) == |d|
    decreases |d|
  {
    if d == [] {
      assert d + rest == rest;
    } else {
      var u := d + rest;
      assert u[0] == d[0] && u[1..] == d[1..] + rest;
      assert RadixDigit(d[0], radix).Some?;
      DigitPrefixOfRun(d[1..], rest, radix);
    }
  }

  /** A `0x`-free string whose digit run is `d` reads as the value of `d`. */
  lemma ParseUnsignedDecimal(d: string, rest: string)
    requires AllDigits(d) && d != []
    requires rest == [] || !IsDigit(rest[0])
    requires var u := d + rest; !(|u| >= 2 && u[0] == '0' && (u[1] == 'x' || u[1] == 'X'))
    ensures ParseUnsigned(d + rest) == Some(DigitsValue(d))
  {
    RadixValueDecimal(d);
    assert rest == [] || RadixDigit(rest[0], 10).None?;
    DigitPrefixOfRun(d, rest, 10);
    assert (d + rest)[..|d|] == d;
  }

  /** A printed number followed by something that cannot continue it has
      no `0x` prefix. */
  lemma NumeralIsNotHex(m: nat, rest: string)
    requires rest == [] || (rest[0] != 'x' && rest[0] != 'X')
    ensures var u := NatToString(m) + rest; !(|u| >= 2 && u[0] == '0' && (u[1] == 'x' || u[1] == 'X'))
  {
    var d := NatToString(m);
    var u := d + rest;
    assert u[0] == d[0];
    if |d| == 1 && |u| >= 2 {
      assert u[1] == rest[0];
    } else if |d| > 1 {
      assert d[0] != '0';
    }
  }

  lemma ParseUnsignedNumeral(m: nat, rest: string)
    requires rest == [] || (!IsDigit(rest[0]) && rest[0] != 'x' && rest[0] != 'X')
    ensures ParseUnsigned(NatToString(m) + rest) == Some(m)
  {
    NumeralIsNotHex(m, rest);
    ParseUnsignedDecimal(NatToString(m), rest);
    ParsePrinted(m);
  }

  /** The decimal numeral of an integer, as a `<select>` option value or
      `String(n)` renders it. */
  function IntToString(n: int): string {
    if n < 0 then "-" + NatToString(-n) else NatToString(n)
  }

  lemma TrimStartNoSpace(s: string)
    requires s != [] && !IsSpace(s[0])
    ensures TrimStart(s) == s
  {
  }

  lemma ParseIntNegative(u: string, v: nat)
    requires ParseUnsigned(u) == Some(v)
    ensures ParseInt(['-'] + u) == Some(-(v as int))
  {
    var s := ['-'] + u;
    TrimStartNoSpace(s);
    assert s[0] == '-' && s[1..] == u;
  }

  lemma ParseIntUnsigned(u: string, v: nat)
    requires u != [] && IsDigit(u[0])
    requires ParseUnsigned(u) == Some(v)
    ensures ParseInt(u) == Some(v)
  {
    TrimStartNoSpace(u);
  }

  /** `parseInt` reads a decimal numeral back as the number it denotes, and
      ignores whatever follows it from the first character that cannot
      continue the numeral. */
  lemma ParseIntReadsNumeral(n: int, rest: string)
    requires rest == [] || (!IsDigit(rest[0]) && rest[0] != 'x' && rest[0] != 'X')
    ensures ParseInt(IntToString(n) + rest) == Some(n)
  {
    var m := if n < 0 then -n else n;
    var d := NatToString(m);
    ParseUnsignedNumeral(m, rest);
    if n < 0 {
      assert IntToString(n) + rest == ['-'] + (d + rest);
      ParseIntNegative(d + rest, m);
    } else {
      assert IntToString(n) + rest == d + rest;
      assert (d + rest)[0] == d[0];
      ParseIntUnsigned(d + rest, m);
    }
  }

  /** Text that starts with no digit, sign or whitespace is `NaN`. */
  lemma ParseIntNaN(s: string)
    requires s != [] && !IsSpace(s[0]) && !IsDigit(s[0]) && s[0] != '+' && s[0] != '-'
    ensures ParseInt(s).None?
  {
    TrimStartNoSpace(s);
    assert RadixDigit(s[0], 10).None?;
    assert DigitPrefix(s, 10) == 0;
  }

  /** After `0x` the digits are read in base 16; `0x` on its own is `NaN`. */
  lemma ParseUnsignedHex(h: string, rest: string)
    requires AllRadixDigits(h, 16)
    requires rest == [] || RadixDigit(rest[0], 16).None?
    ensures ParseUnsigned("0x" + h + rest) == if h == [] then None else Some(RadixValue(h, 16))
  {
    var u := "0x" + h + rest;
    assert u[2..] == h + rest;
    DigitPrefixOfRun(h, rest, 16);
    assert (h + rest)[..|h|] == h;
  }

  // ----- the rating filter -----

  /** One row of the ratings table. */
  datatype RatingRow = RatingRow(id: int, username: string, rating: int, question: string, comment: string)

  /** The filter callback: `"all"` keeps every row, any other filter the
      rows whose rating is `parseInt(filter)` (nothing equals `NaN`). */
  predicate Shown(filter: string, r: RatingRow) {
    filter == "all" || ParseInt(filter) == Some(r.rating)
  }

  /** `filteredRatings`. */
  function FilteredRatings(ratings: seq<RatingRow>, filter: string): (r: seq<RatingRow>)
    ensures |r| <= |ratings|
    ensures forall x :: x in r ==> x in ratings && Shown(filter, x)
  {
    if ratings == [] then []
    else (if Shown(filter, ratings[0]) then [ratings[0]] else []) + FilteredRatings(ratings[1..], filter)
  }

  /** The filtered rows are exactly the shown rows of the input, so the
      count in the footer never exceeds the total. */
  lemma {:induction false} FilteredRatingsFacts(ratings: seq<RatingRow>, filter: string)
    ensures |FilteredRatings(ratings, filter)| <= |ratings|
    ensures forall r :: r in FilteredRatings(ratings, filter) <==> r in ratings && Shown(filter, r)
    decreases |ratings|
  {
    if ratings != [] {
      var head := if Shown(filter, ratings[0]) then [ratings[0]] else [];
      assert FilteredRatings(ratings, filter) == head + FilteredRatings(ratings[1..], filter);
      FilteredRatingsFacts(ratings[1..], filter);
      assert ratings == [ratings[0]] + ratings[1..];
    }
  }

  /** Filtering commutes with splitting the list, so the kept rows stay in
      their order. */
  lemma {:induction false} FilteredAppend(a: seq<RatingRow>, b: seq<RatingRow>, filter: string)
    ensures FilteredRatings(a + b, filter) == FilteredRatings(a, filter) + FilteredRatings(b, filter)
    decreases |a|
  {
    if a == [] {
      assert a + b == b;
    } else {
      var head := if Shown(filter, a[0]) then [a[0]] else [];
      assert (a + b)[0] == a[0];
      assert (a + b)[1..] == a[1..] + b;
      assert FilteredRatings(a + b, filter) == head + FilteredRatings(a[1..] + b, filter);
      FilteredAppend(a[1..], b, filter);
      AppendAssoc(head, FilteredRatings(a[1..], filter), FilteredRatings(b, filter));
    }
  }

  /** The filter `"all"` keeps the list as it is. */
  lemma {:induction false} FilterAllKeepsAll(ratings: seq<RatingRow>)
    ensures FilteredRatings(ratings, "all") == ratings
    decreases |ratings|
  {
    if ratings != [] {
      FilterAllKeepsAll(ratings[1..]);
    }
  }

  /** The filter of the option for `star` stars keeps exactly the rows
      rated `star`. */
  lemma StarFilterKeepsThatRating(ratings: seq<RatingRow>, star: int)
    ensures forall r :: r in FilteredRatings(ratings, IntToString(star)) <==> r in ratings && r.rating == star
  {
    var e: string := [];
    ParseIntReadsNumeral(star, e);
    assert IntToString(star) + e == IntToString(star);
    assert IntToString(star) != "all" by {
      var d := IntToString(star);
      assert d[0] == '-' || IsDigit(d[0]);
    }
    FilteredRatingsFacts(ratings, IntToString(star));
  }

  // ----- the star string -----

  const FilledStar: char := '\U{2605}'
  const EmptyStar: char := '\U{2606}'

  /** `String.prototype.repeat` on a one-character string: a `RangeError`
      (None) for a negative count. */
  function Repeat(c: char, count: int): (r: Option<string>)
    ensures r.Some? <==> count >= 0
    ensures r.Some? ==> |r.value| == count && forall i :: 0 <= i < count ==> r.value[i] == c
  {
    if count < 0 then None else Some(seq(count, _ => c))
  }

  /** The two `repeat` calls that render a row's stars, in order; None is
      the `RangeError` either throws. */
  function StarString(rating: int): (r: Option<string>)
    ensures r.Some? ==> |r.value| == 5
  {
    match Repeat(FilledStar, rating)
    case None => None
    case Some(filled) =>
      match Repeat(EmptyStar, 5 - rating)
      case None => None
      case Some(empty) => Some(filled + empty)
  }

  /** How many filled stars a string shows. */
  function FilledCount(s: string): nat {
    if s == [] then 0 else (if s[0] == FilledStar then 1 else 0) + FilledCount(s[1..])
  }

  lemma {:induction false} FilledCountOfRuns(k: nat, n: nat)
    ensures FilledCount(seq(k, _ => FilledStar) + seq(n, _ => EmptyStar)) == k
    decreases k + n
  {
    var s := seq(k, _ => FilledStar) + seq(n, _ => EmptyStar);
    if k > 0 {
      assert s[1..] == seq(k - 1, _ => FilledStar) + seq(n, _ => EmptyStar);
      FilledCountOfRuns(k - 1, n);
    } else if n > 0 {
      assert s[1..] == seq(0, _ => FilledStar) + seq(n - 1, _ => EmptyStar);
      FilledCountOfRuns(0, n - 1);
    } else {
      assert s == [];
    }
  }

  /** A rating from 0 to 5 renders as five characters: that many filled
      stars, then empty ones, so the filled count reads the rating back;
      any other rating makes one of the `repeat` calls throw. */
  lemma StarStringFacts(rating: int)
    ensures StarString(rating).Some? <==> 0 <= rating <= 5
    ensures StarString(rating).Some? ==>
      var s := StarString(rating).value;
      && |s| == 5
      && (forall i :: 0 <= i < rating ==> s[i] == FilledStar)
      && (forall i :: rating <= i < 5 ==> s[i] == EmptyStar)
      && FilledCount(s) == rating
  {
    if 0 <= rating <= 5 {
      FilledCountOfRuns(rating, 5 - rating);
      assert StarString(rating).value == seq(rating, _ => FilledStar) + seq(5 - rating, _ => EmptyStar);
    }
  }
}
