/** Reading the meter value out of OCR text (extractReading) and the digit
    filter applied to the reading field as the user types. */
module AppReading {
  import opened JsString

  /** One match of the global scan: the digits text[start..start + len]. */
  datatype Match = Match(start: nat, len: nat)

  /** A four-digit window starting at j. */
  predicate DigitWindow(s: string, j: nat) {
    j + 4 <= |s| && forall k :: j <= k < j + 4 ==> IsDigit(s[k])
  }

  /** Some four consecutive digits begin at or after position i. */
  predicate HasDigitWindowFrom(s: string, i: nat) {
    exists j :: i <= j <= |s| && DigitWindow(s, j)
  }

  /** m is a match of /\d{4,7}/ inside s. */
  predicate IsMatchIn(s: string, m: Match) {
    m.start + m.len <= |s| && 4 <= m.len <= 7 && AllDigits(s[m.start..m.start + m.len])
  }

  /** r is the contiguous piece of text that starts at index i. */
  predicate OccursAt(text: string, r: string, i: nat) {
    i + |r| <= |text| && text[i..i + |r|] == r
  }

  function MatchText(s: string, m: Match): (r: string)
    requires m.start + m.len <= |s|
    ensures IsMatchIn(s, m) ==> 4 <= |r| <= 7 && AllDigits(r) && OccursAt(s, r, m.start)
  {
    var r := s[m.start..m.start + m.len];
    assert forall k :: 0 <= k < |r| ==> r[k] == s[m.start + k];
    r
  }

  /** Greedy run of at most seven digits starting at i: what \d{4,7} tries
      first before backtracking. */
  function DigitRunAt(s: string, i: nat): (n: nat)
    requires i <= |s|
    ensures n <= 7 && i + n <= |s|
    ensures forall k :: i <= k < i + n ==> IsDigit(s[k])
    ensures n < 7 && i + n < |s| ==> !IsDigit(s[i + n])
    decreases |s| - i
  {
    if i < |s| && IsDigit(s[i]) then
      var n := 1 + DigitRunAt(s, i + 1);
      if n > 7 then 7 else n
    else 0
  }

  /** text.match(/\d{4,7}/g) scanned from position i: at each position the
      greedy run is a match when it has at least four digits; the scan then
      resumes right after the match, otherwise one character further on.
      Every element is a real match at or after i. */
  function ScanFrom(s: string, i: nat): (ms: seq<Match>)
    requires i <= |s|
    ensures forall k :: 0 <= k < |ms| ==> i <= ms[k].start && IsMatchIn(s, ms[k])
    decreases |s| - i
  {
    if i == |s| then []
    else
      var n := DigitRunAt(s, i);
      if n >= 4 then
        var rest := ScanFrom(s, i + n);
        var ms := [Match(i, n)] + rest;
        assert forall k :: 1 <= k < |ms| ==> ms[k] == rest[k - 1];
        ms
      else ScanFrom(s, i + 1)
  }

  /** The matches come in text order and do not overlap. */
  predicate InOrder(ms: seq<Match>) {
    forall j, k :: 0 <= j < k < |ms| ==> ms[j].start + ms[j].len <= ms[k].start
  }

  /** No match shorter than seven digits is followed by a digit. */
  predicate Greedy(s: string, ms: seq<Match>) {
    forall k :: 0 <= k < |ms| && ms[k].len < 7 && ms[k].start + ms[k].len < |s| ==>
      !IsDigit(s[ms[k].start + ms[k].len])
  }

  lemma InOrderCons(m: Match, rest: seq<Match>)
    requires InOrder(rest) && forall k :: 0 <= k < |rest| ==> m.start + m.len <= rest[k].start
    ensures InOrder([m] + rest)
  {
    var ms := [m] + rest;
    forall j, k | 0 <= j < k < |ms|
      ensures ms[j].start + ms[j].len <= ms[k].start
    {
      assert ms[k] == rest[k - 1];
      if j > 0 {
        assert ms[j] == rest[j - 1];
      }
    }
  }

  /** The scan's matches come in text order without overlapping. */
  lemma {:induction false} ScanFromOrdered(s: string, i: nat)
    requires i <= |s|
    ensures InOrder(ScanFrom(s, i))
    decreases |s| - i
  {
    if i < |s| {
      var n := DigitRunAt(s, i);
      if n >= 4 {
        var rest := ScanFrom(s, i + n);
        ScanFromOrdered(s, i + n);
        InOrderCons(Match(i, n), rest);
        assert ScanFrom(s, i) == [Match(i, n)] + rest;
      } else {
        ScanFromOrdered(s, i + 1);
      }
    }
  }

  lemma GreedyCons(s: string, m: Match, rest: seq<Match>)
    requires Greedy(s, rest)
    requires m.len < 7 && m.start + m.len < |s| ==> !IsDigit(s[m.start + m.len])
    ensures Greedy(s, [m] + rest)
  {
    var ms := [m] + rest;
    forall k | 0 <= k < |ms| && ms[k].len < 7 && ms[k].start + ms[k].len < |s|
      ensures !IsDigit(s[ms[k].start + ms[k].len])
    {
      if k > 0 {
        assert ms[k] == rest[k - 1];
      }
    }
  }

  /** Each match took every digit it could: one shorter than seven digits
      is not followed by a digit. */
  lemma {:induction false} ScanFromGreedy(s: string, i: nat)
    requires i <= |s|
    ensures Greedy(s, ScanFrom(s, i))
    decreases |s| - i
  {
    if i < |s| {
      var n := DigitRunAt(s, i);
      if n >= 4 {
        var rest := ScanFrom(s, i + n);
        ScanFromGreedy(s, i + n);
        GreedyCons(s, Match(i, n), rest);
        assert ScanFrom(s, i) == [Match(i, n)] + rest;
      } else {
        ScanFromGreedy(s, i + 1);
      }
    }
  }

  /** The scan finds nothing exactly when no four digits in a row start at
      or after i. */
  lemma {:induction false} ScanFromEmpty(s: string, i: nat)
    requires i <= |s|
    ensures ScanFrom(s, i) == [] <==> !HasDigitWindowFrom(s, i)
    decreases |s| - i
  {
    if i == |s| {
      assert forall j :: i <= j <= |s| ==> !DigitWindow(s, j);
    } else if DigitRunAt(s, i) >= 4 {
      assert DigitWindow(s, i);
    } else {
      ScanFromEmpty(s, i + 1);
      assert !DigitWindow(s, i);
      assert HasDigitWindowFrom(s, i) ==> HasDigitWindowFrom(s, i + 1) by {
        if HasDigitWindowFrom(s, i) {
          var j :| i <= j <= |s| && DigitWindow(s, j);
          assert j != i;
        }
      }
    }
  }

  /** Position j lies inside one of the matches. */
  predicate Covered(ms: seq<Match>, j: nat) {
    exists k :: 0 <= k < |ms| && ms[k].start <= j < ms[k].start + ms[k].len
  }

  /** Four digits at j make the greedy attempt at j read at least four. */
  lemma WindowRun(s: string, j: nat)
    requires DigitWindow(s, j)
    ensures DigitRunAt(s, j) >= 4
  {
    assert DigitRunAt(s, j + 3) >= 1;
    assert DigitRunAt(s, j + 2) >= 2;
    assert DigitRunAt(s, j + 1) >= 3;
  }

  lemma CoveredCons(m: Match, rest: seq<Match>, j: nat)
    requires (m.start <= j < m.start + m.len) || Covered(rest, j)
    ensures Covered([m] + rest, j)
  {
    var ms := [m] + rest;
    if m.start <= j < m.start + m.len {
      assert ms[0] == m;
    } else {
      var k :| 0 <= k < |rest| && rest[k].start <= j < rest[k].start + rest[k].len;
      assert ms[k + 1] == rest[k];
    }
  }

  /** The scan misses no match: every four digits in a row at or after i
      start inside a match. */
  lemma {:induction false} ScanCovers(s: string, i: nat, j: nat)
    requires i <= j && DigitWindow(s, j)
    ensures Covered(ScanFrom(s, i), j)
    decreases |s| - i
  {
    var n := DigitRunAt(s, i);
    if n >= 4 {
      var rest := ScanFrom(s, i + n);
      assert ScanFrom(s, i) == [Match(i, n)] + rest;
      if i + n <= j {
        ScanCovers(s, i + n, j);
      }
      CoveredCons(Match(i, n), rest, j);
    } else {
      WindowRun(s, j);
      assert j != i;
      ScanCovers(s, i + 1, j);
    }
  }

  /** Every match found by text.match(/\d{4,7}/g). */
  function Matches(text: string): seq<Match> {
    ScanFrom(text, 0)
  }

  /** Math.max(...matches.map(m => m.length)). */
  function MaxLen(ms: seq<Match>): (longest: nat)
    ensures forall k :: 0 <= k < |ms| ==> ms[k].len <= longest
    ensures ms != [] ==> exists k :: 0 <= k < |ms| && ms[k].len == longest
  {
    if ms == [] then 0
    else
      var tail := MaxLen(ms[1..]);
      assert forall k :: 1 <= k < |ms| ==> ms[k] == ms[1..][k - 1];
      if ms[0].len >= tail then ms[0].len else tail
  }

  /** matches.filter(m => m.length === len). */
  function FilterLen(ms: seq<Match>, len: nat): (r: seq<Match>)
    ensures forall k :: 0 <= k < |r| ==> r[k].len == len
    ensures (exists k :: 0 <= k < |ms| && ms[k].len == len) ==> r != []
  {
    if ms == [] then []
    else
      var tail := FilterLen(ms[1..], len);
      assert forall k :: 1 <= k < |ms| ==> ms[k] == ms[1..][k - 1];
      if ms[0].len == len then [ms[0]] + tail else tail
  }

  /** candidates[candidates.length - 1] where candidates are the matches
      of the greatest length. */
  function LongestLast(ms: seq<Match>): (m: Match)
    requires ms != []
    ensures m in ms
  {
    var candidates := FilterLen(ms, MaxLen(ms));
    FilterLenLast(ms, MaxLen(ms));
    candidates[|candidates| - 1]
  }

  /** extractReading: "" when the scan finds nothing, otherwise the text of
      the last of the longest matches. */
  function ExtractReading(text: string): (r: string)
    ensures r == "" <==> !HasDigitWindowFrom(text, 0)
    ensures r != "" ==> 4 <= |r| <= 7 && AllDigits(r)
    ensures r != "" ==> exists i :: OccursAt(text, r, i)
  {
    var ms := Matches(text);
    ScanFromEmpty(text, 0);
    if |ms| == 0 then ""
    else
      ScannedMatch(text, LongestLast(ms));
      MatchText(text, LongestLast(ms))
  }

  lemma ScannedMatch(text: string, m: Match)
    requires m in Matches(text)
    ensures IsMatchIn(text, m)
  {
  }

  /** The index of the last element of the given length, or -1. */
  function LastWithLen(ms: seq<Match>, len: nat): (k: int)
    ensures -1 <= k < |ms|
    ensures k >= 0 ==> ms[k].len == len
    ensures forall j :: k < j < |ms| && 0 <= j ==> ms[j].len != len
  {
    if ms == [] then -1
    else
      var t := LastWithLen(ms[1..], len);
      assert forall j :: 1 <= j < |ms| ==> ms[j] == ms[1..][j - 1];
      if t >= 0 then t + 1 else if ms[0].len == len then 0 else -1
  }

  /** The last element of the filtered list is the last element of that
      length in the original order. */
  lemma {:induction false} FilterLenLast(ms: seq<Match>, len: nat)
    requires FilterLen(ms, len) != []
    ensures var f, k := FilterLen(ms, len), LastWithLen(ms, len);
            k >= 0 && f[|f| - 1] == ms[k]
  {
    var f := FilterLen(ms, len);
    var rest := ms[1..];
    var tail := FilterLen(rest, len);
    var t := LastWithLen(rest, len);
    assert f == (if ms[0].len == len then [ms[0]] + tail else tail);
    assert LastWithLen(ms, len) == (if t >= 0 then t + 1 else if ms[0].len == len then 0 else -1);
    if tail != [] {
      FilterLenLast(rest, len);
      assert f[|f| - 1] == tail[|tail| - 1] == rest[t] == ms[t + 1];
    } else {
      assert forall j :: 0 <= j < |rest| ==> rest[j].len != len;
      assert f == [ms[0]];
    }
  }

  /** The pick is at least as long as every element, and no later element
      is as long. */
  lemma LongestLastSpec(ms: seq<Match>)
    requires ms != []
    ensures var m := LongestLast(ms);
            exists k :: 0 <= k < |ms| && ms[k] == m
              && (forall j :: 0 <= j < |ms| ==> ms[j].len <= m.len)
              && (forall j :: k < j < |ms| ==> ms[j].len < m.len)
  {
    var longest := MaxLen(ms);
    FilterLenLast(ms, longest);
    var k := LastWithLen(ms, longest);
    assert ms[k] == LongestLast(ms);
  }

  /** The reading is at least as long as every match, and it is the text of
      the last match among those of the greatest length. */
  lemma ExtractReadingLongestLast(text: string)
    requires ExtractReading(text) != ""
    ensures var r, ms := ExtractReading(text), Matches(text);
            exists k :: 0 <= k < |ms| && MatchText(text, ms[k]) == r
              && (forall j :: 0 <= j < |ms| ==> ms[j].len <= |r|)
              && (forall j :: k < j < |ms| ==> ms[j].len < |r|)
  {
    LongestLastSpec(Matches(text));
  }

  /** The reading is at least as long as any run of four to seven digits
      in the text: such a run lies inside one match, which greediness
      stretches to the end of the run. */
  lemma ExtractReadingAtLeastRun(text: string, j: nat, n: nat)
    requires 4 <= n <= 7 && j + n <= |text|
    requires forall k :: j <= k < j + n ==> IsDigit(text[k])
    ensures |ExtractReading(text)| >= n
  {
    var ms := Matches(text);
    assert DigitWindow(text, j);
    ScanCovers(text, 0, j);
    ScanFromGreedy(text, 0);
    var k :| 0 <= k < |ms| && ms[k].start <= j < ms[k].start + ms[k].len;
    var e := ms[k].start + ms[k].len;
    assert ms[k].len < 7 && e < |text| ==> !IsDigit(text[e]);
    assert ms[k].len >= n;
    ScanFromEmpty(text, 0);
    assert HasDigitWindowFrom(text, 0);
    ExtractReadingLongestLast(text);
  }

  // The examples below name their literal through a parameter bound by
  // `requires s == "..."`: the verifier then reasons about one symbol equal
  // to the literal, which keeps each proof small.

  /** Nine digits in a row: only the first seven are matched, the two left
      over are too short. */
  lemma ScanNineDigits(s: string)
    requires s == "123456789"
    ensures Matches(s) == [Match(0, 7)]
  {
    assert DigitRunAt(s, 7) == 2;
    assert ScanFrom(s, 9) == [];
    assert ScanFrom(s, 8) == [];
    assert ScanFrom(s, 7) == [];
    assert DigitRunAt(s, 0) == 7;
  }

  /** Eleven digits in a row: a seven-digit match, then a four-digit one. */
  lemma ScanElevenDigits(s: string)
    requires s == "12345678901"
    ensures Matches(s) == [Match(0, 7), Match(7, 4)]
  {
    assert ScanFrom(s, 11) == [];
    assert DigitRunAt(s, 7) == 4;
    assert ScanFrom(s, 7) == [Match(7, 4)];
    assert DigitRunAt(s, 0) == 7;
  }

  /** Two four-digit groups separated by a space are two matches. */
  lemma ScanTwoGroups(s: string)
    requires s == "1234 5678"
    ensures Matches(s) == [Match(0, 4), Match(5, 4)]
  {
    assert ScanFrom(s, 9) == [];
    assert DigitRunAt(s, 5) == 4;
    assert ScanFrom(s, 5) == [Match(5, 4)];
    assert DigitRunAt(s, 4) == 0;
    assert ScanFrom(s, 4) == [Match(5, 4)];
    assert DigitRunAt(s, 0) == 4;
  }

  /** Two matches of equal length: the later one is picked. */
  lemma TiePicksLater(ms: seq<Match>)
    requires ms == [Match(0, 4), Match(5, 4)]
    ensures LongestLast(ms) == Match(5, 4)
  {
    assert MaxLen(ms[1..]) == 4;
    assert FilterLen(ms[1..], 4) == [Match(5, 4)];
  }

  /** Two readings of equal length: the later one wins. */
  lemma ExtractTieTakesLast(s: string)
    requires s == "1234 5678"
    ensures ExtractReading(s) == "5678"
  {
    ScanTwoGroups(s);
    TiePicksLater(Matches(s));
    assert s[5..9] == "5678";
  }

  // ---------------------------------------------------------------------
  // The reading field's input filter: value.replace(/\D/g, '')

  function StripNonDigits(s: string): (r: string)
    ensures AllDigits(r) && |r| <= |s|
  {
    if s == [] then []
    else (if IsDigit(s[0]) then [s[0]] else []) + StripNonDigits(s[1..])
  }

  /** The filter works character by character: it distributes over
      concatenation, keeping the digits of each part in order. */
  lemma {:induction false} StripNonDigitsAppend(a: string, b: string)
    ensures StripNonDigits(a + b) == StripNonDigits(a) + StripNonDigits(b)
  {
    if a != [] {
      assert (a + b)[1..] == a[1..] + b;
      StripNonDigitsAppend(a[1..], b);
    } else {
      assert a + b == b;
    }
  }

  /** A single character is kept exactly when it is a digit. */
  lemma StripNonDigitsChar(c: char)
    ensures StripNonDigits([c]) == if IsDigit(c) then [c] else []
  {
  }

  /** A value made only of digits passes through unchanged, and only such a
      value does. */
  lemma {:induction false} StripNonDigitsFixed(s: string)
    ensures StripNonDigits(s) == s <==> AllDigits(s)
  {
    if s != [] {
      StripNonDigitsFixed(s[1..]);
      if !IsDigit(s[0]) {
        assert |StripNonDigits(s)| <= |s[1..]| < |s|;
      } else {
        assert StripNonDigits(s) == [s[0]] + StripNonDigits(s[1..]);
        assert s == [s[0]] + s[1..];
        assert AllDigits(s) <==> AllDigits(s[1..]) by {
          assert forall k :: 1 <= k < |s| ==> s[k] == s[1..][k - 1];
        }
      }
    }
  }

  /** Sanitising twice is the same as sanitising once. */
  lemma StripNonDigitsIdempotent(s: string)
    ensures StripNonDigits(StripNonDigits(s)) == StripNonDigits(s)
  {
    StripNonDigitsFixed(StripNonDigits(s));
  }
}
