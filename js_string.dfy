/** The JavaScript string built-ins that the meter-reading client and the
    reading endpoint rely on: String.prototype.trim, split("\n"), join("\n"),
    startsWith, the relational `<` on strings, and decimal digit strings. */
module JsString {

  datatype Option<T> = None | Some(value: T)

  /** WhiteSpace and LineTerminator code points of ECMA-262 (the set that
      trim and parseInt skip). */
  predicate IsWhitespace(c: char) {
    || c == '\t' || c == '\n' || c == '\U{000B}' || c == '\U{000C}' || c == '\r'
    || c == ' ' || c == '\U{00A0}' || c == '\U{1680}'
    || ('\U{2000}' <= c <= '\U{200A}')
    || c == '\U{2028}' || c == '\U{2029}' || c == '\U{202F}' || c == '\U{205F}'
    || c == '\U{3000}' || c == '\U{FEFF}'
  }

  /** The regular-expression class \d: ASCII digits only. */
  predicate IsDigit(c: char) {
    '0' <= c <= '9'
  }

  predicate AllDigits(s: string) {
    forall k :: 0 <= k < |s| ==> IsDigit(s[k])
  }

  predicate NoNewline(s: string) {
    '\n' !in s
  }

  predicate NoNewlines(lines: seq<string>) {
    forall k :: 0 <= k < |lines| ==> NoNewline(lines[k])
  }

  predicate AllWhitespace(s: string) {
    forall k :: 0 <= k < |s| ==> IsWhitespace(s[k])
  }

  // ---------------------------------------------------------------------
  // trim

  function TrimStart(s: string): string {
    if |s| > 0 && IsWhitespace(s[0]) then TrimStart(s[1..]) else s
  }

  function TrimEnd(s: string): string {
    if |s| > 0 && IsWhitespace(s[|s| - 1]) then TrimEnd(s[..|s| - 1]) else s
  }

  /** String.prototype.trim. */
  function Trim(s: string): string {
    TrimEnd(TrimStart(s))
  }

  /** TrimStart removes exactly the leading whitespace. */
  lemma {:induction false} TrimStartSpec(s: string)
    ensures var r := TrimStart(s);
            && |r| <= |s| && r == s[|s| - |r|..]
            && (r == [] || !IsWhitespace(r[0]))
            && AllWhitespace(s[..|s| - |r|])
  {
    if |s| > 0 && IsWhitespace(s[0]) {
      TrimStartSpec(s[1..]);
      var r := TrimStart(s);
      assert s[1..][|s| - 1 - |r|..] == s[|s| - |r|..];
    }
  }

  /** TrimEnd removes exactly the trailing whitespace. */
  lemma {:induction false} TrimEndSpec(s: string)
    ensures var r := TrimEnd(s);
            && |r| <= |s| && r == s[..|r|]
            && (r == [] || !IsWhitespace(r[|r| - 1]))
            && AllWhitespace(s[|r|..])
  {
    if |s| > 0 && IsWhitespace(s[|s| - 1]) {
      TrimEndSpec(s[..|s| - 1]);
      var r := TrimEnd(s);
      assert s[..|s| - 1][..|r|] == s[..|r|];
      assert forall k :: |r| <= k < |s| - 1 ==> s[k] == s[..|s| - 1][|r|..][k - |r|];
    }
  }

  /** Trimming leaves nothing exactly when the text is all whitespace. */
  lemma TrimEmpty(s: string)
    ensures Trim(s) == [] <==> AllWhitespace(s)
  {
    var t := TrimStart(s);
    TrimStartSpec(s);
    TrimEndSpec(t);
    assert t == [] ==> s[..|s|] == s;
    assert TrimEnd(t) == [] ==> t[0..] == t;
  }

  /** `!s.trim()`: the string is empty after trimming. */
  predicate IsBlank(s: string) {
    Trim(s) == []
  }

  /** A non-whitespace character at index k survives trimming of the end. */
  lemma TrimEndKeeps(s: string, k: nat)
    requires k < |s| && !IsWhitespace(s[k])
    ensures k < |TrimEnd(s)| && TrimEnd(s)[..k + 1] == s[..k + 1]
  {
    TrimEndSpec(s);
  }

  /** A line that starts with a non-whitespace character and has another
      one at index k keeps its first k + 1 characters when trimmed. */
  lemma TrimKeepsPrefix(s: string, k: nat)
    requires k < |s| && !IsWhitespace(s[0]) && !IsWhitespace(s[k])
    ensures k < |Trim(s)| && Trim(s)[..k + 1] == s[..k + 1]
  {
    assert TrimStart(s) == s;
    TrimEndKeeps(s, k);
  }

  /** Digits are not whitespace, so a digit string trims to itself. */
  lemma TrimDigits(s: string)
    requires AllDigits(s)
    ensures Trim(s) == s
  {
    if s != [] {
      assert !IsWhitespace(s[0]) && !IsWhitespace(s[|s| - 1]);
    }
  }

  predicate StartsWith(s: string, prefix: string) {
    |prefix| <= |s| && s[..|prefix|] == prefix
  }

  // ---------------------------------------------------------------------
  // split("\n") and join("\n")

  /** String.prototype.split("\n"); "".split("\n") is [""]. */
  function Split(s: string): (lines: seq<string>)
    ensures |lines| >= 1 && NoNewlines(lines)
  {
    if |s| == 0 then [""]
    else if s[0] == '\n' then [""] + Split(s[1..])
    else
      var rest := Split(s[1..]);
      [[s[0]] + rest[0]] + rest[1..]
  }

  /** Array.prototype.join("\n"). */
  function Join(lines: seq<string>): string {
    if |lines| == 0 then ""
    else if |lines| == 1 then lines[0]
    else lines[0] + "\n" + Join(lines[1..])
  }

  lemma {:induction false} SplitPrefix(a: string, t: string)
    requires NoNewline(a)
    ensures Split(a + t) == [a + Split(t)[0]] + Split(t)[1..]
  {
    if |a| > 0 {
      assert (a + t)[1..] == a[1..] + t;
      SplitPrefix(a[1..], t);
      assert [a[0]] + (a[1..] + Split(t)[0]) == a + Split(t)[0];
    } else {
      assert a + t == t;
      assert a + Split(t)[0] == Split(t)[0];
      assert Split(t) == [Split(t)[0]] + Split(t)[1..];
    }
  }

  /** Splitting a joined list of newline-free lines gives the lines back. */
  lemma {:induction false} SplitJoin(lines: seq<string>)
    requires |lines| >= 1 && NoNewlines(lines)
    ensures Split(Join(lines)) == lines
  {
    if |lines| == 1 {
      SplitPrefix(lines[0], "");
      assert lines[0] + "" == lines[0];
    } else {
      var tail := Join(lines[1..]);
      SplitJoin(lines[1..]);
      assert lines[0] + "\n" + tail == lines[0] + ("\n" + tail);
      SplitPrefix(lines[0], "\n" + tail);
      assert ("\n" + tail)[1..] == tail;
      assert lines[0] + "" == lines[0];
      assert lines == [lines[0]] + lines[1..];
    }
  }

  /** Joining the pieces of a split gives the original string back. */
  lemma {:induction false} JoinSplit(s: string)
    ensures Join(Split(s)) == s
  {
    if |s| == 0 {
    } else if s[0] == '\n' {
      JoinSplit(s[1..]);
      assert s == "\n" + s[1..];
    } else {
      var rest := Split(s[1..]);
      JoinSplit(s[1..]);
      var lines := [[s[0]] + rest[0]] + rest[1..];
      if |rest| == 1 {
        assert s == [s[0]] + s[1..];
      } else {
        assert lines[1..] == rest[1..];
        assert Join(rest) == rest[0] + "\n" + Join(rest[1..]);
        assert s == [s[0]] + s[1..];
      }
    }
  }

  /** Every character of every line occurs in the joined text. */
  lemma {:induction false} JoinContains(lines: seq<string>, i: nat, k: nat)
    requires i < |lines| && k < |lines[i]|
    ensures lines[i][k] in Join(lines)
  {
    if |lines| > 1 {
      if i == 0 {
        assert Join(lines)[k] == lines[0][k];
      } else {
        JoinContains(lines[1..], i - 1, k);
        var j :| 0 <= j < |Join(lines[1..])| && Join(lines[1..])[j] == lines[i][k];
        assert Join(lines)[|lines[0]| + 1 + j] == lines[i][k];
      }
    }
  }

  /** A text that contains a non-whitespace character is not blank. */
  lemma NotBlank(s: string, c: char)
    requires c in s && !IsWhitespace(c)
    ensures !IsBlank(s)
  {
    TrimEmpty(s);
  }

  // ---------------------------------------------------------------------
  // The relational operator `<` on strings (ECMA-262 IsLessThan on two
  // strings): lexicographic comparison, a proper prefix being smaller.

  predicate LexLess(a: string, b: string) {
    if |b| == 0 then false
    else if |a| == 0 then true
    else if a[0] != b[0] then a[0] < b[0]
    else LexLess(a[1..], b[1..])
  }

  /** Comparing two strings that start with pieces of equal length: the
      pieces decide unless they are equal. */
  lemma {:induction false} LexLessAppend(p: string, q: string, p': string, q': string)
    requires |p| == |p'|
    ensures LexLess(p + q, p' + q') == if p == p' then LexLess(q, q') else LexLess(p, p')
  {
    if |p| == 0 {
      assert p + q == q && p' + q' == q';
    } else {
      assert (p + q)[0] == p[0] && (p' + q')[0] == p'[0];
      assert (p + q)[1..] == p[1..] + q && (p' + q')[1..] == p'[1..] + q';
      LexLessAppend(p[1..], q, p'[1..], q');
      if p[0] == p'[0] {
        assert p == p' <==> p[1..] == p'[1..] by {
          assert p == [p[0]] + p[1..] && p' == [p'[0]] + p'[1..];
        }
      }
    }
  }

  /** "not less than" (the `>=` of two strings) is transitive. */
  lemma {:induction false} LexNotLessTrans(a: string, b: string, c: string)
    requires !LexLess(b, a) && !LexLess(c, b)
    ensures !LexLess(c, a)
  {
    if |a| > 0 && |c| > 0 && c[0] == a[0] {
      assert b[0] == a[0];
      LexNotLessTrans(a[1..], b[1..], c[1..]);
    }
  }

  /** No string is below itself. */
  lemma {:induction false} LexLessIrreflexive(s: string)
    ensures !LexLess(s, s)
  {
    if |s| > 0 {
      LexLessIrreflexive(s[1..]);
    }
  }

  // ---------------------------------------------------------------------
  // Decimal digit strings

  function Pow10(n: nat): (p: nat)
    ensures p >= 1
  {
    if n == 0 then 1 else 10 * Pow10(n - 1)
  }

  function DigitValue(c: char): (d: nat)
    requires IsDigit(c)
    ensures d <= 9
  {
    (c as int) - ('0' as int)
  }

  function DigitChar(d: nat): (c: char)
    requires d <= 9
    ensures IsDigit(c) && DigitValue(c) == d
  {
    (('0' as int) + d) as char
  }

  /** The value of a digit string read left to right, as parseInt
      accumulates it. */
  function DecimalValue(s: string): (v: nat)
    requires AllDigits(s)
    ensures v < Pow10(|s|)
  {
    if |s| == 0 then 0
    else 10 * DecimalValue(s[..|s| - 1]) + DigitValue(s[|s| - 1])
  }

  /** The leading digit weighs 10^(number of digits after it). */
  lemma {:induction false} DecimalValueFront(c: char, s: string)
    requires IsDigit(c) && AllDigits(s)
    ensures DecimalValue([c] + s) == DigitValue(c) * Pow10(|s|) + DecimalValue(s)
  {
    if |s| == 0 {
      assert ([c] + s)[..0] == [];
    } else {
      var s' := s[..|s| - 1];
      var e := DigitValue(s[|s| - 1]);
      assert ([c] + s)[..|s|] == [c] + s';
      assert ([c] + s)[|s|] == s[|s| - 1];
      DecimalValueFront(c, s');
      var d, p := DigitValue(c), Pow10(|s'|);
      assert DecimalValue([c] + s) == 10 * (d * p + DecimalValue(s')) + e;
      assert DecimalValue(s) == 10 * DecimalValue(s') + e;
      ScaleByTen(d, p);
    }
  }

  lemma ScaleByTen(d: nat, p: nat)
    ensures 10 * (d * p) == d * (10 * p)
  {
  }

  /** A smaller leading digit wins over any tail. */
  lemma LeadingDigitBound(dx: nat, dy: nat, rx: nat, ry: nat, p: nat)
    requires dx < dy && rx < p
    ensures dx * p + rx < dy * p + ry
  {
    MulLeq(dx + 1, dy, p);
  }

  /** For digit strings of the same length, string order is numeric order
      and string equality is numeric equality. */
  lemma {:induction false} DigitsLexNumeric(x: string, y: string)
    requires |x| == |y| && AllDigits(x) && AllDigits(y)
    ensures LexLess(x, y) <==> DecimalValue(x) < DecimalValue(y)
    ensures x == y <==> DecimalValue(x) == DecimalValue(y)
  {
    if |x| > 0 {
      var xr, yr := x[1..], y[1..];
      var p := Pow10(|xr|);
      DecimalValueFront(x[0], xr);
      DecimalValueFront(y[0], yr);
      assert x == [x[0]] + xr && y == [y[0]] + yr;
      DigitsLexNumeric(xr, yr);
      var dx, dy := DigitValue(x[0]), DigitValue(y[0]);
      if dx < dy {
        LeadingDigitBound(dx, dy, DecimalValue(xr), DecimalValue(yr), p);
      } else if dy < dx {
        LeadingDigitBound(dy, dx, DecimalValue(yr), DecimalValue(xr), p);
      }
    }
  }

  lemma MulLeq(a: nat, b: nat, p: nat)
    requires a <= b
    ensures a * p <= b * p
  {
  }

  /** String(n) for a natural number: its shortest decimal spelling. */
  function DecimalString(n: nat): (s: string)
    ensures |s| >= 1 && AllDigits(s) && DecimalValue(s) == n
    ensures |s| == 1 || s[0] != '0'
  {
    if n < 10 then [DigitChar(n)]
    else
      var s := DecimalString(n / 10) + [DigitChar(n % 10)];
      assert s[..|s| - 1] == DecimalString(n / 10);
      s
  }
}
