/** The two validators of the reading endpoint: the date-shape regular
    expression and parseInt, which reads the submitted reading. */
module ReadingValidate {
  import opened JsString

  // ---------------------------------------------------------------------
  // isValidDate: /^\d{4}-\d{2}-\d{2}$/.test(value)

  /** One position of an anchored pattern made of fixed-width atoms. */
  datatype Atom = AnyDigit | Literal(c: char)

  predicate AtomMatches(a: Atom, c: char) {
    match a
    case AnyDigit => IsDigit(c)
    case Literal(l) => c == l
  }

  /** The whole string matches the pattern, atom by atom, with nothing
      before or after (the ^ and $ anchors). */
  predicate FullMatch(p: seq<Atom>, s: string) {
    if p == [] then s == []
    else s != [] && AtomMatches(p[0], s[0]) && FullMatch(p[1..], s[1..])
  }

  /** \d{4}-\d{2}-\d{2} */
  function DatePattern(): (p: seq<Atom>)
    ensures |p| == 10
    ensures forall k :: 0 <= k < 10 ==> p[k] == if k == 4 || k == 7 then Literal('-') else AnyDigit
  {
    [AnyDigit, AnyDigit, AnyDigit, AnyDigit, Literal('-'),
     AnyDigit, AnyDigit, Literal('-'), AnyDigit, AnyDigit]
  }

  predicate IsValidDate(s: string) {
    FullMatch(DatePattern(), s)
  }

  /** An anchored fixed-width pattern matches exactly the strings of its
      length whose every character fits the atom at the same position. */
  lemma {:induction false} FullMatchPositions(p: seq<Atom>, s: string)
    ensures FullMatch(p, s) <==> |s| == |p| && forall k :: 0 <= k < |p| ==> AtomMatches(p[k], s[k])
  {
    if p != [] && s != [] {
      FullMatchPositions(p[1..], s[1..]);
      if |s| == |p| {
        assert forall k :: 1 <= k < |p| ==> p[k] == p[1..][k - 1] && s[k] == s[1..][k - 1];
      }
    }
  }

  /** A valid date is ten characters: '-' at positions 4 and 7 and a
      decimal digit everywhere else; nothing else is valid. */
  lemma IsValidDateShape(s: string)
    ensures IsValidDate(s) <==>
              && |s| == 10 && s[4] == '-' && s[7] == '-'
              && forall k :: 0 <= k < 10 && k != 4 && k != 7 ==> IsDigit(s[k])
  {
    FullMatchPositions(DatePattern(), s);
  }

  // The examples below name their literal through a parameter bound by
  // `requires s == "..."`: the verifier then reasons about one symbol equal
  // to the literal, which keeps each proof small.

  /** Only the shape is checked: a thirteenth month and a 45th day pass. */
  lemma OutOfRangeDateAccepted(s: string)
    requires s == "2024-13-45"
    ensures IsValidDate(s)
  {
    IsValidDateShape(s);
  }

  /** A missing field reaches the regular expression as "undefined", which
      does not match. */
  lemma UndefinedNotADate(s: string)
    requires s == "undefined"
    ensures !IsValidDate(s)
  {
    IsValidDateShape(s);
  }

  function Year(s: string): nat
    requires IsValidDate(s)
  {
    DateParts(s);
    DecimalValue(s[..4])
  }

  function Month(s: string): nat
    requires IsValidDate(s)
  {
    DateParts(s);
    DecimalValue(s[5..7])
  }

  function Day(s: string): nat
    requires IsValidDate(s)
  {
    DateParts(s);
    DecimalValue(s[8..])
  }

  /** Calendar order on (year, month, day), without range checks. */
  predicate DateBefore(a: string, b: string)
    requires IsValidDate(a) && IsValidDate(b)
  {
    || Year(a) < Year(b)
    || (Year(a) == Year(b) && Month(a) < Month(b))
    || (Year(a) == Year(b) && Month(a) == Month(b) && Day(a) < Day(b))
  }

  /** A valid date is its year, month and day digits joined by '-'. */
  lemma DateParts(s: string)
    requires IsValidDate(s)
    ensures |s| == 10 && AllDigits(s[..4]) && AllDigits(s[5..7]) && AllDigits(s[8..])
    ensures s == s[..4] + ("-" + (s[5..7] + ("-" + s[8..])))
  {
    IsValidDateShape(s);
    assert s[4..5] == "-" && s[7..8] == "-";
    assert s == s[..4] + s[4..5] + s[5..7] + s[7..8] + s[8..];
  }

  /** For two strings that pass isValidDate, the plain string `<` is
      calendar order on (year, month, day), and equal strings are equal
      dates. */
  lemma DateOrder(a: string, b: string)
    requires IsValidDate(a) && IsValidDate(b)
    ensures LexLess(a, b) <==> DateBefore(a, b)
    ensures a == b <==> (Year(a) == Year(b) && Month(a) == Month(b) && Day(a) == Day(b))
  {
    DateParts(a);
    DateParts(b);
    var ya, ma, da := a[..4], a[5..7], a[8..];
    var yb, mb, db := b[..4], b[5..7], b[8..];
    DigitsLexNumeric(ya, yb);
    DigitsLexNumeric(ma, mb);
    DigitsLexNumeric(da, db);
    LexLessAppend(ya, "-" + (ma + ("-" + da)), yb, "-" + (mb + ("-" + db)));
    LexLessAppend("-", ma + ("-" + da), "-", mb + ("-" + db));
    LexLessAppend(ma, "-" + da, mb, "-" + db);
    LexLessAppend("-", da, "-", db);
  }

  // ---------------------------------------------------------------------
  // parseReading: Number.parseInt(String(value), 10), null unless finite

  /** String(value) for a field that is a string or missing. */
  function JsToString(value: Option<string>): string {
    if value.Some? then value.value else "undefined"
  }

  /** The longest prefix made of decimal digits. */
  function DigitPrefix(s: string): (z: string)
    ensures AllDigits(z) && StartsWith(s, z)
    ensures |z| < |s| ==> !IsDigit(s[|z|])
  {
    if s != [] && IsDigit(s[0]) then [s[0]] + DigitPrefix(s[1..]) else []
  }

  /** parseInt(s, 10) (section 19.2.5 of ECMA-262): leading white space
      is skipped, a '-' or '+' is taken, then the longest run of decimal
      digits is read and whatever follows is ignored; without a digit the
      result is NaN, modelled as None. */
  function ParseInt(s: string): Option<int> {
    ParseSigned(TrimStart(s))
  }

  /** The steps of parseInt after the white space: the sign, then the
      digits. */
  function ParseSigned(t: string): Option<int> {
    var negative := t != [] && t[0] == '-';
    var u := if t != [] && (t[0] == '-' || t[0] == '+') then t[1..] else t;
    var z := DigitPrefix(u);
    if z == [] then None
    else Some(Signed(negative, DecimalValue(z)))
  }

  function Signed(negative: bool, v: nat): int {
    var i: int := v;
    if negative then -i else i
  }

  /** parseReading: the parsed integer, or None for NaN. */
  function ParseReading(value: Option<string>): Option<int> {
    ParseInt(JsToString(value))
  }

  predicate IsSign(sign: string) {
    sign == "" || sign == "+" || sign == "-"
  }

  /** Skipping leading white space stops at the first other character. */
  lemma {:induction false} TrimStartAfter(ws: string, x: string)
    requires AllWhitespace(ws) && (x == [] || !IsWhitespace(x[0]))
    ensures TrimStart(ws + x) == x
  {
    if ws == [] {
      assert ws + x == x;
    } else {
      assert (ws + x)[1..] == ws[1..] + x;
      TrimStartAfter(ws[1..], x);
    }
  }

  /** The digit prefix of digits followed by a non-digit is those digits. */
  lemma {:induction false} DigitPrefixOf(digits: string, tail: string)
    requires AllDigits(digits) && (tail == [] || !IsDigit(tail[0]))
    ensures DigitPrefix(digits + tail) == digits
  {
    if digits == [] {
      assert digits + tail == tail;
    } else {
      assert (digits + tail)[1..] == digits[1..] + tail;
      DigitPrefixOf(digits[1..], tail);
      assert digits == [digits[0]] + digits[1..];
    }
  }

  /** An optional sign, digits and anything that does not start with a
      digit. */
  lemma ParseSignedSpelled(sign: string, digits: string, tail: string)
    requires IsSign(sign)
    requires digits != [] && AllDigits(digits) && (tail == [] || !IsDigit(tail[0]))
    ensures ParseSigned(sign + (digits + tail)) == Some(Signed(sign == "-", DecimalValue(digits)))
  {
    var rest := digits + tail;
    DigitPrefixOf(digits, tail);
    assert rest[0] == digits[0];
    if sign == "" {
      assert sign + rest == rest;
    } else {
      assert (sign + rest)[0] == sign[0] && (sign + rest)[1..] == rest;
    }
  }

  /** White space, an optional sign, digits and anything that does not
      start with a digit parse to the signed value of the digits. */
  lemma ParseIntSpelled(ws: string, sign: string, digits: string, tail: string)
    requires AllWhitespace(ws) && IsSign(sign)
    requires digits != [] && AllDigits(digits) && (tail == [] || !IsDigit(tail[0]))
    ensures ParseInt(ws + sign + digits + tail)
              == Some(Signed(sign == "-", DecimalValue(digits)))
  {
    var x := sign + (digits + tail);
    assert ws + sign + digits + tail == ws + x;
    assert x[0] == if sign == "" then digits[0] else sign[0];
    TrimStartAfter(ws, x);
    ParseSignedSpelled(sign, digits, tail);
  }

  /** Digits with no white space or sign in front. */
  lemma ParseUnsigned(digits: string, tail: string)
    requires digits != [] && AllDigits(digits) && (tail == [] || !IsDigit(tail[0]))
    ensures ParseInt(digits + tail) == Some(DecimalValue(digits))
  {
    var x := digits + tail;
    assert x[0] == digits[0];
    assert TrimStart(x) == x;
    assert "" + x == x;
    ParseSignedSpelled("", digits, tail);
  }

  /** Every decimal spelling of a natural number, with white space and a
      sign in front and any non-digit text after it, parses back. */
  lemma ParseIntRoundTrip(ws: string, sign: string, n: nat, tail: string)
    requires AllWhitespace(ws) && IsSign(sign) && (tail == [] || !IsDigit(tail[0]))
    ensures ParseInt(ws + sign + DecimalString(n) + tail) == Some(Signed(sign == "-", n))
  {
    ParseIntSpelled(ws, sign, DecimalString(n), tail);
  }

  /** Some decimal digit follows the leading white space and at most one
      sign character. */
  predicate DigitAfterSign(s: string) {
    exists i :: 0 <= i < |s| && IsDigit(s[i])
                && (AllWhitespace(s[..i])
                    || (i >= 1 && (s[i - 1] == '-' || s[i - 1] == '+') && AllWhitespace(s[..i - 1])))
  }

  /** The prefix that parseInt skips ends at the first character that is
      not white space. */
  lemma TrimStartIndex(s: string, i: nat)
    requires i < |s| && !IsWhitespace(s[i]) && AllWhitespace(s[..i])
    ensures TrimStart(s) == s[i..]
  {
    assert s == s[..i] + s[i..];
    TrimStartAfter(s[..i], s[i..]);
  }

  /** parseInt gives NaN exactly when no digit follows the white space and
      the optional sign. */
  lemma ParseIntNone(s: string)
    ensures ParseInt(s) == None <==> !DigitAfterSign(s)
  {
    if DigitAfterSign(s) {
      var i :| 0 <= i < |s| && IsDigit(s[i])
               && (AllWhitespace(s[..i])
                   || (i >= 1 && (s[i - 1] == '-' || s[i - 1] == '+') && AllWhitespace(s[..i - 1])));
      DigitFoundParses(s, i);
    } else if ParseInt(s).Some? {
      ParsedHasDigit(s);
    }
  }

  /** A digit after the white space and optional sign is parsed. */
  lemma DigitFoundParses(s: string, i: nat)
    requires i < |s| && IsDigit(s[i])
    requires AllWhitespace(s[..i])
             || (i >= 1 && (s[i - 1] == '-' || s[i - 1] == '+') && AllWhitespace(s[..i - 1]))
    ensures ParseInt(s).Some?
  {
    var t := TrimStart(s);
    if AllWhitespace(s[..i]) {
      TrimStartIndex(s, i);
      assert t[0] == s[i];
    } else {
      TrimStartIndex(s, i - 1);
      assert t[0] == s[i - 1] && t[1] == s[i];
    }
  }

  /** A parsed number has a digit after the white space and optional
      sign. */
  lemma ParsedHasDigit(s: string)
    requires ParseInt(s).Some?
    ensures DigitAfterSign(s)
  {
    var t := TrimStart(s);
    TrimStartSpec(s);
    var j := |s| - |t|;
    assert t == s[j..] && AllWhitespace(s[..j]);
    var signed := t != [] && (t[0] == '-' || t[0] == '+');
    var u := if signed then t[1..] else t;
    assert u != [] && IsDigit(u[0]);
    if signed {
      assert s[j] == t[0] && s[j + 1] == u[0];
      assert s[..j + 1][..j] == s[..j];
      assert IsDigit(s[j + 1]) && AllWhitespace(s[..j + 1 - 1]);
    } else {
      assert s[j] == u[0];
    }
  }

  /** "12abc" reads as 12: the letters after the digits are ignored. */
  lemma ParseTrailingLetters(s: string)
    requires s == "12abc"
    ensures ParseInt(s) == Some(12)
  {
    assert s == "12" + "abc";
    assert DecimalValue("12") == 12 by {
      assert "12"[..1] == "1";
    }
    ParseUnsigned("12", "abc");
  }

  /** "3.9" reads as 3: parsing stops at the decimal point. */
  lemma ParseStopsAtPoint(s: string)
    requires s == "3.9"
    ensures ParseInt(s) == Some(3)
  {
    assert s == "3" + ".9";
    ParseUnsigned("3", ".9");
  }

  /** A missing reading is null: "undefined" has no digits. */
  lemma MissingReadingIsNull()
    ensures ParseReading(None) == None
  {
    var s := JsToString(None);
    assert TrimStart(s) == s;
  }
}
