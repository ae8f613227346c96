/** The e-mail body of the meter-reading client: the six-line template,
    patching of a labelled line, and the rule that decides between the two
    when the date or the reading changes. */
module AppBody {
  import opened JsString

  const CustomerName := "Andrea Panizza"
  const CustomerAddress := "Via delle cinque giornate 15 piano 1 e 1/2"
  const CustomerCity := "Firenze FI"
  const CustomerCode := "F9C397"

  const DateLabel := "Data:"
  const ReadingLabel := "Lettura:"

  /** `readingValue || '____'`: the placeholder stands in for an empty reading. */
  function SafeReading(reading: string): string {
    if reading == "" then "____" else reading
  }

  function TemplateLines(dateDisplay: string, reading: string): seq<string> {
    [ "Intestatario: " + CustomerName,
      CustomerAddress,
      CustomerCity,
      "Codice Utente: " + CustomerCode,
      "Data: " + dateDisplay,
      "Lettura: " + SafeReading(reading) ]
  }

  /** buildBodyTemplate. */
  function BodyTemplate(dateDisplay: string, reading: string): string {
    Join(TemplateLines(dateDisplay, reading))
  }

  lemma TemplateLinesNoNewline(dateDisplay: string, reading: string)
    requires NoNewline(dateDisplay) && NoNewline(reading)
    ensures NoNewlines(TemplateLines(dateDisplay, reading))
  {
    var lines := TemplateLines(dateDisplay, reading);
    CustomerLinesNoNewline();
    assert NoNewline(lines[5]) by { assert NoNewline(SafeReading(reading)); }
  }

  /** The customer's four fixed lines hold no line break. */
  lemma CustomerLinesNoNewline()
    ensures NoNewline("Intestatario: " + CustomerName) && NoNewline(CustomerAddress)
    ensures NoNewline(CustomerCity) && NoNewline("Codice Utente: " + CustomerCode)
  {
  }

  /** The template reads back as six lines: the customer's four, then the
      date line, then the reading line with its placeholder when empty. */
  lemma BodyTemplateLines(dateDisplay: string, reading: string)
    requires NoNewline(dateDisplay) && NoNewline(reading)
    ensures var lines := Split(BodyTemplate(dateDisplay, reading));
            && |lines| == 6
            && lines[0] == "Intestatario: Andrea Panizza"
            && lines[1] == "Via delle cinque giornate 15 piano 1 e 1/2"
            && lines[2] == "Firenze FI"
            && lines[3] == "Codice Utente: F9C397"
            && lines[4] == "Data: " + dateDisplay
            && lines[5] == (if reading == "" then "Lettura: ____" else "Lettura: " + reading)
  {
    TemplateLinesNoNewline(dateDisplay, reading);
    SplitJoin(TemplateLines(dateDisplay, reading));
  }

  /** The template is never blank. */
  lemma BodyTemplateNotBlank(dateDisplay: string, reading: string)
    ensures !IsBlank(BodyTemplate(dateDisplay, reading))
  {
    var ls := TemplateLines(dateDisplay, reading);
    JoinContains(ls, 2, 0);
    NotBlank(BodyTemplate(dateDisplay, reading), 'F');
  }

  // ---------------------------------------------------------------------
  // replaceLine

  /** line.trim().startsWith(label) */
  predicate Labelled(line: string, lineLabel: string) {
    StartsWith(Trim(line), lineLabel)
  }

  /** lines.findIndex(line => line.trim().startsWith(label)): the first
      labelled line, or -1. */
  function FindLabelled(lines: seq<string>, lineLabel: string): (index: int)
    ensures -1 <= index < |lines|
    ensures index >= 0 ==> Labelled(lines[index], lineLabel)
    ensures forall k :: 0 <= k < |lines| && (index < 0 || k < index) ==> !Labelled(lines[k], lineLabel)
  {
    if lines == [] then -1
    else if Labelled(lines[0], lineLabel) then 0
    else
      var i := FindLabelled(lines[1..], lineLabel);
      assert forall k :: 1 <= k < |lines| ==> lines[k] == lines[1..][k - 1];
      if i < 0 then -1 else i + 1
  }

  /** A labelled line with no labelled line before it is what findIndex
      returns. */
  lemma FindLabelledAt(lines: seq<string>, lineLabel: string, j: nat)
    requires j < |lines| && Labelled(lines[j], lineLabel)
    requires forall k :: 0 <= k < j ==> !Labelled(lines[k], lineLabel)
    ensures FindLabelled(lines, lineLabel) == j
  {
  }

  function NewLine(lineLabel: string, value: string): string {
    lineLabel + " " + value
  }

  /** The value replaceLine returns. */
  function ReplacedBody(body: string, lineLabel: string, value: string): (r: string)
    ensures r == "" <==> IsBlank(body)
  {
    if IsBlank(body) then ""
    else
      var lines := Split(body);
      var index := FindLabelled(lines, lineLabel);
      var next := NewLine(lineLabel, value);
      var r := Join(if index >= 0 then lines[index := next] else lines + [next]);
      assert r != "" by {
        if |lines| == 1 && index >= 0 {
          assert r == next;
        }
      }
      r
  }

  /** The findIndex loop: the index of the first labelled line, or -1. */
  method FindLabelledIndex(lines: seq<string>, lineLabel: string) returns (index: int)
    ensures index == FindLabelled(lines, lineLabel)
  {
    var i := 0;
    while i < |lines| && !Labelled(lines[i], lineLabel)
      invariant 0 <= i <= |lines|
      invariant forall k :: 0 <= k < i ==> !Labelled(lines[k], lineLabel)
    {
      i := i + 1;
    }
    if i < |lines| {
      FindLabelledAt(lines, lineLabel, i);
      index := i;
    } else {
      index := -1;
    }
  }

  /** replaceLine: the first labelled line is rewritten, or a new line is
      appended; a blank body yields "". */
  method ReplaceLine(body: string, lineLabel: string, value: string) returns (r: string)
    ensures r == ReplacedBody(body, lineLabel, value)
  {
    if IsBlank(body) {
      return "";
    }
    var lines := Split(body);
    var index := FindLabelledIndex(lines, lineLabel);
    var nextLine := lineLabel + " " + value;
    if index >= 0 {
      lines := lines[index := nextLine];
    } else {
      lines := lines + [nextLine];
    }
    r := Join(lines);
  }

  /** A label that replaceLine can find again after writing it. */
  predicate WellFormedLabel(lineLabel: string) {
    && |lineLabel| > 0 && NoNewline(lineLabel)
    && !IsWhitespace(lineLabel[0]) && !IsWhitespace(lineLabel[|lineLabel| - 1])
  }

  lemma NewLineNoNewline(lineLabel: string, value: string)
    requires NoNewline(lineLabel) && NoNewline(value)
    ensures NoNewline(NewLine(lineLabel, value))
  {
  }

  /** The line replaceLine writes is itself labelled. */
  lemma NewLineLabelled(lineLabel: string, value: string)
    requires WellFormedLabel(lineLabel)
    ensures Labelled(NewLine(lineLabel, value), lineLabel)
  {
    var next := NewLine(lineLabel, value);
    TrimKeepsPrefix(next, |lineLabel| - 1);
    assert next[..|lineLabel|] == lineLabel;
  }

  /** When some line is labelled, only the first such line changes, to
      label + " " + value, and the number of lines stays the same. */
  lemma ReplaceLineFound(body: string, lineLabel: string, value: string, i: nat)
    requires !IsBlank(body) && NoNewline(lineLabel) && NoNewline(value)
    requires i < |Split(body)| && Labelled(Split(body)[i], lineLabel)
    requires forall k :: 0 <= k < i ==> !Labelled(Split(body)[k], lineLabel)
    ensures var lines, after := Split(body), Split(ReplacedBody(body, lineLabel, value));
            && |after| == |lines|
            && after[i] == lineLabel + " " + value
            && forall k :: 0 <= k < |lines| && k != i ==> after[k] == lines[k]
  {
    var lines := Split(body);
    var next := NewLine(lineLabel, value);
    NewLineNoNewline(lineLabel, value);
    assert FindLabelled(lines, lineLabel) == i;
    SplitJoin(lines[i := next]);
  }

  /** When no line is labelled, label + " " + value is appended as a new
      last line and every earlier line is kept. */
  lemma ReplaceLineAppends(body: string, lineLabel: string, value: string)
    requires !IsBlank(body) && NoNewline(lineLabel) && NoNewline(value)
    requires forall k :: 0 <= k < |Split(body)| ==> !Labelled(Split(body)[k], lineLabel)
    ensures Split(ReplacedBody(body, lineLabel, value)) == Split(body) + [lineLabel + " " + value]
  {
    var lines := Split(body);
    NewLineNoNewline(lineLabel, value);
    SplitJoin(lines + [NewLine(lineLabel, value)]);
  }

  /** The lines after replaceLine, in terms of the lines before. */
  lemma ReplacedLines(body: string, lineLabel: string, value: string)
    requires !IsBlank(body) && NoNewline(lineLabel) && NoNewline(value)
    ensures var lines, index := Split(body), FindLabelled(Split(body), lineLabel);
            Split(ReplacedBody(body, lineLabel, value))
              == if index >= 0 then lines[index := NewLine(lineLabel, value)]
                 else lines + [NewLine(lineLabel, value)]
  {
    var lines := Split(body);
    var index := FindLabelled(lines, lineLabel);
    NewLineNoNewline(lineLabel, value);
    if index >= 0 {
      SplitJoin(lines[index := NewLine(lineLabel, value)]);
    } else {
      SplitJoin(lines + [NewLine(lineLabel, value)]);
    }
  }


  /** A body whose first labelled line already reads label + " " + value
      is left as it is. */
  lemma ReplaceLineFixedPoint(body: string, lineLabel: string, value: string, j: nat)
    requires !IsBlank(body)
    requires j < |Split(body)| && Split(body)[j] == NewLine(lineLabel, value)
    requires Labelled(Split(body)[j], lineLabel)
    requires forall k :: 0 <= k < j ==> !Labelled(Split(body)[k], lineLabel)
    ensures ReplacedBody(body, lineLabel, value) == body
  {
    var lines := Split(body);
    FindLabelledAt(lines, lineLabel, j);
    assert lines[j := NewLine(lineLabel, value)] == lines;
    JoinSplit(body);
  }

  /** Patching the same label with the same value twice changes nothing
      the second time. */
  lemma ReplaceLineIdempotent(body: string, lineLabel: string, value: string)
    requires WellFormedLabel(lineLabel) && NoNewline(value)
    ensures var once := ReplacedBody(body, lineLabel, value);
            ReplacedBody(once, lineLabel, value) == once
  {
    var once := ReplacedBody(body, lineLabel, value);
    if !IsBlank(body) {
      var lines := Split(body);
      var index := FindLabelled(lines, lineLabel);
      var next := NewLine(lineLabel, value);
      var after := Split(once);
      var j := if index >= 0 then index else |lines|;
      assert j < |after| && after[j] == next && forall k :: 0 <= k < j ==> after[k] == lines[k] by {
        ReplacedLines(body, lineLabel, value);
      }
      assert Labelled(after[j], lineLabel) by {
        NewLineLabelled(lineLabel, value);
      }
      assert !IsBlank(once) by {
        JoinSplit(once);
        JoinContains(after, j, 0);
        NotBlank(once, next[0]);
      }
      ReplaceLineFixedPoint(once, lineLabel, value, j);
    }
  }

  // ---------------------------------------------------------------------
  // updateBody

  /** The body that updateBody leaves in the field: the fresh template when
      forced or untouched, otherwise the user's text with its date and
      reading lines patched, falling back to the template for a blank body. */
  function UpdatedBody(body: string, touched: bool, force: bool, dateDisplay: string, reading: string): string {
    if force || !touched then BodyTemplate(dateDisplay, reading)
    else
      var updated := ReplacedBody(body, DateLabel, dateDisplay);
      var updated' := ReplacedBody(updated, ReadingLabel, SafeReading(reading));
      if updated' == "" then BodyTemplate(dateDisplay, reading) else updated'
  }

  /** Forced or untouched: the body becomes the template. A touched body
      that is blank also becomes the template. */
  lemma UpdatedBodyTemplate(body: string, touched: bool, force: bool, dateDisplay: string, reading: string)
    ensures force || !touched || IsBlank(body) ==>
              UpdatedBody(body, touched, force, dateDisplay, reading) == BodyTemplate(dateDisplay, reading)
  {
  }

  /** Where replaceLine writes: the first labelled line, or one past the
      last line when none is labelled. */
  function WriteIndex(lines: seq<string>, lineLabel: string): (at: nat)
    ensures at <= |lines|
    ensures at < |lines| ==> Labelled(lines[at], lineLabel)
    ensures forall k :: 0 <= k < at ==> !Labelled(lines[k], lineLabel)
  {
    var i := FindLabelled(lines, lineLabel);
    if i >= 0 then i else |lines|
  }

  /** One patch: the new line sits at the write index, every other old line
      is kept, at most one line is added, and the result is not blank. */
  lemma PatchStep(body: string, lineLabel: string, value: string)
    requires !IsBlank(body) && WellFormedLabel(lineLabel) && NoNewline(value)
    ensures var lines, at := Split(body), WriteIndex(Split(body), lineLabel);
            var patched := ReplacedBody(body, lineLabel, value);
            var after := Split(patched);
            && !IsBlank(patched)
            && at < |after| && after[at] == NewLine(lineLabel, value)
            && |lines| <= |after| <= |lines| + 1
            && forall k :: 0 <= k < |lines| && k != at ==> after[k] == lines[k]
  {
    var patched := ReplacedBody(body, lineLabel, value);
    var after := Split(patched);
    var at := WriteIndex(Split(body), lineLabel);
    ReplacedLines(body, lineLabel, value);
    JoinSplit(patched);
    JoinContains(after, at, 0);
    NotBlank(patched, NewLine(lineLabel, value)[0]);
  }

  /** A written line does not carry a label that begins differently. */
  lemma NewLineNotLabelled(lineLabel: string, value: string, other: string)
    requires WellFormedLabel(lineLabel) && other != [] && lineLabel[0] != other[0]
    ensures !Labelled(NewLine(lineLabel, value), other)
  {
    TrimKeepsPrefix(NewLine(lineLabel, value), |lineLabel| - 1);
  }

  /** Patching two labels that begin differently, one after the other:
      both new lines are present afterwards and every line that carried
      neither label is kept in place. */
  lemma PatchTwoLabels(body: string, label1: string, value1: string, label2: string, value2: string)
    requires !IsBlank(body) && WellFormedLabel(label1) && WellFormedLabel(label2)
    requires NoNewline(value1) && NoNewline(value2) && label1[0] != label2[0]
    ensures var before := Split(body);
            var patched := ReplacedBody(ReplacedBody(body, label1, value1), label2, value2);
            var after := Split(patched);
            && patched != ""
            && (exists i :: 0 <= i < |after| && after[i] == NewLine(label1, value1))
            && (exists j :: 0 <= j < |after| && after[j] == NewLine(label2, value2))
            && |before| <= |after| <= |before| + 2
            && forall k :: 0 <= k < |before| && !Labelled(before[k], label1) && !Labelled(before[k], label2)
                 ==> after[k] == before[k]
  {
    var before := Split(body);
    var u1 := ReplacedBody(body, label1, value1);
    var mid := Split(u1);
    var line1 := NewLine(label1, value1);
    var at1 := WriteIndex(before, label1);
    PatchStep(body, label1, value1);
    var u2 := ReplacedBody(u1, label2, value2);
    var after := Split(u2);
    var line2 := NewLine(label2, value2);
    var at2 := WriteIndex(mid, label2);
    PatchStep(u1, label2, value2);
    NewLineNotLabelled(label1, value1, label2);
    assert at1 != at2;
    assert 0 <= at1 < |after| && after[at1] == line1;
    assert 0 <= at2 < |after| && after[at2] == line2;
    forall k | 0 <= k < |before| && !Labelled(before[k], label1) && !Labelled(before[k], label2)
      ensures after[k] == before[k]
    {
      assert k != at1 && mid[k] == before[k];
      assert k != at2;
    }
  }

  /** A touched, non-blank body keeps its text except for the date and
      reading lines: afterwards it holds the current date line and reading
      line, and every line that carried neither label stays where it was. */
  lemma UpdatedBodyPatches(body: string, dateDisplay: string, reading: string)
    requires !IsBlank(body) && NoNewline(dateDisplay) && NoNewline(reading)
    ensures var before, after := Split(body), Split(UpdatedBody(body, true, false, dateDisplay, reading));
            && (exists i :: 0 <= i < |after| && after[i] == "Data: " + dateDisplay)
            && (exists j :: 0 <= j < |after| && after[j] == "Lettura: " + SafeReading(reading))
            && |before| <= |after| <= |before| + 2
            && forall k :: 0 <= k < |before| && !Labelled(before[k], DateLabel) && !Labelled(before[k], ReadingLabel)
                 ==> after[k] == before[k]
  {
    var safe := SafeReading(reading);
    assert NoNewline(safe);
    LabelFacts(dateDisplay, safe);
    PatchTwoLabels(body, DateLabel, dateDisplay, ReadingLabel, safe);
  }

  /** The two labels updateBody patches are well formed, begin with
      different characters, and write the template's own lines. */
  lemma LabelFacts(dateDisplay: string, reading: string)
    ensures WellFormedLabel(DateLabel) && WellFormedLabel(ReadingLabel) && DateLabel[0] != ReadingLabel[0]
    ensures NewLine(DateLabel, dateDisplay) == "Data: " + dateDisplay
    ensures NewLine(ReadingLabel, reading) == "Lettura: " + reading
  {
    assert DateLabel + " " == "Data: ";
    assert ReadingLabel + " " == "Lettura: ";
  }
}
