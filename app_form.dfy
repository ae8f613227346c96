/** The state of the meter-reading page: the reading, body and subject
    fields, the two "touched" flags, and the handlers that change them. */
module AppForm {
  import opened JsString
  import opened AppReading
  import opened AppBody

  const DefaultSubject := "Lettura acqua da F9C397"

  /** The form. `dateDisplay` is the date field as formatItalianDate renders
      it, which this model takes as given. */
  class MailForm {
    var reading: string
    var dateDisplay: string
    var body: string
    var bodyTouched: bool
    var subject: string
    var subjectTouched: bool

    /** What the handlers keep true: the reading field only ever holds
        digits, an untouched body is the template for the current date and
        reading, and an untouched subject is the default one. */
    predicate Valid()
      reads this
    {
      && AllDigits(reading)
      && (!bodyTouched ==> body == BodyTemplate(dateDisplay, reading))
      && (!subjectTouched ==> subject == DefaultSubject)
    }

    /** init, with today's date supplied by the caller. */
    constructor (today: string)
      ensures Valid()
      ensures reading == "" && dateDisplay == today
      ensures body == BodyTemplate(today, "") && !bodyTouched
      ensures subject == DefaultSubject && !subjectTouched
    {
      reading := "";
      dateDisplay := today;
      body := "";
      bodyTouched := false;
      subject := "";
      subjectTouched := false;
      new;
      UpdateSubject(true);
      UpdateBody(true);
      TrimDigits("");
    }

    /** updateSubject: the default subject unless the user has edited it. */
    method UpdateSubject(force: bool)
      modifies this
      ensures subject == (if force || !old(subjectTouched) then DefaultSubject else old(subject))
      ensures subjectTouched == (old(subjectTouched) && !force)
      ensures reading == old(reading) && dateDisplay == old(dateDisplay)
      ensures body == old(body) && bodyTouched == old(bodyTouched)
      ensures old(Valid()) ==> Valid()
    {
      if force || !subjectTouched {
        subject := DefaultSubject;
        subjectTouched := false;
      }
    }

    /** updateBody: regenerate when forced or untouched, otherwise patch the
        date and reading lines of the user's text. */
    method UpdateBody(force: bool)
      modifies this
      ensures body == UpdatedBody(old(body), old(bodyTouched), force, dateDisplay, Trim(reading))
      ensures bodyTouched == (old(bodyTouched) && !force)
      ensures reading == old(reading) && dateDisplay == old(dateDisplay)
      ensures subject == old(subject) && subjectTouched == old(subjectTouched)
    {
      var readingValue := Trim(reading);
      if force || !bodyTouched {
        body := BodyTemplate(dateDisplay, readingValue);
        bodyTouched := false;
      } else {
        var updated := body;
        updated := ReplaceLine(updated, DateLabel, dateDisplay);
        updated := ReplaceLine(updated, ReadingLabel, SafeReading(readingValue));
        body := if updated != "" then updated else BodyTemplate(dateDisplay, readingValue);
      }
    }

    /** The reading field's input handler: non-digits are dropped, then the
        body follows. */
    method OnReadingInput(typed: string)
      requires Valid()
      modifies this
      ensures reading == StripNonDigits(typed)
      ensures body == UpdatedBody(old(body), old(bodyTouched), false, dateDisplay, reading)
      ensures bodyTouched == old(bodyTouched) && dateDisplay == old(dateDisplay)
      ensures subject == old(subject) && subjectTouched == old(subjectTouched)
      ensures Valid()
    {
      reading := typed;
      var sanitized := StripNonDigits(reading);
      if sanitized != reading {
        reading := sanitized;
      }
      StripNonDigitsFixed(typed);
      TrimDigits(reading);
      UpdateBody(false);
    }

    /** The date field changing to the date rendered as `newDate`: the
        body follows. */
    method OnDateChange(newDate: string)
      requires Valid()
      modifies this
      ensures dateDisplay == newDate && reading == old(reading)
      ensures body == UpdatedBody(old(body), old(bodyTouched), false, newDate, reading)
      ensures bodyTouched == old(bodyTouched)
      ensures subject == old(subject) && subjectTouched == old(subjectTouched)
      ensures Valid()
    {
      dateDisplay := newDate;
      TrimDigits(reading);
      UpdateBody(false);
    }

    /** The reading field losing focus: the body is brought up to date. */
    method OnReadingBlur()
      requires Valid()
      modifies this
      ensures body == UpdatedBody(old(body), old(bodyTouched), false, dateDisplay, reading)
      ensures bodyTouched == old(bodyTouched)
      ensures reading == old(reading) && dateDisplay == old(dateDisplay)
      ensures subject == old(subject) && subjectTouched == old(subjectTouched)
      ensures Valid()
    {
      TrimDigits(reading);
      UpdateBody(false);
    }

    /** The body field's input handler: the user's text is kept and the
        body counts as touched from now on. */
    method OnBodyInput(typed: string)
      requires Valid()
      modifies this
      ensures body == typed && bodyTouched
      ensures reading == old(reading) && dateDisplay == old(dateDisplay)
      ensures subject == old(subject) && subjectTouched == old(subjectTouched)
      ensures Valid()
    {
      body := typed;
      bodyTouched := true;
    }

    /** The subject field's input handler. */
    method OnSubjectInput(typed: string)
      requires Valid()
      modifies this
      ensures subject == typed && subjectTouched
      ensures reading == old(reading) && dateDisplay == old(dateDisplay)
      ensures body == old(body) && bodyTouched == old(bodyTouched)
      ensures Valid()
    {
      subject := typed;
      subjectTouched := true;
    }

    /** The regenerate button: both flags are cleared and both fields go
        back to their generated text, discarding the user's edits. */
    method OnRegenerate()
      requires Valid()
      modifies this
      ensures body == BodyTemplate(dateDisplay, reading) && !bodyTouched
      ensures subject == DefaultSubject && !subjectTouched
      ensures reading == old(reading) && dateDisplay == old(dateDisplay)
      ensures Valid()
    {
      bodyTouched := false;
      subjectTouched := false;
      UpdateSubject(true);
      UpdateBody(true);
      TrimDigits(reading);
    }

    /** The end of the OCR handler: `data.text || ''` goes through
        extractReading; a detected reading replaces the field and the body
        follows, and nothing changes otherwise. */
    method OnOcrText(text: Option<string>) returns (detected: string)
      requires Valid()
      modifies this
      ensures detected == ExtractReading(if text.Some? then text.value else "")
      ensures detected != "" ==> reading == detected
                                 && body == UpdatedBody(old(body), old(bodyTouched), false, dateDisplay, detected)
      ensures detected == "" ==> reading == old(reading) && body == old(body)
      ensures bodyTouched == old(bodyTouched) && dateDisplay == old(dateDisplay)
      ensures subject == old(subject) && subjectTouched == old(subjectTouched)
      ensures Valid()
    {
      detected := ExtractReading(if text.Some? then text.value else "");
      if detected != "" {
        reading := detected;
        TrimDigits(reading);
        UpdateBody(false);
      }
    }
  }
}
