/** The reading endpoint: the order of its checks, the conflict rule, and
    the per-meter upsert, over a table from meter code to the last saved
    reading. */
module ReadingHandler {
  import opened JsString
  import opened ReadingValidate

  /** The last saved reading of one meter. */
  datatype Entry = Entry(reading: int, readingDate: string)

  /** meter_readings, keyed by the trimmed meter code. */
  type Table = map<string, Entry>

  /** A request whose body is already parsed. Each field is a string or
      missing; `queryMeterCode` is the query-string parameter of a GET. */
  datatype Request = Request(
    httpMethod: string,
    queryMeterCode: Option<string>,
    meterCode: Option<string>,
    reading: Option<string>,
    readingDate: Option<string>)

  /** A row as the endpoint returns it. */
  datatype Row = Row(meterCode: string, reading: int, readingDate: string)

  /** The JSON object sent back. */
  datatype Payload =
    | ErrorMessage(error: string)
    | ConflictMessage(error: string, message: string)
    | RowData(data: Option<Row>)

  datatype Response = Response(status: nat, payload: Payload)

  /** The response, and the table as the request leaves it. */
  datatype Outcome = Outcome(response: Response, table: Table)

  const MethodNotAllowed := "Method not allowed"
  const MeterCodeRequired := "meterCode is required"
  const BadDate := "readingDate must be YYYY-MM-DD"
  const BadReading := "reading must be a positive integer"
  const StaleDate := "stale_date"
  const StaleDateMessage := "Reading date is earlier than the last saved reading."
  const ReadingDecrease := "reading_decrease"
  const ReadingDecreaseMessage := "Reading decreased compared to the last saved reading."

  /** `(value || '').trim()` for a string field that may be missing. */
  function TrimmedOrEmpty(value: Option<string>): string {
    Trim(if value.Some? then value.value else "")
  }

  /** maybeSingle() on meter_code: the row, or null. */
  function Lookup(table: Table, code: string): (row: Option<Row>)
    ensures row.Some? <==> code in table
    ensures row.Some? ==> row.value == Row(code, table[code].reading, table[code].readingDate)
  {
    if code in table then Some(Row(code, table[code].reading, table[code].readingDate)) else None
  }

  /** The handler, one request at a time. */
  function Respond(table: Table, req: Request): (out: Outcome)
    ensures out.response.status in {200, 400, 405, 409}
    ensures out.response.status != 200 ==> out.table == table
  {
    if req.httpMethod != "GET" && req.httpMethod != "POST" then
      Outcome(Response(405, ErrorMessage(MethodNotAllowed)), table)
    else if req.httpMethod == "GET" then RespondGet(table, req)
    else RespondPost(table, req)
  }

  /** A GET: the row of the trimmed meter code, or null. */
  function RespondGet(table: Table, req: Request): (out: Outcome)
    ensures out.table == table
    ensures out.response.status in {200, 400}
  {
    var code := TrimmedOrEmpty(req.queryMeterCode);
    if code == "" then Outcome(Response(400, ErrorMessage(MeterCodeRequired)), table)
    else Outcome(Response(200, RowData(Lookup(table, code))), table)
  }

  /** A POST: the three checks, the conflict rule, then the upsert. The
      second conflict test keeps its redundant `readingDate >= stored date`
      conjunct. */
  function RespondPost(table: Table, req: Request): (out: Outcome)
    ensures out.response.status in {200, 400, 409}
    ensures out.response.status != 200 ==> out.table == table
  {
    var code := TrimmedOrEmpty(req.meterCode);
    var readingDate := JsToString(req.readingDate);
    var reading := ParseReading(req.reading);
    if code == "" then Outcome(Response(400, ErrorMessage(MeterCodeRequired)), table)
    else if !IsValidDate(readingDate) then Outcome(Response(400, ErrorMessage(BadDate)), table)
    else if reading.None? || reading.value < 0 then Outcome(Response(400, ErrorMessage(BadReading)), table)
    else if code in table && LexLess(readingDate, table[code].readingDate) then
      Outcome(Response(409, ConflictMessage(StaleDate, StaleDateMessage)), table)
    else if code in table && !LexLess(readingDate, table[code].readingDate)
            && reading.value < table[code].reading then
      Outcome(Response(409, ConflictMessage(ReadingDecrease, ReadingDecreaseMessage)), table)
    else
      Outcome(Response(200, RowData(Some(Row(code, reading.value, readingDate)))),
              table[code := Entry(reading.value, readingDate)])
  }

  /** The store the endpoint writes to. */
  class ReadingStore {
    var table: Table

    constructor ()
      ensures table == map[]
    {
      table := map[];
    }

    /** The handler's body: each check answers and returns early, and only
        a request that passes all of them reaches the upsert. */
    method Handle(req: Request) returns (res: Response)
      modifies this
      ensures res == Respond(old(table), req).response
      ensures table == Respond(old(table), req).table
    {
      if req.httpMethod != "GET" && req.httpMethod != "POST" {
        return Response(405, ErrorMessage(MethodNotAllowed));
      }
      if req.httpMethod == "GET" {
        var code := TrimmedOrEmpty(req.queryMeterCode);
        if code == "" {
          return Response(400, ErrorMessage(MeterCodeRequired));
        }
        return Response(200, RowData(Lookup(table, code)));
      }
      var code := TrimmedOrEmpty(req.meterCode);
      var readingDate := JsToString(req.readingDate);
      var reading := ParseReading(req.reading);
      if code == "" {
        return Response(400, ErrorMessage(MeterCodeRequired));
      }
      if !IsValidDate(readingDate) {
        return Response(400, ErrorMessage(BadDate));
      }
      if reading.None? || reading.value < 0 {
        return Response(400, ErrorMessage(BadReading));
      }
      if code in table {
        var existing := table[code];
        if LexLess(readingDate, existing.readingDate) {
          return Response(409, ConflictMessage(StaleDate, StaleDateMessage));
        }
        if !LexLess(readingDate, existing.readingDate) && reading.value < existing.reading {
          return Response(409, ConflictMessage(ReadingDecrease, ReadingDecreaseMessage));
        }
      }
      table := table[code := Entry(reading.value, readingDate)];
      res := Response(200, RowData(Some(Row(code, reading.value, readingDate))));
    }
  }

  // ---------------------------------------------------------------------
  // Properties of one request

  /** Any method other than GET or POST is refused before the table is
      looked at. */
  lemma OtherMethodRefused(table: Table, req: Request)
    requires req.httpMethod != "GET" && req.httpMethod != "POST"
    ensures Respond(table, req) == Outcome(Response(405, ErrorMessage(MethodNotAllowed)), table)
  {
  }

  /** A GET never changes the table; it answers 400 exactly when the
      trimmed meter code is blank, and otherwise 200 with that meter's row
      or null. */
  lemma GetAnswers(table: Table, req: Request)
    requires req.httpMethod == "GET"
    ensures var out, code := Respond(table, req), TrimmedOrEmpty(req.queryMeterCode);
            && out.table == table
            && (out.response.status == 400 <==> code == "")
            && (code != "" ==> out.response == Response(200, RowData(Lookup(table, code))))
  {
  }

  /** POST validation runs in a fixed order and the first failing check
      answers: a blank meter code, then the date shape, then the reading. */
  lemma PostValidationOrder(table: Table, req: Request)
    requires req.httpMethod == "POST"
    ensures var out, code := Respond(table, req), TrimmedOrEmpty(req.meterCode);
            var date, reading := JsToString(req.readingDate), ParseReading(req.reading);
            && (code == "" ==> out.response == Response(400, ErrorMessage(MeterCodeRequired)))
            && (code != "" && !IsValidDate(date) ==> out.response == Response(400, ErrorMessage(BadDate)))
            && (code != "" && IsValidDate(date) && (reading.None? || reading.value < 0) ==>
                  out.response == Response(400, ErrorMessage(BadReading)))
            && (out.response.status == 400 <==>
                  code == "" || !IsValidDate(date) || reading.None? || reading.value < 0)
  {
  }

  /** A POST that passes validation. */
  predicate ValidPost(req: Request) {
    && req.httpMethod == "POST"
    && TrimmedOrEmpty(req.meterCode) != ""
    && IsValidDate(JsToString(req.readingDate))
    && ParseReading(req.reading).Some? && ParseReading(req.reading).value >= 0
  }

  /** The conflict rule for a valid POST: an earlier date than the saved one
      is stale_date whatever the reading; otherwise a smaller reading is
      reading_decrease; otherwise, and always for a new meter, it is saved. */
  lemma ConflictRule(table: Table, req: Request)
    requires ValidPost(req)
    ensures var out, code := Respond(table, req), TrimmedOrEmpty(req.meterCode);
            var date, reading := JsToString(req.readingDate), ParseReading(req.reading).value;
            && (code !in table ==> out.response.status == 200)
            && (code in table && LexLess(date, table[code].readingDate) ==>
                  out.response == Response(409, ConflictMessage(StaleDate, StaleDateMessage)))
            && (code in table && !LexLess(date, table[code].readingDate) && reading < table[code].reading ==>
                  out.response == Response(409, ConflictMessage(ReadingDecrease, ReadingDecreaseMessage)))
            && (out.response.status == 200 <==>
                  code !in table
                  || (!LexLess(date, table[code].readingDate) && reading >= table[code].reading))
  {
  }

  /** Re-sending the saved date and reading is accepted. */
  lemma SameReadingAccepted(table: Table, req: Request)
    requires ValidPost(req)
    requires var code := TrimmedOrEmpty(req.meterCode);
             code in table && table[code] == Entry(ParseReading(req.reading).value, JsToString(req.readingDate))
    ensures Respond(table, req).response.status == 200
  {
    LexLessIrreflexive(JsToString(req.readingDate));
    ConflictRule(table, req);
  }

  /** An accepted POST writes the row for the trimmed meter code and no
      other; an accepted GET and every refused request write nothing. */
  lemma UpsertOnlyTouchesItsMeter(table: Table, req: Request)
    ensures var out := Respond(table, req);
            && (out.response.status != 200 || req.httpMethod != "POST" ==> out.table == table)
            && (out.response.status == 200 && req.httpMethod == "POST" ==>
                  && ValidPost(req)
                  && out.table == table[TrimmedOrEmpty(req.meterCode) :=
                                   Entry(ParseReading(req.reading).value, JsToString(req.readingDate))]
                  && out.response.payload == RowData(Lookup(out.table, TrimmedOrEmpty(req.meterCode))))
  {
  }

  // ---------------------------------------------------------------------
  // Invariants over a sequence of requests

  /** Every saved row has a non-empty trimmed meter code as its key, a date
      of the right shape and a non-negative reading. */
  predicate TableValid(table: Table) {
    forall code :: code in table ==>
      && code != "" && IsValidDate(table[code].readingDate) && table[code].reading >= 0
  }

  /** From `before` to `after` no meter disappears and no meter's saved date
      or reading goes down. */
  predicate NoDecrease(before: Table, after: Table) {
    forall code :: code in before ==>
      && code in after
      && !LexLess(after[code].readingDate, before[code].readingDate)
      && after[code].reading >= before[code].reading
  }

  /** One request keeps the table valid and never lowers a saved row. */
  lemma RespondKeepsInvariants(table: Table, req: Request)
    requires TableValid(table)
    ensures TableValid(Respond(table, req).table)
    ensures NoDecrease(table, Respond(table, req).table)
  {
    var out := Respond(table, req);
    UpsertOnlyTouchesItsMeter(table, req);
    if out.table == table {
      NoDecreaseRefl(table);
    } else {
      ConflictRule(table, req);
      NoDecreaseRefl(table);
    }
  }

  /** Requests handled one after the other. */
  function RunRequests(table: Table, reqs: seq<Request>): Table
    decreases |reqs|
  {
    if reqs == [] then table
    else RunRequests(Respond(table, reqs[0]).table, reqs[1..])
  }

  lemma NoDecreaseTrans(a: Table, b: Table, c: Table)
    requires NoDecrease(a, b) && NoDecrease(b, c)
    ensures NoDecrease(a, c)
  {
    forall code | code in a
      ensures !LexLess(c[code].readingDate, a[code].readingDate)
    {
      LexNotLessTrans(a[code].readingDate, b[code].readingDate, c[code].readingDate);
    }
  }

  lemma NoDecreaseRefl(table: Table)
    ensures NoDecrease(table, table)
  {
    forall code | code in table
      ensures !LexLess(table[code].readingDate, table[code].readingDate)
    {
      LexLessIrreflexive(table[code].readingDate);
    }
  }

  /** Across any sequence of requests the table stays valid, and for every
      meter the saved date and reading never go down. */
  lemma {:induction false} RunKeepsInvariants(table: Table, reqs: seq<Request>)
    requires TableValid(table)
    decreases |reqs|
    ensures TableValid(RunRequests(table, reqs))
    ensures NoDecrease(table, RunRequests(table, reqs))
  {
    if reqs == [] {
      NoDecreaseRefl(table);
    } else {
      var next := Respond(table, reqs[0]).table;
      var last := RunRequests(next, reqs[1..]);
      assert RunRequests(table, reqs) == last;
      RespondKeepsInvariants(table, reqs[0]);
      RunKeepsInvariants(next, reqs[1..]);
      NoDecreaseTrans(table, next, last);
    }
  }

  /** Read with the calendar: a saved date never moves to an earlier
      (year, month, day). */
  lemma SavedDateNeverEarlier(table: Table, reqs: seq<Request>, code: string)
    requires TableValid(table) && code in table
    ensures var after := RunRequests(table, reqs);
            && code in after && IsValidDate(after[code].readingDate)
            && !DateBefore(after[code].readingDate, table[code].readingDate)
            && after[code].reading >= table[code].reading
  {
    RunKeepsInvariants(table, reqs);
    var after := RunRequests(table, reqs);
    DateOrder(after[code].readingDate, table[code].readingDate);
  }

  /** A GET after an accepted POST for the same trimmed meter code answers
      with the row that POST saved. */
  lemma GetAfterPost(table: Table, post: Request, get: Request)
    requires ValidPost(post) && Respond(table, post).response.status == 200
    requires get.httpMethod == "GET"
    requires TrimmedOrEmpty(get.queryMeterCode) == TrimmedOrEmpty(post.meterCode)
    ensures Respond(Respond(table, post).table, get).response
              == Response(200, RowData(Some(Row(TrimmedOrEmpty(post.meterCode),
                                                ParseReading(post.reading).value,
                                                JsToString(post.readingDate)))))
  {
  }

  // ---------------------------------------------------------------------
  // A worked scenario: meter F9C397 last read at 100 on 2024-05-01.
  // Each literal is named through a parameter bound by `requires`, which
  // keeps the proofs small.

  function Post(code: string, reading: string, date: string): Request {
    Request("POST", None, Some(code), Some(reading), Some(date))
  }

  /** The scenario's meter code is already trimmed. */
  lemma ScenarioCode(code: string)
    requires code == "F9C397"
    ensures TrimmedOrEmpty(Some(code)) == code && code != ""
  {
    TrimKeepsPrefix(code, 5);
  }

  /** Both scenario dates pass isValidDate, and the earlier one compares
      below the saved one as strings. */
  lemma ScenarioDates(earlier: string, saved: string)
    requires earlier == "2024-04-30" && saved == "2024-05-01"
    ensures IsValidDate(earlier) && IsValidDate(saved) && LexLess(earlier, saved)
  {
    IsValidDateShape(earlier);
    IsValidDateShape(saved);
    assert earlier == "2024-0" + "4-30" && saved == "2024-0" + "5-01";
    LexLessAppend("2024-0", "4-30", "2024-0", "5-01");
  }

  lemma ScenarioHigher(higher: string)
    requires higher == "150"
    ensures ParseInt(higher) == Some(150)
  {
    assert DecimalValue(higher) == 150 by {
      assert higher[..2][..1] == higher[..1] && DecimalValue(higher[..1]) == 1;
      assert DecimalValue(higher[..2]) == 15;
    }
    ParseDigits(higher, 150);
  }

  lemma ScenarioLower(lower: string)
    requires lower == "99"
    ensures ParseInt(lower) == Some(99)
  {
    assert DecimalValue(lower) == 99 by {
      assert lower[..1] == "9";
    }
    ParseDigits(lower, 99);
  }

  lemma ScenarioSame(same: string)
    requires same == "100"
    ensures ParseInt(same) == Some(100)
  {
    assert DecimalValue(same) == 100 by {
      assert same[..2][..1] == same[..1] && DecimalValue(same[..1]) == 1;
      assert DecimalValue(same[..2]) == 10;
    }
    ParseDigits(same, 100);
  }

  /** A string of digits alone parses to its value. */
  lemma ParseDigits(digits: string, n: nat)
    requires digits != [] && AllDigits(digits) && DecimalValue(digits) == n
    ensures ParseInt(digits) == Some(n)
  {
    ParseUnsigned(digits, "");
    assert digits + "" == digits;
  }

  /** A valid POST for a saved meter, whose date and reading are read as
      `date` and `n`. */
  predicate PostAgainst(table: Table, req: Request, code: string, date: string, n: int) {
    && req.httpMethod == "POST"
    && TrimmedOrEmpty(req.meterCode) == code && code != ""
    && JsToString(req.readingDate) == date && IsValidDate(date)
    && ParseReading(req.reading) == Some(n) && n >= 0
    && code in table
  }

  lemma StaleCase(table: Table, req: Request, code: string, date: string, n: int)
    requires PostAgainst(table, req, code, date, n) && LexLess(date, table[code].readingDate)
    ensures Respond(table, req).response.payload == ConflictMessage(StaleDate, StaleDateMessage)
  {
  }

  lemma DecreaseCase(table: Table, req: Request, code: string, date: string, n: int)
    requires PostAgainst(table, req, code, date, n)
    requires date == table[code].readingDate && n < table[code].reading
    ensures Respond(table, req).response.payload == ConflictMessage(ReadingDecrease, ReadingDecreaseMessage)
  {
    LexLessIrreflexive(date);
  }

  lemma ResendCase(table: Table, req: Request, code: string, date: string, n: int)
    requires PostAgainst(table, req, code, date, n) && table[code] == Entry(n, date)
    ensures Respond(table, req) == Outcome(Response(200, RowData(Some(Row(code, n, date)))), table)
  {
    SameReadingAccepted(table, req);
    assert table[code := Entry(n, date)] == table;
  }

  /** An earlier date is refused as stale even with a higher reading. */
  lemma ScenarioStale(table: Table, code: string, earlier: string, saved: string, higher: string)
    requires code == "F9C397" && earlier == "2024-04-30" && saved == "2024-05-01" && higher == "150"
    requires table == map[code := Entry(100, saved)]
    ensures Respond(table, Post(code, higher, earlier)).response.payload == ConflictMessage(StaleDate, StaleDateMessage)
  {
    ScenarioCode(code);
    ScenarioDates(earlier, saved);
    ScenarioHigher(higher);
    StaleCase(table, Post(code, higher, earlier), code, earlier, 150);
  }

  /** The same date with a lower reading is refused as a decrease. */
  lemma ScenarioDecrease(table: Table, code: string, saved: string, lower: string)
    requires code == "F9C397" && saved == "2024-05-01" && lower == "99"
    requires table == map[code := Entry(100, saved)]
    ensures Respond(table, Post(code, lower, saved)).response.payload == ConflictMessage(ReadingDecrease, ReadingDecreaseMessage)
  {
    ScenarioCode(code);
    IsValidDateShape(saved);
    ScenarioLower(lower);
    DecreaseCase(table, Post(code, lower, saved), code, saved, 99);
  }

  /** The same date with the same reading is saved again. */
  lemma ScenarioResend(table: Table, code: string, saved: string, same: string)
    requires code == "F9C397" && saved == "2024-05-01" && same == "100"
    requires table == map[code := Entry(100, saved)]
    ensures Respond(table, Post(code, same, saved)).response == Response(200, RowData(Some(Row(code, 100, saved))))
    ensures Respond(table, Post(code, same, saved)).table == table
  {
    ScenarioCode(code);
    IsValidDateShape(saved);
    ScenarioSame(same);
    ResendCase(table, Post(code, same, saved), code, saved, 100);
  }
}
