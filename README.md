# Water meter reading: e-mail form and reading endpoint

This project models the deterministic core of a small water-meter web app.

The browser page (`app.js`) has two jobs:

- It pulls a meter reading out of OCR text.
- It keeps an Italian e-mail body to the water company in sync with the reading and date fields. The user may edit the body, and the page still patches it.

The server endpoint (`api/reading.js`) stores the last reading per meter. It enforces three things:

- the input checks run in a fixed order;
- a reading may never move to an earlier date;
- a reading may never move to a lower value.

Modules:

- `JsString` (`js_string.dfy`): the JavaScript string built-ins the core relies on.
  - `trim`, with the ECMA-262 white-space and line-terminator set.
  - `split('\n')` and `join('\n')`, and `startsWith`.
  - String `<`, which compares character by character.
  - Decimal digit strings and their values.
- `AppReading` (`app_reading.dfy`): `extractReading` and the reading-field sanitiser.
  - `extractReading` is modelled as the global scan of `/\d{4,7}/g` followed by the "longest, last among ties" pick.
- `AppBody` (`app_body.dfy`): the pieces of the body.
  - `buildBodyTemplate`.
  - `replaceLine`: a specification function plus a method with the `findIndex` loop and the in-place write or push.
  - The `updateBody` regenerate-or-patch rule.
- `AppForm` (`app_form.dfy`): class `MailForm`.
  - It holds the page state: the reading and date fields, the body and subject texts, and the `bodyTouched` and `subjectTouched` flags.
  - `updateSubject` and `updateBody` are methods of the class, as are the listeners that change that state.
- `ReadingValidate` (`reading_validate.dfy`): `isValidDate` and `parseReading`.
  - `isValidDate` is the regex `/^\d{4}-\d{2}-\d{2}$/`.
  - `parseReading` uses `parseInt` as in section 19.2.5 of ECMA-262.
  - A lemma shows that string order on valid dates is (year, month, day) order.
- `ReadingHandler` (`reading_handler.dfy`): the endpoint.
  - `Respond` decides the response and the new table for one request.
  - `ReadingStore.Handle` is the handler as a method with early returns over a `map` from meter code to the saved (reading, date).
  - Lemmas cover each check, the conflict rule, the upsert, and the invariants over any sequence of requests.

## Model

| member | source | states |
|---|---|---|
| JsString.TrimStartSpec | app.js:105 | `trim`'s leading cut removes exactly a run of white space, and stops at a character that is not white space |
| JsString.TrimEndSpec | app.js:105 | `trim`'s trailing cut removes exactly a run of white space, and stops at a character that is not white space |
| JsString.TrimEmpty | app.js:52 | `body.trim()` is empty exactly when every character of the body is white space |
| JsString.TrimDigits | app.js:105 | trimming a field that holds only digits leaves it unchanged |
| JsString.SplitJoin | app.js:55 | splitting a `'\n'`-join of newline-free lines gives those lines back |
| JsString.JoinSplit | app.js:63 | joining the pieces of `split('\n')` with `'\n'` gives the original text back |
| JsString.LexLessAppend | api/reading.js:111 | string `<` on two strings with equal-length prefixes is decided by the prefixes, or by the suffixes when the prefixes are equal |
| JsString.LexNotLessTrans | api/reading.js:121 | `>=` on strings is transitive |
| JsString.LexLessIrreflexive | api/reading.js:111 | no string is `<` itself, so a date equal to the saved one is not stale |
| JsString.DigitsLexNumeric | api/reading.js:111 | for digit strings of equal length, string `<` is numeric `<`, and string equality is numeric equality |
| AppReading.DigitRunAt | app.js:67 | the greedy `\d{4,7}` attempt at a position reads digits only, at most 7 of them, and stops before a digit only when 7 have been read |
| AppReading.ScanFrom | app.js:67 | every match of the global scan starts at or after the scan position, lies inside the text, has 4 to 7 characters and is all digits |
| AppReading.ScanFromOrdered | app.js:67 | the matches come in text order and do not overlap: the scan resumes after each match |
| AppReading.ScanFromGreedy | app.js:67 | each match shorter than 7 characters is followed by a non-digit or by the end of the text |
| AppReading.WindowRun | app.js:67 | at a position where four digits follow, the greedy attempt reads at least four |
| AppReading.ScanCovers | app.js:67 | the scan misses no match: every run of four digits at or after the scan position starts inside one of its matches |
| AppReading.ScanFromEmpty | app.js:67-70 | the scan finds nothing exactly when the text has no 4 consecutive digits |
| AppReading.ScanNineDigits | app.js:67 | `"123456789"` yields only the match `"1234567"` |
| AppReading.ScanElevenDigits | app.js:67 | `"12345678901"` yields `"1234567"` and then `"8901"` |
| AppReading.ScanTwoGroups | app.js:67 | `"1234 5678"` yields `"1234"` and then `"5678"` |
| AppReading.MaxLen | app.js:71 | `Math.max` of the match lengths bounds every match, and some match attains it |
| AppReading.FilterLen | app.js:72 | every candidate kept by the filter has the requested length, and the filter keeps at least one when some match has that length |
| AppReading.LastWithLen | app.js:72-73 | gives the index of the last match with the given length, or -1 when there is none |
| AppReading.FilterLenLast | app.js:72-73 | the last candidate after filtering is the last match of that length in the text |
| AppReading.LongestLast | app.js:71-73 | the pick is one of the matches |
| AppReading.LongestLastSpec | app.js:71-73 | the pick is as long as every match, and every later match is strictly shorter: among ties the last wins |
| AppReading.TiePicksLater | app.js:71-73 | of two equally long matches the later one is picked |
| AppReading.ExtractReading | app.js:66-74 | the result is `''` exactly when the text has no 4 consecutive digits; otherwise it is 4 to 7 digits found contiguously in the text |
| AppReading.ScannedMatch | app.js:67 | every element of the match list is a real `\d{4,7}` match in the text |
| AppReading.ExtractReadingLongestLast | app.js:71-73 | a non-empty result is a match at least as long as every match, and no later match is as long |
| AppReading.ExtractReadingAtLeastRun | app.js:66-73 | the reading is at least as long as any run of four to seven digits in the text |
| AppReading.ExtractTieTakesLast | app.js:66-74 | `"1234 5678"` gives `"5678"` |
| AppReading.StripNonDigits | app.js:193 | `replace(/\D/g, '')` leaves only digits and never lengthens the value |
| AppReading.StripNonDigitsAppend | app.js:193 | the sanitiser works character by character and keeps the original order: it distributes over concatenation |
| AppReading.StripNonDigitsChar | app.js:193 | a single character is kept exactly when it is a digit |
| AppReading.StripNonDigitsFixed | app.js:193-196 | the sanitiser leaves a value unchanged exactly when the value is all digits |
| AppReading.StripNonDigitsIdempotent | app.js:193 | sanitising twice gives the same as sanitising once |
| AppBody.TemplateLinesNoNewline | app.js:41-47 | given a newline-free date and reading, none of the six template lines has a `'\n'` |
| AppBody.CustomerLinesNoNewline | app.js:42-45 | the name, address, city and customer-code lines have no `'\n'` |
| AppBody.BodyTemplateLines | app.js:39-48 | the body splits into exactly six lines, and each line is stated |
| AppBody.BodyTemplateNotBlank | app.js:39-48 | a generated body is never blank |
| AppBody.FindLabelled | app.js:56 | `findIndex` gives the first line whose trimmed form starts with the label, or -1 when no line does |
| AppBody.FindLabelledAt | app.js:56 | a labelled line with no labelled line before it is the one `findIndex` finds |
| AppBody.ReplacedBody | app.js:51-64 | the result of `replaceLine` is `''` exactly when the body is blank |
| AppBody.FindLabelledIndex | app.js:56 | the `findIndex` loop returns the first-match index of the specification |
| AppBody.ReplaceLine | app.js:51-64 | the method, which writes `lines[index]` or pushes, returns the specified body |
| AppBody.NewLineNoNewline | app.js:57 | `label + " " + value` has no `'\n'` when neither part has one |
| AppBody.NewLineLabelled | app.js:57 | with a well-formed label, the new line counts as labelled |
| AppBody.ReplaceLineFound | app.js:55-60 | when a line is labelled, only the first such line changes, to `label + " " + value`, and the line count stays the same |
| AppBody.ReplaceLineAppends | app.js:55-63 | when no line is labelled, `label + " " + value` is appended as a new last line and every earlier line is kept |
| AppBody.ReplacedLines | app.js:55-63 | the lines after `replaceLine` are the lines before, with the found line rewritten or the new line appended |
| AppBody.ReplaceLineFixedPoint | app.js:55-63 | a body whose first labelled line already reads `label + " " + value` is returned unchanged |
| AppBody.ReplaceLineIdempotent | app.js:51-64 | with a well-formed label and a newline-free value, `replaceLine` applied twice equals applying it once |
| AppBody.UpdatedBodyTemplate | app.js:107-109 | when forced or untouched, `updateBody` sets the body to the template |
| AppBody.WriteIndex | app.js:56-61 | the index `replaceLine` writes to: a labelled line with no labelled line before it, or one past the end |
| AppBody.PatchStep | app.js:51-64 | one patch of a non-blank body gives a non-blank body. The patched line holds `label + " " + value`, and every other original line is kept |
| AppBody.NewLineNotLabelled | app.js:57 | the new line of one label does not count as labelled for a label with a different first letter |
| AppBody.PatchTwoLabels | app.js:112-113 | after the two patches, both new lines are present. At most two lines are added, and every line bearing neither label is kept |
| AppBody.UpdatedBodyPatches | app.js:110-114 | a touched, non-blank body gets `Data: <date>` and `Lettura: <reading or ____>` lines, and its other lines are kept |
| AppBody.LabelFacts | app.js:112-113 | `Data:` and `Lettura:` are well-formed labels with different first letters, and their new lines are `Data: <date>` and `Lettura: <reading>` |
| AppForm.MailForm.constructor | app.js:236-250 | `init`, with today's displayed date given: the forced subject and body updates leave the default subject, the template body for an empty reading and both flags clear |
| AppForm.MailForm.UpdateSubject | app.js:95-101 | when forced or untouched, the subject becomes the default and `subjectTouched` becomes false; otherwise nothing changes |
| AppForm.MailForm.UpdateBody | app.js:103-118 | the body follows the regenerate-or-patch rule, using the trimmed reading. `bodyTouched` becomes false when forced, and the other fields are kept |
| AppForm.MailForm.OnReadingInput | app.js:192-198 | the reading becomes the sanitised input, then the body is updated without force |
| AppForm.MailForm.OnReadingBlur | app.js:200-202 | the body is updated without force |
| AppForm.MailForm.OnDateChange | app.js:204-206 | the date changes, then the body is updated without force |
| AppForm.MailForm.OnSubjectInput | app.js:212-215 | the subject becomes the typed text and is marked touched |
| AppForm.MailForm.OnBodyInput | app.js:217-220 | the body becomes the typed text and is marked touched |
| AppForm.MailForm.OnRegenerate | app.js:222-227 | both flags are cleared, the subject becomes the default and the body becomes the template |
| AppForm.MailForm.OnOcrText | app.js:176-183 | a detected reading is written to the field and the body is updated; with no detection nothing changes |
| ReadingValidate.FullMatchPositions | api/reading.js:6 | an anchored match of a fixed pattern is a position-by-position match of equal length |
| ReadingValidate.IsValidDateShape | api/reading.js:6 | `isValidDate` accepts exactly the ten-character strings with `'-'` at positions 4 and 7 and digits everywhere else |
| ReadingValidate.OutOfRangeDateAccepted | api/reading.js:6 | `"2024-13-45"` is accepted: month and day are not range-checked |
| ReadingValidate.UndefinedNotADate | api/reading.js:6 | a missing date is tested as `"undefined"` and refused |
| ReadingValidate.DateParts | api/reading.js:6 | a valid date is its year, month and day digit groups joined by `'-'` |
| ReadingValidate.DateOrder | api/reading.js:111 | for valid dates, string `<` is (year, month, day) order, and string equality is equality of the three fields |
| ReadingValidate.DigitPrefix | api/reading.js:9 | the digits `parseInt` reads are all digits, form a prefix, and end before a non-digit or at the end |
| ReadingValidate.TrimStartAfter | api/reading.js:9 | `parseInt` skips exactly the leading white space |
| ReadingValidate.DigitPrefixOf | api/reading.js:9 | the digit prefix of digits followed by a non-digit is exactly those digits |
| ReadingValidate.ParseSignedSpelled | api/reading.js:9 | after the white space, an optional sign and digits give the signed value of the digits, and any following non-digit is ignored |
| ReadingValidate.ParseIntSpelled | api/reading.js:8-14 | white space, an optional sign, digits and a tail that does not start with a digit parse to the signed value of the digits |
| ReadingValidate.ParseUnsigned | api/reading.js:8-14 | bare digits followed by a non-digit parse to their value |
| ReadingValidate.ParseIntRoundTrip | api/reading.js:8-14 | every decimal spelling of a number parses back to that number, with its sign |
| ReadingValidate.TrimStartIndex | api/reading.js:9 | white space up to the first other character is exactly what is skipped |
| ReadingValidate.ParseIntNone | api/reading.js:8-14 | the result is null exactly when no decimal digit follows the leading white space and optional sign |
| ReadingValidate.DigitFoundParses | api/reading.js:8-14 | a digit after the white space and optional sign gives a number |
| ReadingValidate.ParsedHasDigit | api/reading.js:8-14 | a number is produced only when such a digit exists |
| ReadingValidate.ParseTrailingLetters | api/reading.js:9 | `"12abc"` gives 12 |
| ReadingValidate.ParseStopsAtPoint | api/reading.js:9 | `"3.9"` gives 3 |
| ReadingValidate.MissingReadingIsNull | api/reading.js:8-14 | a missing reading is `String(undefined)`, which gives null |
| ReadingHandler.Respond | api/reading.js:40-151 | the status is one of 200, 400, 405 and 409, and every non-200 answer leaves the table unchanged |
| ReadingHandler.RespondGet | api/reading.js:56-75 | a GET never changes the table and answers 200 or 400 |
| ReadingHandler.RespondPost | api/reading.js:79-151 | a POST answers 200, 400 or 409, and only a 200 changes the table |
| ReadingHandler.ReadingStore.Handle | api/reading.js:37-151 | the handler with early returns gives exactly the response and table of `Respond` |
| ReadingHandler.OtherMethodRefused | api/reading.js:40-44 | any method other than GET or POST gets 405 and the table is unchanged |
| ReadingHandler.GetAnswers | api/reading.js:56-75 | a GET leaves the table unchanged. It answers 400 exactly when the trimmed `meterCode` is blank, and otherwise 200 with the row or null |
| ReadingHandler.PostValidationOrder | api/reading.js:79-98 | POST checks run in order: blank meter code, then date shape, then null or negative reading. The first failing check answers, and 400 comes back exactly when one fails |
| ReadingHandler.ConflictRule | api/reading.js:110-131 | a new meter is accepted. An earlier date is `stale_date` whatever the reading. Otherwise a smaller reading is `reading_decrease`. The request is accepted exactly when neither holds |
| ReadingHandler.SameReadingAccepted | api/reading.js:110-131 | re-sending the saved date with the saved reading is accepted |
| ReadingHandler.UpsertOnlyTouchesItsMeter | api/reading.js:84-151 | a refused request or a GET writes nothing. An accepted POST sets the trimmed meter code's row to (reading, date), keeps every other row and returns the saved row |
| ReadingHandler.GetAfterPost | api/reading.js:56-75 | a GET for the trimmed meter code of an accepted POST answers 200 with the row that POST saved |
| ReadingHandler.RespondKeepsInvariants | api/reading.js:84-144 | one request keeps every saved row with a valid date and a non-negative reading, and lowers no meter's date or reading |
| ReadingHandler.NoDecreaseTrans | api/reading.js:110-131 | "never lower" composes across steps |
| ReadingHandler.NoDecreaseRefl | api/reading.js:110-131 | a table that is not changed has lowered nothing |
| ReadingHandler.RunKeepsInvariants | api/reading.js:84-144 | across any sequence of requests, the table stays valid and no meter's saved date or reading ever decreases |
| ReadingHandler.SavedDateNeverEarlier | api/reading.js:84-144 | across any sequence of requests, a meter's saved date never moves to an earlier (year, month, day), and its reading never goes down |
| ReadingHandler.ScenarioCode | api/reading.js:80 | the meter code `F9C397` is unchanged by `trim` |
| ReadingHandler.ScenarioDates | api/reading.js:111 | `2024-04-30` and `2024-05-01` are valid, and the first is `<` the second |
| ReadingHandler.ScenarioHigher | api/reading.js:82 | `"150"` parses to 150 |
| ReadingHandler.ScenarioLower | api/reading.js:82 | `"99"` parses to 99 |
| ReadingHandler.ScenarioSame | api/reading.js:82 | `"100"` parses to 100 |
| ReadingHandler.ParseDigits | api/reading.js:8-14 | a reading made of digits alone parses to its value |
| ReadingHandler.StaleCase | api/reading.js:110-120 | a valid POST dated before the saved date is refused as `stale_date` |
| ReadingHandler.DecreaseCase | api/reading.js:121-130 | a valid POST with the saved date and a smaller reading is refused as `reading_decrease` |
| ReadingHandler.ResendCase | api/reading.js:110-151 | a valid POST repeating the saved row is answered 200 with that row, and the table is unchanged |
| ReadingHandler.ScenarioStale | api/reading.js:110-120 | with 100 saved on 2024-05-01, 150 dated 2024-04-30 is `stale_date` even though it is higher |
| ReadingHandler.ScenarioDecrease | api/reading.js:121-130 | with 100 saved on 2024-05-01, 99 on the same date is `reading_decrease` |
| ReadingHandler.ScenarioResend | api/reading.js:110-151 | with 100 saved on 2024-05-01, re-sending 100 on that date is saved again, and the table is unchanged |

Notes on the reading of the source:

- The second conflict test (api/reading.js:121) repeats `readingDate >= existing.reading_date` even though the first test already returned on `<`. `Respond` and `Handle` keep that redundant conjunct as written.
- `Handle` and `Respond` take every request field as a string or missing. A missing `readingDate` is tested as the string `"undefined"`, and a missing `reading` is parsed from `"undefined"`. Both follow `String(value)` and the regex's own conversion.

## Left out

- DOM wiring, `FileReader` preview and `setStatus` messages: UI only. Only the state the listeners change is in `MailForm`.
- `updateMailLinks`, `buildEmailDraft`, Gmail and `mailto:` links, `window.open` and the `to`/`from` fields: thin wrappers over `encodeURIComponent` and the browser.
- `Tesseract.recognize` and its progress logger: a foreign asynchronous library. `MailForm.OnOcrText` takes its `data.text` (or missing) as a parameter, and the OCR failure path only sets a status message.
- `formatItalianDate`: it depends on `Date` normalisation and `Intl.DateTimeFormat`. The formatted date is an opaque string in `MailForm`, set by the constructor and by `OnDateChange`.
- `init`'s wall-clock read and the `from` field default: `MailForm.constructor` takes today's displayed date as a parameter.
- The Supabase client, environment variables and every 500 path (api/reading.js:46-53, 152-155): backend failures are outside the model. The table is an in-memory `map`.
- The table's starting contents: `meter_readings` lives in the database. `ReadingStore`'s constructor starts from an empty table, and the invariants over request sequences hold from any valid table.
- `updated_at` in the returned rows: a database timestamp, absent from `Row`.
- `readBody`'s `JSON.parse`, and body fields that are JSON values but not strings.
  - A non-string `reading` is parsed from the string `String(value)` gives for it, which the model does not compute. For example `5e-7` is read from `"5e-7"` and parses to 5.
  - A non-string `readingDate` is converted to a string by the `isValidDate` test and by both conflict comparisons. An array such as `["2024-05-01"]` passes them as `"2024-05-01"`.
  - Such a `readingDate` is then written by the upsert unconverted, as the array itself. What the database stores then, or whether it fails with a 500, is not covered.
  - A falsy `meterCode` (`0`, `false`, `null`) becomes `''` through `|| ''` and gets the same 400 as a missing one.
  - A truthy non-string `meterCode` has no `trim`, and the handler answers 500, which is outside the model.
- `parseInt` float precision and overflow to `Infinity` for very long digit strings: readings are mathematical integers.
- Concurrent requests, and the race between the read (api/reading.js:100-104) and the upsert (api/reading.js:133-144): requests are handled one at a time.
- JavaScript compares strings by UTF-16 code unit, while `LexLess` compares Unicode code points. The two orders differ only between astral characters and U+E000..U+FFFF, and never for the ASCII dates the handler compares after `isValidDate`.
- AppBody.ReplaceLineIdempotent: the label must also have no trailing white space and no `'\n'` (`WellFormedLabel`), which is more than "non-empty and not starting with white space".
  - Without the trailing condition, the label `"a "` with the value `""` writes the line `"a  "`.
  - That line's trimmed form `"a"` does not start with `"a "`, so a second call appends another line.
