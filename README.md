# GPS NEO-6M acquisition daemon: a verified model

This project models the core of the GPS daemon in `__main__.py` in Dafny:

1. `parse_gps_data`, the classifier and decoder for NMEA 0183 sentences.
   - A line is stripped of white space.
   - It is dispatched on its `$GNRMC` ("Recommended Minimum") or `$GNGGA` ("Fix Data") prefix.
   - It is matched against a fixed positional pattern.
   - The packed latitude and longitude of a matched line are turned into signed degrees using the hemisphere letter.
2. The serial acquisition loop of `main`.
   - It keeps a line counter and a consecutive-error counter, and appends to an error table.
   - Each line read is decoded (UTF-8, else latin-1), parsed and counted, and clears the error counter.
   - Each `SerialException` is counted and logged.
   - After ten in a row, the port is closed, the loop pauses, the counter is cleared and a second message is logged.

Files:

- `wrappers.dfy`: `Option`.
- `text.dfy`: the string operations the parser relies on.
  - `str.strip`, with Python's set of white-space characters.
  - `startswith`, `split` and `join`, with their round trips.
  - `Line`: the part of a text a regular-expression `.` can reach, which stops at the first line feed.
- `numeric.dfy`: numbers.
  - ASCII digit runs (`\d+`, taken greedily).
  - The decimal literal `\d+\.\d+` and its exact value as a `real`.
  - `float()` on plain decimal notation.
- `nmea.dfy`: `parse_gps_data`.
  - A hand-written matcher that reads the two patterns the way Python's `re.match` does. It anchors at the start only, takes digits greedily, and for GGA picks the six `.+` groups leftmost-longest as backtracking does.
  - `RmcShape` and `GgaShape`, which state the same patterns over the comma-separated fields of the line.
  - Lemmas that prove the matcher and the shapes agree, and what the decoded records contain.
  - The `Sentence` result has four cases:
    - `Rmc` and `Gga`: decoded records.
    - `Ignored`: the function returned without a record.
    - `Failed`: the `except` branch, with the message it writes.

    `ParseNeverFails` proves that no line reaches `Failed` through a conversion.
- `acquisition.dfy`: the loop of `main`.
  - The specification is the function `Next`, for one event, and `Replay`, for a sequence of events. An event is a line of bytes read from the port, or a `SerialException`.
  - The class `AcquisitionLoop` has the counters and the error log as fields. `Step` and `Run` are proved to follow `Next` and `Replay`.

The serial port, the clock and the database are not modelled. The loop is driven by a finite sequence of events, and the error table is an append-only `seq<string>`.

## Behaviour worth knowing

- **Malformed lines are dropped silently.** A line with a known prefix that fails its pattern is neither decoded nor logged as an error, at `__main__.py:141` and `__main__.py:157` (`Nmea.MalformedDropped`). The only error write in `parse_gps_data` is in the `except` branch. `float()` never raises on a matched group, so no line reaches that branch through a conversion (`Nmea.ParseNeverFails`).
- **Dates without a decimal point are rejected.** Receivers send the RMC date as `ddmmyy`, for example `230394`, with no decimal point. The code's pattern wants `\d+\.\d+` for the date (`__main__.py:140`), so such a line is ignored. `Nmea.UndottedDateDropped` proves this for every RMC line whose date field is plain digits.
- **Decoded records are not stored.** The code only prints each decoded fix (`__main__.py:150`, `__main__.py:165`). The database insert functions exist but are never called.
- **The GGA tail has one field too few.** The six `.+` groups after the satellite count are named hdop, alt, units, undulation, age and stationID. A standard GGA sentence has seven fields there: it also has the geoid separation's unit. The model keeps the source's group names and its greedy assignment (`Nmea.DispatchGgaFields`).

## Model

| member | source | states |
|---|---|---|
| `Text.IsSpace` | __main__.py:135 | every white-space character lies outside printable ASCII, so stripping never removes a character a sentence is made of |
| `Text.Strip` | __main__.py:135 | the result is no longer than the input, and neither starts nor ends with white space |
| `Text.StripInfix` | __main__.py:135 | the result is a piece of the input with only white space before and after it |
| `Text.StripIdempotent` | __main__.py:135 | stripping twice is stripping once |
| `Text.TrimStart` | __main__.py:135 | drops exactly the leading white space |
| `Text.TrimEnd` | __main__.py:135 | drops exactly the trailing white space |
| `Text.StartsWith` | __main__.py:136 | a text starts with a prefix iff it is that prefix followed by the rest of the text |
| `Text.IndexOf` | __main__.py:156 | the first occurrence of a character, or the length when there is none |
| `Text.Line` | __main__.py:156 | the prefix up to the first line feed, which is how far a `.+` group can reach |
| `Text.Split` | __main__.py:140 | `str.split` always yields at least one field |
| `Text.SplitFieldsNoSep` | __main__.py:140 | no field of a split contains the separator, so each field is what lies between two commas |
| `Text.JoinSplit` | __main__.py:140 | joining the fields of a line gives the line back |
| `Text.SplitJoin` | __main__.py:140 | splitting joined separator-free fields gives the fields back |
| `Text.HeaderFields` | __main__.py:136-140 | a line starts with the tag and a comma iff its first field is the tag and more follow; the later fields are those of the rest |
| `Numeric.DigitValue` | __main__.py:144-146 | `float()` reads each ASCII digit as a value below ten |
| `Numeric.Pow10` | __main__.py:144-146 | the scale `float()` divides the digits after the point by, a power of ten, is at least one |
| `Numeric.ScanDigits` | __main__.py:140 | `\d+` consumes the longest run of digits: all digits, stopping before a non-digit |
| `Numeric.ScanDigitsAt` | __main__.py:140 | any digit run that stops before a non-digit is the one found |
| `Numeric.DigitsBound` | __main__.py:144-146 | `float()` reads a run of n digits as a value below ten to the n, so the digits after the point add less than one |
| `Numeric.DecimalValue` | __main__.py:144-146 | a decimal literal denotes a non-negative value |
| `Numeric.ToFloat` | __main__.py:144-146 | `float()` refuses the empty text; a value it accepts is non-positive after a minus sign and non-negative otherwise |
| `Numeric.Unsigned` | __main__.py:144-146 | `float()` of unsigned digits, with at most one point, is non-negative |
| `Numeric.DecimalLitToFloat` | __main__.py:144-147 | `float()` does not raise on text matched by `\d+\.\d+`, and yields the literal's exact value |
| `Numeric.ExampleLatitudeValue` | __main__.py:144 | the packed latitude `4916.45` converts to exactly 4916.45 |
| `Nmea.MatchToken` | __main__.py:140 | a field pattern matches a prefix of the text; digit runs are maximal |
| `Nmea.TokenAgree` | __main__.py:140 | a field pattern followed by a comma matches iff the first comma-separated field is fully of that shape |
| `Nmea.FullMatchNoComma` | __main__.py:140 | no field pattern of the two sentences matches a comma |
| `Nmea.MatchFields` | __main__.py:140 | the fixed groups: one per pattern, each fully of its pattern's shape |
| `Nmea.FieldsAgree` | __main__.py:140 | the fixed groups match iff the leading fields have the patterns' shapes; the groups are those fields and the rest of the line follows |
| `Nmea.GreedySplit` | __main__.py:156 | the `.+` tail groups found are non-empty, as many as asked, and joined with commas give back the text |
| `Nmea.SearchSplit` | __main__.py:156 | the backtracking search for the first group's end gives a valid split whose first group ends before the search bound |
| `Nmea.GreedySplitComplete` | __main__.py:156 | the engine finds tail groups iff some split into non-empty comma-separated groups exists |
| `Nmea.GreedySplitLongestFirst` | __main__.py:156 | the first tail group is the longest that still lets the others match |
| `Nmea.SearchTail` | __main__.py:156 | after the first group and its comma, the engine's later groups are its own split of the remaining text |
| `Nmea.GreedySplitLongest` | __main__.py:156 | every tail group but the last is the longest that still lets the groups after it match |
| `Nmea.ErrorWrites` | __main__.py:167-171 | a parse writes at most one error, and writes one exactly when it takes the `except` branch |
| `Nmea.Hemisphere` | __main__.py:148-149 | the magnitude divided by 100, positive exactly for the positive letter (`N` or `E`) |
| `Nmea.HemispheresOpposite` | __main__.py:163-164 | the two hemispheres of one magnitude give exact negatives |
| `Nmea.HemisphereRoundTrip` | __main__.py:148-149 | packing the signed degrees again gives back the magnitude and the letter |
| `Nmea.MatchRmc` | __main__.py:140 | a match has nine groups, with latitude and longitude decimal literals |
| `Nmea.DecimalPrefixAgree` | __main__.py:140 | the date group exists iff the tenth field begins with a decimal literal, and it is the longest such prefix |
| `Nmea.MatchRmcAgree` | __main__.py:140 | the RMC pattern matches iff the line has the RMC field shape |
| `Nmea.MatchRmcGroups` | __main__.py:140 | the RMC groups are the second to ninth fields, then the date prefix of the tenth |
| `Nmea.RmcDateAgree` | __main__.py:140 | the date matched at the start of the rest of the line is the date prefix of its first field |
| `Nmea.RmcTokensSpelled` | __main__.py:140 | the RMC field patterns read out field by field |
| `Nmea.DecodeRmc` | __main__.py:144-149 | a matched RMC line gives a position fix exactly when both coordinates convert, and otherwise the `except` branch's message naming the first text `float()` refuses |
| `Nmea.MatchGga` | __main__.py:156 | a match has thirteen groups, with latitude and longitude decimal literals |
| `Nmea.DecodeGga` | __main__.py:159-164 | a matched GGA line gives a quality fix exactly when both coordinates convert, and otherwise the `except` branch's message naming the first text `float()` refuses |
| `Nmea.GgaTokensSpelled` | __main__.py:156 | the GGA fixed field patterns read out field by field |
| `Nmea.MatchGgaAgree` | __main__.py:156 | the GGA pattern matches iff the line has the GGA field shape |
| `Nmea.MatchGgaGroups` | __main__.py:156 | the GGA groups are the second to eighth fields, then the engine's split of the rest of the line |
| `Nmea.DispatchTags` | __main__.py:136-165 | a position fix comes only from an `$GNRMC` line, a quality fix only from a `$GNGGA` line, and a line with neither prefix is ignored |
| `Nmea.DispatchNeverFails` | __main__.py:136-171 | `float()` never raises on a matched group, so a stripped line never reaches the `except` branch through a conversion |
| `Nmea.ParseNeverFails` | __main__.py:131-171 | `float()` never raises on a matched group, so no line reaches the `except` branch through a conversion and parsing writes no error |
| `Nmea.DispatchRmcIff` | __main__.py:136-150 | a stripped line decodes to a position fix iff it has the RMC shape |
| `Nmea.DispatchGgaIff` | __main__.py:153-165 | a stripped line decodes to a quality fix iff it has the GGA shape |
| `Nmea.ParseRmcIff` | __main__.py:131-150 | a line decodes to a position fix iff its stripped form has the RMC shape |
| `Nmea.ParseGgaIff` | __main__.py:131-165 | a line decodes to a quality fix iff its stripped form has the GGA shape |
| `Nmea.ParseIgnoredIff` | __main__.py:131-171 | a line is ignored iff its stripped form has neither shape, and then nothing is written |
| `Nmea.UnknownPrefixIgnored` | __main__.py:133-136 | an empty line, or one with neither prefix, is ignored and writes nothing |
| `Nmea.MalformedDropped` | __main__.py:141 | a line with a known prefix that fails its pattern is ignored and writes nothing |
| `Nmea.UndottedDateDropped` | __main__.py:140-141 | an RMC line whose date field is plain digits is ignored |
| `Nmea.EmptyCheckRedundant` | __main__.py:133-135 | the empty-line check changes nothing: every line is handled as its stripped form is dispatched |
| `Nmea.DispatchRmcFields` | __main__.py:140-150 | the position fix of a stripped line holds time, status, speed and course as read, signed latitude and longitude, and the longest decimal prefix of the tenth field as date |
| `Nmea.DispatchGgaFields` | __main__.py:156-165 | the quality fix of a stripped line holds the fixed fields and signed coordinates; its six tail groups are non-empty, make up the rest of the line up to its first line feed, and each of hdop, alt, units, undulation and age is the longest group that still lets the groups after it match |
| `Acquisition.Latin1` | __main__.py:189 | latin-1 decoding maps each byte to the character with the same code |
| `Acquisition.Latin1RoundTrip` | __main__.py:189 | encoding the latin-1 text again gives back the bytes: the fallback loses nothing |
| `Acquisition.DecodeLine` | __main__.py:186-189 | the UTF-8 text when the bytes are valid, else the latin-1 text of the same length, which encodes back to the bytes |
| `Acquisition.Next` | __main__.py:183-207 | one pass keeps the error counter below ten and only appends to the error log |
| `Acquisition.Replay` | __main__.py:179-207 | any run of passes keeps the error counter below ten and only appends to the error log |
| `Acquisition.ReceivedResets` | __main__.py:185-193 | a line read counts one line, clears the error counter and logs nothing, whatever its bytes |
| `Acquisition.FailureLogs` | __main__.py:195-207 | a `SerialException` logs one message, plus the backoff message when it is the tenth in a row; the counter becomes its successor modulo ten |
| `Acquisition.LineCountCountsReads` | __main__.py:192 | `line_count` equals its start plus the number of lines read |
| `Acquisition.ErrorCountTracksFailures` | __main__.py:193-206 | `error_count` is the number of failures since the last read modulo ten; with no read, it counts on from its start |
| `Acquisition.BackoffNeedsTenConsecutive` | __main__.py:202-207 | from a cleared counter, the backoff fires only after nine failures in a row have just preceded the current one |
| `Acquisition.ConsecutiveFailures` | __main__.py:195-200 | fewer than ten failures in a row log one message each and count up |
| `Acquisition.TenConsecutiveFailures` | __main__.py:195-207 | ten failures from a cleared counter log ten link messages and one backoff message, and leave the counter cleared |
| `Acquisition.ReadThenFailure` | __main__.py:192-200 | after a read, a single failure leaves the counter at one and logs one message: no backoff |
| `Acquisition.AcquisitionLoop.constructor` | __main__.py:175-177 | the loop starts with both counters at zero and the port closed |
| `Acquisition.AcquisitionLoop.Step` | __main__.py:183-207 | one pass updates the fields exactly as `Next` prescribes and keeps the counter below ten |
| `Acquisition.AcquisitionLoop.Receive` | __main__.py:185-193 | a line read updates the fields exactly as `Next` prescribes for it: decoded, parsed, counted, the error counter cleared |
| `Acquisition.AcquisitionLoop.Fail` | __main__.py:195-207 | a `SerialException` updates the fields exactly as `Next` prescribes for it: counted, logged, and the backoff on the tenth in a row |
| `Acquisition.AcquisitionLoop.Run` | __main__.py:179-207 | a run over a sequence of events leaves the fields as `Replay` prescribes |

## Left out

- Serial I/O: opening the port, `readline` and its one-second timeout (`__main__.py:183-185`). The model receives events instead: each is the bytes of one line read, possibly empty after a timeout, or a `SerialException`. Failures to open the port and failures to read are the same event, because the code handles them the same way.
- The UTF-8 validity check is not defined in the model. `Acquisition.DecodeLine` takes the strict decoder as a function parameter.
- `time.sleep`, `time.time()` and the error table's timestamps (`__main__.py:181`, `__main__.py:205`): they affect only timing.
- SQLite: the table creation at start-up and the insert functions. `insert_error` appears only as appending its message to the error log.
- Console output, `print_gps_data`, `print_fix_data` and the colour codes: the model treats every console write as infallible. In Python a `print` can raise, for example a `UnicodeEncodeError` in `print_fix_data` (`__main__.py:97-98`) when a GGA group holds non-ASCII text and the console cannot encode it, or an `OSError` on a closed pipe. That route into the `except` branch (`__main__.py:167-171`), which logs exactly one error, is not modelled.
- Nmea.ParseNeverFails: holds only while console writes succeed; it rules out a conversion failure, not a failing `print`.
- Nmea.DispatchNeverFails: the same; only the conversions are shown never to raise.
- The weather lookup: a network call that the core never makes.
- The outer restart loop that relaunches `main` on a new thread: concurrency with unbounded relaunch.
- The `UnboundLocalError` raised by `ser.close()` when the tenth failure comes before the port was ever opened (`__main__.py:204`). It escapes to the outer restart loop, which is not modelled. `Acquisition.Next` models the backoff as if the close always succeeds.
- The unused `GPSData` class and `dbSchema` string.
- IEEE-754 floating point: `float()` and `/ 100` are computed exactly as `real`s.
- Numeric.ToFloat: covers only plain decimal notation with an optional sign. It does not cover surrounding white space, underscores, exponents, `inf` or `nan`. Only matched `\d+\.\d+` text ever reaches it.
- Python's `\d` also matches non-ASCII decimal digits; the model uses ASCII digits only.
- Acquisition.AcquisitionLoop.Run: the source loops forever; `Run` processes a finite sequence of events, and `Replay` states the state after any finite prefix of the stream.
