# Soil-sensor serial log parser, modelled in Dafny

This project models the parser of `serial_monitor_parser.py`. The parser reads the lines
that the plant-care board prints on its serial port and turns them into measurements.
The printed lines come in groups of three:

    Date and Time (PST): 2024/3/5 9:7:2
    Temperature: 21.50*C
    Capacitive: 612

`parse_log` walks the lines in fixed, non-overlapping windows of three, starting at the
first line:

- Each line is searched with its own pattern. Matching is unanchored, so the leftmost
  match wins.
- A window in which all three patterns match gives one measurement: the timestamp through
  `strptime`, the temperature through `float()`, and the capacitive value through `float()`.
- Any other window is dropped, and the cursor still moves on by three.
- One or two trailing lines are ignored.
- A timestamp that has the right shape but is not a real calendar time makes `strptime`
  raise. The error leaves `parse_log`, so the whole parse fails instead of dropping that
  window.

Modules:

- `Wrappers`: the `Option` and `Result` types.
- `Text`: digits and their values, greedy digit runs, literal occurrences, and the leftmost
  search of an unanchored `re.search`.
- `Calendar`: date-times, the validity rules of `datetime` (Gregorian leap years, years
  1..9999, no leap second), and `strptime`/`strftime` with the format `%Y/%m/%d %H:%M:%S`.
- `Matchers`: the three line patterns, written as hand-made matchers that follow the
  regex semantics. Also the single-line helpers `parse_timestamp`, `parse_temperature`
  and `parse_capacitive`.
- `Grouping`: the fixed-window loop, generic in what a window is turned into. It holds
  the structural facts: decomposition, trailing lines, and the window-by-window
  characterisation.
- `LogParser`: `parse_log` itself.
  - `ParseLog` is the recursive definition, an instance of `Grouping.Groups`.
  - `ParseLogLoop` is the cursor loop as written, proved equal to `ParseLog`.
  - It also holds the lemmas about when the parse raises, where each measurement comes
    from, and reading back a rendered log.

The input is the list of lines that `readlines` returns. Each line keeps its newline.

## Model

| member | source | states |
|---|---|---|
| Text.Leftmost | serial_monitor_parser.py:41-43 | An unanchored search reports the first position at which the anchored pattern matches; no earlier position matches; it reports nothing exactly when no position matches |
| Text.DigitRun | serial_monitor_parser.py:42-43 | A greedy `\d+` consumes only digits and stops at the end of the line or before a non-digit |
| Text.DigitRunOfLiteral | serial_monitor_parser.py:43 | A digit string standing in the line and not followed by another digit is exactly what a greedy `\d+` consumes there |
| Text.DigitsValue | serial_monitor_parser.py:48 | The number a digit string denotes, as `int()` (line 17) and `float()` read it. Its properties are stated by `DigitsValueConcat`, `DigitsValueBound` and `LeadingZeroIgnored` |
| Text.DigitsValueConcat | serial_monitor_parser.py:48 | The value of two digit strings written one after the other is the first shifted by the length of the second, plus the second |
| Text.DigitsValueBound | serial_monitor_parser.py:48 | A digit string of length n is worth less than ten to the n |
| Text.LeadingZeroIgnored | serial_monitor_parser.py:48 | A leading zero does not change the value: `05` and `5` read the same |
| Matchers.ShortFieldThenIsDigitRun | serial_monitor_parser.py:41 | `\d{1,2}` followed by a non-digit separator matches exactly when the maximal digit run has one or two digits and the separator follows; backtracking never gives a different field |
| Matchers.ShortFieldLastIsDigitRun | serial_monitor_parser.py:41 | The final `\d{1,2}` reads the first two digits of a longer run, or the single digit before a non-digit |
| Matchers.ShortFieldsAt | serial_monitor_parser.py:41 | The month, day, hour, minute and second fields each have 1-2 digits, one field more than there are separators |
| Matchers.ShortFieldsAtSpans | serial_monitor_parser.py:41 | The fields read, joined by their separators, are the text that stands in the line |
| Matchers.ShortFieldsAtReads | serial_monitor_parser.py:41 | Fields written out with non-digit separators are read back unchanged |
| Matchers.StampGroupAt | serial_monitor_parser.py:41 | The captured group is a well-formed stamp: a 4-digit year and 1-2 digit fields |
| Matchers.StampGroupAtSpans | serial_monitor_parser.py:41 | The text of a captured group stands in the line where the group starts |
| Matchers.MatchTimestamp | serial_monitor_parser.py:41 | `re.search` with the timestamp pattern: a match exists exactly when the pattern matches at some position; the result is the match at the leftmost such position and is well-formed |
| Matchers.TimestampAtSpans | serial_monitor_parser.py:41 | A timestamp match is the literal label `Date and Time (PST): ` followed by the captured text |
| Matchers.MatchTimestampOfRendered | serial_monitor_parser.py:41 | Any well-formed stamp written after the label is read back unchanged, unpadded fields such as `2024/3/5 9:7:2` included, provided a 1-digit second is not followed by another digit |
| Matchers.DigitsThenReads | serial_monitor_parser.py:42 | A digit string written before a literal that starts with a non-digit is exactly what a greedy `\d+` followed by that literal captures |
| Matchers.MatchTemperature | serial_monitor_parser.py:42 | `re.search` with the temperature pattern: a match exists exactly when it matches at some position; the result is the leftmost match and has non-empty integer and fraction digits |
| Matchers.TemperatureAtSpans | serial_monitor_parser.py:42 | A temperature match is the label, then the captured digits, point and digits, then `*C`, standing in the line |
| Matchers.MatchTemperatureOfRendered | serial_monitor_parser.py:42 | A temperature line written from digit strings is read back to exactly those digit strings, whatever follows `*C` |
| Matchers.TemperatureValue | serial_monitor_parser.py:47 | `float()` of the captured `whole.frac`, kept exact. Its properties are stated by `TemperatureValueBounds`, `TemperatureValueOfDigits` and `TrailingZeroIgnored` |
| Matchers.TemperatureValueBounds | serial_monitor_parser.py:47 | The number `float()` reads from `whole.frac` has `whole` as its integer part: it lies in `[whole, whole + 1)` |
| Matchers.TemperatureValueOfDigits | serial_monitor_parser.py:47 | The number read from `whole.frac` is the digits without the point divided by ten to the number of fraction digits (`21.50` is `2150 / 100`) |
| Matchers.TrailingZeroIgnored | serial_monitor_parser.py:47 | A trailing zero in the fraction does not change the number: `21.50` and `21.5` read the same |
| Matchers.MatchCapacitive | serial_monitor_parser.py:43 | `re.search` with the capacitive pattern: a match exists exactly when it matches at some position; the result is the leftmost match and is a non-empty digit string |
| Matchers.CapacitiveAtSpans | serial_monitor_parser.py:43 | A capacitive match is the label followed by the digits, and the digits are maximal |
| Matchers.MatchCapacitiveOfRendered | serial_monitor_parser.py:43 | A capacitive line written from a digit string is read back to it when no digit follows |
| Matchers.ParseTimestamp | serial_monitor_parser.py:7-9 | `parse_timestamp` gives `None` exactly when the pattern misses, raises exactly when it matches a calendar-invalid group, and otherwise gives the valid date-time the captured fields spell |
| Matchers.ParseTemperature | serial_monitor_parser.py:11-13 | `parse_temperature` gives a number exactly when the pattern matches; the number is `TemperatureValue` of the captured text, and it is not negative |
| Matchers.ParseCapacitive | serial_monitor_parser.py:15-17 | `parse_capacitive` gives a number exactly when the pattern matches; the number is the value of the captured digits, below ten to their count |
| Calendar.DaysInMonth | serial_monitor_parser.py:50 | The month-length table `datetime` applies: 29 days exactly for February of a leap year, 28 for February otherwise, 30 for April, June, September and November, 31 otherwise |
| Calendar.Strptime | serial_monitor_parser.py:50 | `strptime` succeeds exactly when the captured fields form a valid date-time (`ValidDateTime`: year 1..9999, month 1..12, a day within the `DaysInMonth` table, hour, minute and second in range) and then gives those fields; otherwise it raises with the captured text. The meaning rests on `ValidDateTime` and `DaysInMonth` |
| Calendar.StrptimeOfStrftime | serial_monitor_parser.py:50 | Parsing the zero-padded rendering of any valid date-time gives that date-time back |
| Calendar.PaddingIrrelevant | serial_monitor_parser.py:50 | A stamp with unpadded fields succeeds exactly when its zero-padded form does, and gives the same date-time |
| Grouping.Groups | serial_monitor_parser.py:37-57 | Fewer than three lines give an empty result and no error; a successful parse has at most `len(lines) // 3` values |
| Grouping.GroupsCons | serial_monitor_parser.py:40-53 | One window followed by the rest: the window's error, or its value (if any) in front of the parse of the lines after it |
| Grouping.GroupsAppend | serial_monitor_parser.py:45-53 | For a first part with a whole number of windows, the parse of the concatenation is the parse of the first part followed by the parse of the second, so a bad window never shifts the later ones |
| Grouping.TrailingLinesIgnored | serial_monitor_parser.py:40-55 | One or two lines after whole windows do not change the result |
| Grouping.TrailingLinesCut | serial_monitor_parser.py:40-55 | The parse equals the parse of the first `3 * (len(lines) // 3)` lines |
| Grouping.AcceptedWindowsSound | serial_monitor_parser.py:45-51 | Every index listed is a window, from the starting one on, that gives a value |
| Grouping.AcceptedWindowsIncreasing | serial_monitor_parser.py:45-53 | The listed windows are in strictly increasing (file) order |
| Grouping.AcceptedWindowsComplete | serial_monitor_parser.py:45-51 | Every window from the starting one on that gives a value is listed |
| Grouping.GroupsFromFails | serial_monitor_parser.py:45-53 | From a window on, the parse fails exactly when some window from there on raises |
| Grouping.GroupsFromError | serial_monitor_parser.py:45-53 | The error is that of the first raising window |
| Grouping.GroupsFromValues | serial_monitor_parser.py:45-53 | On success, the k-th value is the one the k-th accepted window gives |
| Grouping.GroupsByWindows | serial_monitor_parser.py:37-57 | The whole log, window by window: fails exactly when some window raises, with the first such window's error; otherwise one value per accepted window, in file order |
| LogParser.Step | serial_monitor_parser.py:41-51 | One window of three lines: the three searches, then `float()` of the two numbers and `strptime` of the stamp when all three match. Its properties are stated by `StepSpec` |
| LogParser.StepSpec | serial_monitor_parser.py:41-51 | A window gives nothing exactly when one of the three patterns misses its line; it raises exactly when all three match and the timestamp is calendar-invalid, with the captured text in the error; otherwise its measurement holds the values read from its three lines |
| LogParser.ParseLog | serial_monitor_parser.py:37-57 | Fewer than three lines give an empty result; a successful parse has at most one measurement per three lines |
| LogParser.ParseLogLoop | serial_monitor_parser.py:37-57 | The cursor loop (advance by three, append when all three match, stop early when `strptime` raises, stop at a short tail) computes exactly the recursive window parse |
| LogParser.MalformedGroupDropped | serial_monitor_parser.py:45-53 | A window in which some pattern misses contributes nothing and leaves the parse of the following lines unchanged |
| LogParser.ParseLogRaises | serial_monitor_parser.py:45-50 | The parse raises exactly when some aligned window matches all three patterns with a calendar-invalid timestamp; the error carries the text of the first such window |
| LogParser.ParseLogMeasurements | serial_monitor_parser.py:45-51 | On success, the k-th measurement comes from the k-th window, in file order, in which all three patterns match, with its fields read from that window's lines; every such window is among them |
| LogParser.StepMatchesHelpers | serial_monitor_parser.py:7-17 | A measurement agrees with what `parse_timestamp` and `parse_temperature` give for its lines; the capacitive value is the `int()` of `parse_capacitive` taken as a real |
| LogParser.HelperRaisesWhereLoopDrops | serial_monitor_parser.py:7-9 | A calendar-invalid timestamp line makes `parse_timestamp` raise, yet the loop drops its window without raising when the temperature line does not match |
| LogParser.PaddedReading | serial_monitor_parser.py:50 | A reading whose time is printed zero-padded is valid and its measurement carries exactly that time |
| LogParser.StepOfRendered | serial_monitor_parser.py:41-51 | The three lines printed for one valid reading, with padded or unpadded stamp fields such as `2024/3/5 9:7:2`, give back exactly its measurement |
| LogParser.ParseLogConsRendered | serial_monitor_parser.py:40-53 | A printed reading in front of a log puts its measurement in front of that log's result |
| LogParser.ParseLogOfRenderAll | serial_monitor_parser.py:37-57 | A log printed from valid readings parses to the list of their measurements |
| LogParser.ParseLogOfRender | serial_monitor_parser.py:37-57 | A log printed from valid readings, stamps written padded or not, parses without error to exactly their measurements, in order |

## Left out

- File opening and `readlines` (serial_monitor_parser.py:30-35) are I/O. The model takes the list of lines as input. The not-found branch at line 34 uses `sys`, which is never imported, so that branch would itself raise `NameError`. This is not modelled.
- `visualize_data` (serial_monitor_parser.py:59-81) only draws with matplotlib, and `main` with its argument parsing (serial_monitor_parser.py:83-92) is command-line glue. Neither is modelled.
- The model gives the exact values that `float()` and `int()` approximate: the temperature is the exact decimal `whole.frac` as a real, and the capacitive value is the exact integer as a real. Rounding to a binary double is not modelled, and neither is the overflow of a very long integer part to `inf`.
- LogParser.StepMatchesHelpers: does not model the limit on the number of digits `int()` converts (4300 by default in Python 3.11, and in the 3.7-3.10 security releases that carry the same limit), past which `parse_capacitive` raises `ValueError`; the lemma says the helper gives a value there. `parse_log` converts with `float()`, which has no such limit.
- Matchers.ParseCapacitive: gives the value of any number of captured digits, for the same reason; under Python 3.11, and the 3.7-3.10 security releases that carry the same limit, the source raises `ValueError` past 4300 digits.
- `\d` is modelled as the ASCII digits `0`-`9`. Python's `\d` on `str` patterns also matches other Unicode decimal digits.
- The regex engine is not modelled in general. Each of the three patterns is a hand-written matcher with the same greedy and backtracking behaviour.
- `strptime` is modelled only on text the timestamp pattern has already accepted: a 4-digit year and 1-2 digit fields with the fixed separators. On such text it succeeds exactly when the fields form a valid `datetime`. The intermediate `time.struct_time` and its directive regexes are not modelled. On this input, every directive mismatch also ends in `ValueError`, just as an out-of-range value does.
- The `datetime` object is represented only by its six fields. Time zones, `tzinfo` and microseconds never arise.
- A raised `ValueError` is modelled as the `Failure` result `InvalidTimestamp(text)`. The exception message is not modelled.
