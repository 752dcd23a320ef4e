# FMCopilot event pipeline and duration parser, in Dafny

This project models the computational core of FMCopilot, a small manufacturing
assistant. The core has three pieces.

- **Event extraction** (`filter_rabbitmq_events`, module `EventExtractor`). It
  reads a list of log entries. In each entry's `jsonPayload.log` text it finds the
  marker `"RabbitMQ [SendMessage] -- Sent message: "`. It cuts out the embedded
  message up to the next `" to exchange:"`, strips it and decodes it. It keeps every
  decoded object whose `EventName` is not `"KPIInitialLoad"`, in input order. A
  failing entry is skipped, and a failed file load gives the empty list.
- **KPI aggregation** (`calculate_kpi_insights`, modules `KpiAggregator`,
  `EventSort` and `Timestamp`). It decodes the event list and keeps the
  `ProductionTotalPartCount` events. It sorts them stably by their `EventOccured`
  timestamp, then reports four things: the time window, the increase from the
  first to the last part count, the last value per device, and whether the last
  two values are equal (a stall).
- **Duration parsing** (`parse_duration`, module `DurationParser`). It turns
  `hours:minutes` or `hours:minutes:seconds` into seconds. Everything it cannot
  read gives 0.

Supporting modules:

- `Wrappers` defines `Option` and `Result`.
- `JsonValue` defines the decoded JSON value and `dict.get`.
- `Text` models the Python `str` operations the code uses: `in`, `find`,
  `strip()`, `split(':')` and `int()`'s digits.

The two decoding library calls, `json.load` and `json.loads`, are parameters: a
load outcome and a partial function `decode: string -> Option<Json>`. Neither
pipeline relies on anything else about them.

The imperative parts stay imperative:

- The extraction loop is a `for` loop with a loop invariant, proved equal to the
  order-preserving filter-map `ExtractAll`.
- The timestamp sort is an in-place stable insertion sort on an array. It is proved
  sorted and a *stable* permutation: the events of each timestamp keep their
  order. `StableSortIsUnique` then shows that any other stable sort, Python's
  Timsort included, gives the same list.
- The device loop is a loop proved to compute "last value wins".

The code is written so that it never fails: the load has a catch-all `except
Exception` (tools.py:35-37), and so does each entry (tools.py:72-74). It does not
quite achieve that. The loop `for entry in log_data` lies outside every `try`, so a log file holding a
JSON number, boolean or null at the top level raises an uncaught `TypeError`. A
top-level object or string instead yields keys or characters, and each of those
fails inside the per-entry `try`. The model follows the code: the result is
`Raised` in the first case and the empty list in the second.

## Model

| member | source | states |
|---|---|---|
| EventExtractor.FilterRabbitmqEvents | FMCopilot/tools.py:23-78 | A failed load gives `[]`. A loaded list gives exactly `ExtractAll` of its entries, through a loop whose invariant is the filter-map of the prefix. A top-level object or string gives `[]`. A top-level number, boolean or null raises. |
| EventExtractor.ProcessEntry | FMCopilot/tools.py:41-74 | One iteration appends exactly what `ExtractOne` yields for the entry: its log text, then the payload, then the decode, then the exclusion test; any failure skips the entry. |
| EventExtractor.CutPayload | FMCopilot/tools.py:46-59 | The marker test, the two `find` calls and the two slice branches compute `MessagePayload`, the stripped text between the bounds of the message. |
| EventExtractor.MessageBoundsFirst | FMCopilot/tools.py:46-52 | The bounds are None exactly when the start marker never occurs. Otherwise the message starts right after the first occurrence of the start marker. It ends at the first end marker at or after that point, or at the end of the text when there is none. |
| EventExtractor.BoundsAt | FMCopilot/tools.py:48-52 | The converse: a start right after the first start marker, with an end at the first end marker from there on or at the end of the text, is what the two `find` calls give. |
| EventExtractor.BoundsBetween | FMCopilot/tools.py:48-52 | In `prefix + open + message + rest`, the bounds are exactly those of `message`. This holds when the prefix has no start marker, the message has no end marker, and the rest is empty or starts with the end marker. |
| EventExtractor.LogText | FMCopilot/tools.py:43 | A log text is produced only for an object entry; the cases are stated by `LogTextCases`. |
| EventExtractor.LogTextCases | FMCopilot/tools.py:43 | `entry.get("jsonPayload", {}).get("log", "")` case by case. A string log is the text. A missing payload or a missing log gives the empty text. An entry or payload that is not an object, or a log that is not a string, gives no text, so the entry adds nothing. |
| EventExtractor.ExtractOne | FMCopilot/tools.py:43-74 | What an entry contributes is always a kept record: an object whose EventName is not "KPIInitialLoad". |
| EventExtractor.Origins | FMCopilot/tools.py:40-67 | The output is an order-preserving subsequence. Each record comes from its own entry, at strictly increasing input positions. Every entry not used yields nothing. |
| EventExtractor.FilterMapLength | FMCopilot/tools.py:40-67 | The output has at most one record per input entry. |
| EventExtractor.FilterMapAppend | FMCopilot/tools.py:40-74 | Entries are processed independently: the result for `a + b` is the result for `a` followed by the result for `b`. |
| EventExtractor.SkippedEntryIsDropped | FMCopilot/tools.py:69-74 | An entry that fails contributes nothing, and the entries around it are processed as if it were absent. |
| EventExtractor.EntryWithoutMarkerIsDropped | FMCopilot/tools.py:46 | An entry whose log text lacks the start marker contributes nothing, and processing continues. |
| EventExtractor.PayloadBetweenMarkers | FMCopilot/tools.py:48-59 | `prefix + marker + message + rest` yields exactly `strip(message)`. This holds when the prefix has no start marker (end markers in it are ignored), the message has no end marker, and the rest is empty or starts with the end marker. |
| EventExtractor.MessagePayload | FMCopilot/tools.py:46-59 | No contract of its own. Its behaviour is stated by `MessageBoundsFirst`, `BoundsAt`, `PayloadBetweenMarkers` and `CutPayload`. |
| EventExtractor.RecordOfText | FMCopilot/tools.py:43-67 | For any entry whose log text has a payload that decodes to an object, the entry contributes that object exactly when its EventName is not "KPIInitialLoad", and then unchanged. |
| EventExtractor.RecordBetweenMarkers | FMCopilot/tools.py:43-67 | For any entry whose log text has the layout prefix, marker, message and rest, a decoded object found between the markers is appended exactly when its EventName is not "KPIInitialLoad", and it is appended unchanged. |
| EventExtractor.ExtractedAreKept | FMCopilot/tools.py:66-67 | Every output record is a kept object and is the decoded message of some input entry. |
| JsonValue.Lookup | FMCopilot/tools.py:66 | `dict.get`: a value exactly when the key is present, and then the stored value. |
| Text.FindSpec | FMCopilot/tools.py:48-52 | `str.find` from a start index: the first occurrence at or after it, or None (Python's -1) when there is none. |
| Text.FindFirst | FMCopilot/tools.py:48-52 | An occurrence with none between the start index and it is the one `find` returns. |
| Text.FindNone | FMCopilot/tools.py:51-52 | With no occurrence from the start index on, `find` returns -1. |
| Text.Contains | FMCopilot/tools.py:46 | `pat in s` holds exactly when `pat` occurs somewhere in `s`. |
| Text.Strip | FMCopilot/tools.py:56-59 | `str.strip()`: a slice of the input that starts where the left strip leaves off, with no whitespace at either end of the result. |
| Text.StripRemovesSpace | FMCopilot/tools.py:56-59 | Everything `strip()` removes, on either side of the result, is whitespace. |
| Text.StripIgnoresPadding | FMCopilot/data_analyzer.py:23 | Whitespace added at either end of a text does not change its strip. |
| Text.StripTwo | FMCopilot/data_analyzer.py:23-24 | Around a non-whitespace separator, `strip()` only touches the outer ends: the left piece loses its leading and the right piece its trailing whitespace. |
| Text.StripThree | FMCopilot/data_analyzer.py:23-24 | The same with two separators; the middle piece is kept whole. |
| Text.StripLeftAppend | FMCopilot/data_analyzer.py:23 | Text after a non-whitespace character is untouched by stripping on the left. |
| Text.StripRightPrepend | FMCopilot/data_analyzer.py:23 | Text before a non-whitespace character is untouched by stripping on the right. |
| Text.StripOfStripRight | FMCopilot/data_analyzer.py:28-30 | Stripping the right end first does not change the strip. |
| KpiAggregator.CalculateKpiInsights | FMCopilot/analysis_tool.py:5-72 | Undecodable input gives the invalid-JSON error. Having no production events gives the no-events error. A bad timestamp raises. Otherwise the events sorted by timestamp are a stable permutation of the filtered events, and the outcome is `Analyzed` on them. A report counts exactly the filtered events. |
| KpiAggregator.ProductionStage | FMCopilot/analysis_tool.py:15-27 | The invalid-JSON error appears exactly when decoding fails. The no-events error appears exactly when the decoded records contain no production event. A document the loop cannot traverse raises the fault `Records` reports. On success the filtered events are non-empty. |
| KpiAggregator.Records | FMCopilot/analysis_tool.py:21-23 | A list whose items are all objects yields those objects in order; any other item raises. An empty object or string yields nothing. A non-empty object or string raises, because its first key or character has no `.get`. A number, boolean or null is not iterable. |
| KpiAggregator.ProductionEvents | FMCopilot/analysis_tool.py:21-24 | The filter keeps exactly the records whose EventName is "ProductionTotalPartCount", and never more records than it is given. |
| KpiAggregator.ProductionEventsAppend | FMCopilot/analysis_tool.py:21-24 | The filter distributes over concatenation, so it keeps the input order. |
| KpiAggregator.Stamp | FMCopilot/analysis_tool.py:30 | All sort keys are computed before any reordering. With the key `Occurred` (the parsed `EventOccured` timestamp in seconds), each event is paired with its key, in order, or the whole step raises if any key is missing or malformed. |
| KpiAggregator.Occurred | FMCopilot/analysis_tool.py:30 | No contract of its own. It parses `EventOccured` with `ParseTimestamp` and takes `Seconds`, so `ParseTimestamp` and `SecondsOrderIsCalendarOrder` state its properties. |
| KpiAggregator.SortedCopy | FMCopilot/analysis_tool.py:30 | The keyed events, sorted in an array of their own, are sorted by timestamp and a stable permutation of the keyed list. |
| Timestamp.ParseTimestamp | FMCopilot/analysis_tool.py:30 | `strptime(s, "%Y-%m-%dT%H:%M:%S")`: a result is always a real calendar date and time, and it formats back to exactly `s`. |
| Timestamp.ParseFormat | FMCopilot/analysis_tool.py:40-41 | Every valid date and time, written in the format, parses back to itself. |
| Timestamp.SecondsOrderIsCalendarOrder | FMCopilot/analysis_tool.py:40-42 | Seconds since the epoch order timestamps exactly as the calendar does, and two timestamps have equal seconds exactly when they are equal. So sorting by seconds is sorting by `datetime`. That the difference of two `Seconds` values is the `timedelta` in seconds is how `Seconds` is defined, not something proved. |
| EventSort.SortByOccurred | FMCopilot/analysis_tool.py:30 | `production_events.sort(key=...)` in place: the array ends sorted by timestamp and is a stable permutation of its old contents, meaning the same multiset and, for every timestamp, the same events in the same order. |
| EventSort.InsertLeft | FMCopilot/analysis_tool.py:30 | One insertion step extends the sorted prefix by one element, keeps the contents a stable permutation, and leaves every element after the step's index where it was. |
| EventSort.StableSortIsUnique | FMCopilot/analysis_tool.py:30 | Two sorted stable permutations of the same list are equal, so the result is the one Python's stable sort returns. |
| KpiAggregator.Analyze | FMCopilot/analysis_tool.py:33-70 | On the sorted events, the outcome has three cases. First or last part counts that cannot be subtracted raise. Any event without a device or value raises. Otherwise the report is the count, the window (last minus first timestamp), the increase (last minus first value), the rate (zero when the window is not positive), the device table, and the stall flag and device. |
| KpiAggregator.Increase | FMCopilot/analysis_tool.py:36-38 | No contract of its own. `Analyze` states through `Analyzed` that a missing or non-numeric first or last Value raises, and that otherwise the reported increase is this value. `TwoReadingsScenario` gives a concrete case. |
| KpiAggregator.PartCount | FMCopilot/analysis_tool.py:36-37 | No contract of its own. `event["EventArgs"]["Value"]` is stated by `DevicePerformance`, `DeviceValueIsLast` and `StallingDeviceInTable`. |
| KpiAggregator.Device | FMCopilot/analysis_tool.py:47-48 | No contract of its own. `event["DeviceName"]` is stated by `DevicePerformance` and `StallingDeviceInTable`. |
| KpiAggregator.DevicePerformance | FMCopilot/analysis_tool.py:45-50 | The device loop fails exactly when some event has no usable DeviceName or no Value. Otherwise the table's keys are exactly the device names, and each value is the Value of that device's last event. |
| KpiAggregator.LastValueStep | FMCopilot/analysis_tool.py:50 | Overwriting the current event's device entry keeps "last value wins" for the events seen so far. |
| KpiAggregator.DevicesStep | FMCopilot/analysis_tool.py:50 | After the overwrite, the table's keys are exactly the devices of the events seen so far. |
| KpiAggregator.DeviceValueIsLast | FMCopilot/analysis_tool.py:45-50 | A device's entry is the value of its last event, not a sum. |
| KpiAggregator.ReportBounds | FMCopilot/analysis_tool.py:33-63 | On sorted events the window is never negative, and the rate is 0 exactly when the window is empty. A single event gives window 0, increase 0, rate 0 and no stall. |
| KpiAggregator.StallingDeviceInTable | FMCopilot/analysis_tool.py:53-68 | A stall is reported exactly when there are two or more events and the last two values are equal. The stalling device is then the last event's device, and its table entry is that repeated value. Without a stall the device is None. |
| KpiAggregator.TwoReadingsScenario | FMCopilot/analysis_tool.py:36-63 | Two readings of one device, 10 and then 30 parts 600 s apart, report an increase of 20 over 600 s (2 per minute), the table {D1: 30} and no stall. |
| DurationParser.ParseInt | FMCopilot/data_analyzer.py:28-30 | `int(part)`: an accepted part contains no ':', and a part without '-' reads as a non-negative number. Like CPython's `int()`, it skips only `IntSpace` whitespace at the ends (not U+001C to U+001F, which `strip()` does remove) and rejects more than 4300 digits (`sys.int_info.default_max_str_digits`), as `ParseDigits`, `ParseDecimal` and the separator lemmas state. |
| DurationParser.IntStrip | FMCopilot/data_analyzer.py:28-30 | The text `int()` reads once it has skipped whitespace: a slice of the part that neither starts nor ends with `IntSpace` whitespace. |
| DurationParser.IntStripRemovesSpace | FMCopilot/data_analyzer.py:28-30 | Everything `int()` skips, on either side of what it reads, is `IntSpace` whitespace. |
| DurationParser.IntStripAgrees | FMCopilot/data_analyzer.py:28-30 | On text without U+001C to U+001F, `int()` skips exactly what `strip()` removes. |
| DurationParser.TrailingSeparatorRejected | FMCopilot/data_analyzer.py:28-30 | One of U+001C to U+001F after digits counts as whitespace for `str.isspace`, yet `int()` rejects the part. |
| DurationParser.LeadingSeparatorRejected | FMCopilot/data_analyzer.py:28-30 | The same for such a character before the digits. |
| DurationParser.SeparatorPartIsZero | FMCopilot/data_analyzer.py:23-38 | `H` + separator + `:M` with digit pieces, such as '1\x1c:2', gives 0: `strip()` leaves the separator inside the text, `int()` raises on the first part and line 37 catches it. |
| DurationParser.ParseDecimal | FMCopilot/data_analyzer.py:28-30 | `int(str(n)) == n` for every integer of at most 4300 digits; beyond that `int()` raises ValueError. |
| DurationParser.ParseDigits | FMCopilot/data_analyzer.py:28-30 | A non-empty digit string of at most 4300 digits reads as its decimal value; a longer one raises ValueError. |
| DurationParser.ParseDuration | FMCopilot/data_analyzer.py:15-38 | No contract of its own. `ShortcutAgrees`, `IntegerCellIsZero` and `FormattedDuration` state what it returns. None stands for the ValueError that `str()` raises, outside the `try`, on an integer of more than 4300 digits. |
| DurationParser.SecondsOf | FMCopilot/data_analyzer.py:23-24 | No contract of its own. `HoursMinutes`, `HoursMinutesSeconds`, `SeparatorPartIsZero`, `SurroundingSpaceIgnored`, `WrongShapeIsZero`, `NoColonIsZero` and `NoMinusIsNonNegative` state what it returns. |
| DurationParser.Total | FMCopilot/data_analyzer.py:26-38 | No contract of its own. `TotalOfTwo` and `TotalOfThree` state its two- and three-part cases, through `ClockMinutes` and `ClockSeconds` (`h*3600 + m*60 [+ s]` when every part was read as an integer, else 0). |
| DurationParser.TotalOfTwo | FMCopilot/data_analyzer.py:29-38 | Two parts are read with `int()` as hours and minutes: `h*3600 + m*60` when both are integers, and 0 otherwise. |
| DurationParser.TotalOfThree | FMCopilot/data_analyzer.py:27-38 | Three parts are read with `int()` as hours, minutes and seconds: `h*3600 + m*60 + s` when all are integers, and 0 otherwise. |
| DurationParser.ShortcutAgrees | FMCopilot/data_analyzer.py:20-21 | The early return for '00:00' and '0' gives the same 0 the general path gives, so a string cell never raises and gives `SecondsOf`. |
| DurationParser.HoursMinutesSeconds | FMCopilot/data_analyzer.py:23-31 | Any text `a:b:c` with colon-free pieces gives `h*3600 + m*60 + s`, where `h` is `int()` of `a` without its leading whitespace, `m` of `b`, and `s` of `c` without its trailing whitespace; 0 when any of them is not an integer. This covers whitespace around the text (' 1:2:3 ' is 3723) and empty pieces ('1:2:' is 0). |
| DurationParser.PartsOfThree | FMCopilot/data_analyzer.py:23-24 | Stripping and splitting `a:b:c` gives its three pieces, with the outer two stripped on their outer sides. |
| DurationParser.HoursMinutes | FMCopilot/data_analyzer.py:23-35 | Any text `a:b` with colon-free pieces gives `h*3600 + m*60`, where `h` is `int()` of `a` without its leading and `m` of `b` without its trailing whitespace; 0 when either is not an integer. This covers whitespace around the text and empty pieces (':5' is 0). |
| DurationParser.PartsOfTwo | FMCopilot/data_analyzer.py:23-24 | Stripping and splitting `a:b` gives its two pieces, each stripped on its outer side. |
| DurationParser.ParseIntOfStripped | FMCopilot/data_analyzer.py:28-30 | On a part without U+001C to U+001F, whitespace already stripped from one side does not change what `int()` reads, so there `HoursMinutes` and `HoursMinutesSeconds` may use the unstripped pieces. |
| DurationParser.SurroundingSpaceIgnored | FMCopilot/data_analyzer.py:23 | Whitespace around a duration text does not change its value. |
| DurationParser.DigitsHoursMinutes | FMCopilot/data_analyzer.py:17-18 | Digit-only `H:M` such as '13504:51' is H total hours plus M minutes, in seconds. It is 0 when a part has more than 4300 digits, because `int()` raises ValueError and line 37 catches it. |
| DurationParser.DigitsHoursMinutesSeconds | FMCopilot/data_analyzer.py:17-18 | Digit-only `H:M:S` such as '13504:51:00' is H hours, M minutes and S seconds, in seconds. It is 0 when a part has more than 4300 digits. |
| DurationParser.FormattedDuration | FMCopilot/data_analyzer.py:15-38 | Writing any hours and minutes in decimal as `h:m` and parsing the cell gives `h*3600 + m*60`, or 0 when either has more than 4300 digits. |
| DurationParser.FormattedSeconds | FMCopilot/data_analyzer.py:23-38 | The same for `SecondsOf` on the written text: `h*3600 + m*60` within the digit limit, 0 beyond it. |
| DurationParser.WrongShapeIsZero | FMCopilot/data_analyzer.py:32-33 | Unless the stripped text holds one or two ':', the result is 0. |
| DurationParser.NoColonIsZero | FMCopilot/data_analyzer.py:24-33 | Text without ':' is a single part, so it gives 0. |
| DurationParser.NoMinusIsNonNegative | FMCopilot/data_analyzer.py:23-35 | Text without a minus sign never gives a negative duration. |
| DurationParser.IntegerCellIsZero | FMCopilot/data_analyzer.py:20-24 | An integer cell is never equal to '00:00' or '0', and its decimal form has no ':', so it gives 0. An integer of more than 4300 digits makes `str()` raise ValueError, which escapes. |
| Text.SplitCount | FMCopilot/data_analyzer.py:24 | `split(':')` gives one more part than there are separators. |
| Text.JoinSplit | FMCopilot/data_analyzer.py:24 | Joining the parts of `split(sep)` with `sep` gives back the text. |
| Text.SplitAtFirst | FMCopilot/data_analyzer.py:24 | Splitting at the first separator gives the piece before it, then the split of the rest. |
| Text.SplitInTwo | FMCopilot/data_analyzer.py:24-30 | Two separator-free pieces joined by ':' split back into exactly those two parts. |
| Text.SplitInThree | FMCopilot/data_analyzer.py:24-28 | Three separator-free pieces joined by ':' split back into exactly those three parts. |

## Left out

- File I/O and diagnostics (`open`, `json.load`, `print`, tools.py:25-37) become the `LoadResult` parameter: the load either produced a document or failed.
- `json.loads` is the abstract `decode` parameter. `decode(text) == None` stands for `json.JSONDecodeError` only. An integer literal of more than 4300 digits makes `json.loads` raise a plain ValueError, and deeply nested JSON makes it raise RecursionError. At analysis_tool.py:16-17 both escape the `except json.JSONDecodeError`, and the model expresses neither outcome. In tools.py the per-entry catch-all (tools.py:72-74) skips the entry either way. `json.dumps` of the result (tools.py:78) is not modelled: `Events` holds the list that would be serialised.
- JSON floating-point numbers are not modelled: numbers are integers.
- KpiAggregator.Analyze: does not compute the float divisions and `round(..., 2)` (analysis_tool.py:42, 61-63). The window is reported in whole seconds, and the rate is the exact ratio `PerMinute(increase, windowSeconds)`, with the zero guard modelled exactly.
- KpiAggregator.Analyze: Python's `True == 1` is not modelled (`==` here is structural equality of values) in the stall comparison, the device keys and the EventName test. Booleans do count as 0 or 1 in the subtraction.
- KpiAggregator.KpiReport: a map with no order stands for the `device_performance` dictionary, so its insertion order is not modelled.
- Timestamp.ParseTimestamp: accepts only the fully zero-padded form `YYYY-MM-DDTHH:MM:SS` with an upper-case `T` and ASCII digits. `strptime` also takes one-digit fields, a space-padded day (`"2024-01- 5T00:00:00"`), a lower-case `t` and, because its `\d` is Unicode-aware, non-ASCII decimal digits. For those timestamps the model raises where Python would sort.
- DurationParser.ParseInt: accepts ASCII digits only, while Python's `int()` also accepts other Unicode decimal digits.
- DurationParser.MaxStrDigits: the digit limit is fixed at CPython's default of 4300. Changing it with `sys.set_int_max_str_digits` or `PYTHONINTMAXSTRDIGITS` is not modelled.
- DurationParser.ParseDuration: `pd.isna` is the `Missing` cell (None, NaN, NaT). Float cells are not modelled.
- The production sort is modelled as an insertion sort, not Timsort. The results agree because both are stable (`EventSort.StableSortIsUnique`).
- The rest of FMCopilot/data_analyzer.py (the pandas CSV handling and plotting after line 40) and FMCopilot/agent.py (agent construction and prompts) are not part of this model.
