# kumaDocReport engine in Dafny

kumaDocReport turns Uptime Kuma heartbeat data into a Word availability
report. This project models the computing core of `main.py` and proves
properties of that model:

- **Timestamp normalisation** (`to_datetime`, module `TimeNormalizer`). A
  text time is cut at its first `.` and read as `YYYY-MM-DD HH:MM:SS` in UTC.
  A number is epoch seconds. Anything else has no time. Instants are whole
  epoch seconds, computed with the proleptic Gregorian calendar of Python's
  `datetime` (module `Calendar`).
- **Keyword classification** (module `KeywordClassifier`). A message that
  contains `but` contributes the group of the regular expression
  `\[(.*?)\]`, when it is non-empty: the text after the leftmost `[` that
  is followed by a `]` before any newline, up to the first such `]`.
- **Heartbeat analysis** (`analyze_heartbeats`, module `HeartbeatAnalysis`).
  One loop over the records builds the beats, the ping samples and the
  keyword statistics. The beats are then stably sorted by instant, and a
  second loop walks them as a two-state machine into downtime incidents
  (module `IncidentDetector`).
- **Summary statistics** (`calculate_summary_stats`, module
  `PeriodAggregator`): incident count, average duration, downtime percentage
  and ping mean and maximum for the last 1, 7 and 30 days.
- **Hours since the period start** (`calculate_hours_since_period_start`,
  module `PeriodStart`) for day, week, month, quarter and year.
- **Duration text** (`_format_timedelta`, module `DurationFormat`).
- **Report and monitor choice**: the input mapping of `chose_report` (module
  `ReportChoice`) and the dedupe, sort, validate and expand step of
  `select_monitors` (module `MonitorSelection`).

Three operations are imperative Dafny methods, each proved equal to a
specification function whose properties are lemmas:

- `HeartbeatAnalysis.AnalyzeHeartbeats`, with its two loops;
- `PeriodAggregator.CalculateSummaryStats`, a loop over the three windows
  that stores each window's figures, `Summarize`, whose average, percentage
  and ping figures are stated by the lemmas `AverageDuration`,
  `PercentageFigure`, `MaxPingIsWindowMaximum` and `AvgPingBetween`;
- `MonitorSelection.SelectMonitors` with `BuildDisplay`, `FindInvalid` and
  `ExpandSelected`, the loops of `select_monitors`.

The rest is pure.

Conventions:

- The current time is one explicit `now` parameter per call. It is an
  epoch-second instant for the analysis and the summary, and an
  Asia/Shanghai calendar date-time for the period hours. Asia/Shanghai is a
  fixed UTC+8 zone without daylight saving.
- Durations are whole seconds in incidents. They are microseconds (the
  resolution of `timedelta`) in averages and in the formatter.
- Python's `round` and `timedelta / int` are both modelled as exact
  round-half-even on integers. Dividing a `timedelta` by an `int`
  (main.py:312) is itself integer round-half-even on microseconds, with no
  float involved. `round(time_diff.total_seconds() / 3600)` (main.py:202)
  goes through a float: the elapsed time is whole minutes, so its ties are
  the minute counts ≡ 30 (mod 60), whose halves are exact floats, and every
  other minute count is at least 1/60 of an hour away from a tie, so no
  other value rounds onto one. The model gives the source's results at both
  sites.
- Python's floor `divmod` by a positive unit is Dafny's `/` and `%`.
- `str.lower()` is modelled for ASCII letters and the Kelvin sign (U+212A,
  which lowers to `k`). These are the only characters whose lower case can
  make an answer equal to one of the ASCII keys that the code compares with.
  `str.strip()` uses Python's `isspace` characters.

`analyze_heartbeats` sorts the beats with Python's stable `sorted` before
walking them, so reordering the input cannot change the incidents unless
beats share an instant: two beats with the same instant keep their input
order, and the walk depends on that order.
`IncidentDetector.ReorderingInvariance` proves that the incidents are
unchanged for every reordering that keeps the order of same-instant beats.
`IncidentDetector.TiedReorderingMatters` shows that swapping a down beat and
an up beat at one instant turns a zero-length closed incident into an
ongoing one.

## Model

| member | source | states |
|---|---|---|
| Numeric.RoundHalfEven | main.py:202 | the result is within half a unit of n/d, is even on an exact tie, and is non-negative for non-negative n |
| Numeric.RoundHalfEvenMonotone | main.py:202 | rounding half to even preserves order |
| Text.Contains | main.py:235 | `t in s` holds exactly when t occurs at some position of s |
| Text.LowerChar | main.py:122 | A-Z move to a-z, the Kelvin sign becomes `k`, every other character is kept, and no upper-case letter is left |
| Text.Lower | main.py:122 | the lower-cased text has no upper-case letter left and a text without one is unchanged, so lower-casing twice is lower-casing once |
| Text.Strip | main.py:122 | the stripped text is a slice of the input that neither starts nor ends with whitespace, and everything cut off on either side is whitespace |
| Text.NatToStringRead | main.py:992-998 | the decimal text of a count reads back as the count |
| Text.SplitJoin | main.py:1000 | splitting on the separator undoes joining parts that do not contain it |
| Calendar.OrdinalMonotone | main.py:216-217 | later calendar dates have larger day ordinals |
| Calendar.EpochSecondsMonotone | main.py:216-217 | a date-time earlier field by field is an earlier instant |
| Calendar.EpochSecondsInjective | main.py:216-217 | distinct valid date-times are distinct instants |
| TimeNormalizer.CutAtDot | main.py:216 | the result contains no `.`; it is the whole text, or the prefix before the first `.` |
| TimeNormalizer.ParseDateTime | main.py:216 | an accepted text is well shaped and names a valid date-time |
| TimeNormalizer.ParseRender | main.py:216 | parsing the rendered form of any valid date-time gives it back |
| TimeNormalizer.RenderParse | main.py:216 | every accepted text is the rendered form of what it parses to |
| TimeNormalizer.TextInstant | main.py:214-219 | a text time has an instant exactly when its part before the first `.` renders a valid date-time, and the instant is that date-time's epoch seconds |
| TimeNormalizer.FractionDiscarded | main.py:216 | a fractional-second suffix does not change the instant |
| TimeNormalizer.NumberAndOther | main.py:220-222 | a number is its own instant; any other value has none |
| TimeNormalizer.TextInstantsOrdered | main.py:216-217 | text times that are earlier field by field normalise to smaller instants |
| KeywordClassifier.CloseFrom | main.py:237-238 | it finds the first `]` that the lazy group can reach before a newline, or reports that none exists |
| KeywordClassifier.MatchAtIff | main.py:237-238 | a bracket match at position p with content c is exactly a `[` at p, the first reachable `]` after it, and c between them |
| KeywordClassifier.SearchSound | main.py:238 | a found content is the content of the leftmost match |
| KeywordClassifier.SearchComplete | main.py:238 | if any match exists, the search finds one |
| KeywordClassifier.FirstBracketIsLeftmostMatch | main.py:237-239 | `re.search` finds nothing exactly when no match exists; otherwise it returns the leftmost match's group |
| KeywordClassifier.LeftmostUnique | main.py:238 | the leftmost match has a single content |
| KeywordClassifier.KeywordOfSpec | main.py:235-242 | a message yields keyword k exactly when it contains `but`, k is non-empty and k is the leftmost bracket content |
| KeywordClassifier.ExampleKeyword | main.py:235-242 | "up but [sql-error] seen" yields "sql-error" |
| KeywordClassifier.ExampleEmptyBrackets | main.py:242 | empty brackets yield no keyword |
| KeywordClassifier.ExampleSearchFromStart | main.py:238 | the search starts at the beginning of the message, not after `but` |
| KeywordClassifier.ExampleNewline | main.py:237 | the lazy group does not cross a newline, so the next bracket is taken |
| IncidentDetector.InsertMultiset | main.py:260 | insertion adds exactly the new beat |
| IncidentDetector.InsertSorted | main.py:260 | insertion keeps the beats sorted by instant |
| IncidentDetector.InsertAtTime | main.py:260 | insertion puts a beat before the beats that have the same instant |
| IncidentDetector.SortSorted | main.py:260 | the sort's output is ordered by instant |
| IncidentDetector.SortMultiset | main.py:260 | the sort's output is a permutation of its input |
| IncidentDetector.SortStable | main.py:260 | the sort keeps the input order of the beats at each instant |
| IncidentDetector.SortFacts | main.py:260 | sorted, a permutation, and stable, together |
| IncidentDetector.AtTimeBelow | main.py:260 | a list whose beats are all later than t has no beat at t |
| IncidentDetector.SortedDeterminedByInstants | main.py:260 | two sorted lists with the same beats in the same order at every instant are equal |
| IncidentDetector.ScanShape | main.py:271-281 | after the walk an incident is open exactly when the last beat is down; the closed incidents number the recoveries and none is ongoing |
| IncidentDetector.IncidentCount | main.py:271-285 | incidents = recoveries + 1 if the stream ends down; only the last can be ongoing, and then it has duration now − start |
| IncidentDetector.NoBeatsNoIncidents | main.py:271-285 | no beats, no incidents |
| IncidentDetector.StepOrdered | main.py:272-280 | one step of the walk over a beat no earlier than the last keeps the incidents chained |
| IncidentDetector.ScanOrdered | main.py:271-281 | walking sorted beats keeps the closed incidents chained, non-negative and ended by the last beat, and an open incident starts after them and no later than the last beat |
| IncidentDetector.IncidentsOrdered | main.py:260-285 | for sorted beats each closed incident ends at or before the next one starts, closed durations are ≥ 0, and starts ascend |
| IncidentDetector.ChainedStartsAscend | main.py:276-280 | chained incidents with non-negative durations have ascending starts |
| IncidentDetector.DurationsNonNegative | main.py:276-285 | when no beat is after `now`, every duration, the ongoing one included, is ≥ 0 |
| IncidentDetector.ReorderingInvariance | main.py:260-285 | inputs with the same beats in the same order at each instant sort to the same list and give the same incidents |
| IncidentDetector.TiedReorderingMatters | main.py:260-285 | swapping a down and an up beat at one instant changes the incidents |
| IncidentDetector.OneOutage | main.py:271-285 | up, down, then up 300 s later gives one closed 300 s incident |
| HeartbeatAnalysis.AnalyzeHeartbeats | main.py:224-287 | the two loops and the final append compute the specified beats, ping samples, keyword statistics and incidents |
| HeartbeatAnalysis.RecordStep | main.py:232-252 | one iteration of the first loop extends each accumulator by that record's contribution |
| HeartbeatAnalysis.KeywordsExactly | main.py:241-256 | the unique keywords are exactly the keywords extracted from some record |
| HeartbeatAnalysis.TriggerCounts | main.py:233-245 | keyword_count ≤ count; at most keyword_count distinct keywords; none exactly when keyword_count is 0 |
| HeartbeatAnalysis.RatioBounds | main.py:257 | for any count not above the total, the ratio expression lies in [0, 100] |
| HeartbeatAnalysis.KeywordBounds | main.py:233-257 | applied to a batch's own counters, the ratio lies in [0, 100], and the `if count > 0` guard makes it 0 for an empty batch |
| HeartbeatAnalysis.KeptBeatsExactly | main.py:248-250 | a beat is kept exactly when some record normalises to its instant and has its status |
| HeartbeatAnalysis.PingSamplesExactly | main.py:248-252 | a ping sample exists exactly for a kept record whose ping is present; samples ≤ kept beats ≤ records |
| HeartbeatAnalysis.AnalysisIncidentsOrdered | main.py:260-285 | the analysis's incidents are chained with ascending starts, and have non-negative durations when no record is after `now` |
| PeriodAggregator.WindowSeconds | main.py:298-302 | every window has a positive length, so the percentage's division is defined |
| PeriodAggregator.Max | main.py:318 | the maximum is one of the values and bounds all of them |
| PeriodAggregator.Percentage | main.py:313 | for any total, the expression `total / period_seconds * 100`: percentage × window length = total × 100, and it is ≥ 0 when the total is |
| PeriodAggregator.CalculateSummaryStats | main.py:289-328 | the loop fills exactly the three windows, each with its specified figures |
| PeriodAggregator.IncidentsSinceShrinks | main.py:309 | a later window start keeps no more incidents and, with non-negative durations, no more downtime |
| PeriodAggregator.IncidentsSinceMembers | main.py:309 | an incident is in the window exactly when it is an input incident that started at or after the window start |
| PeriodAggregator.IncidentsSinceAppend | main.py:309 | the window of a concatenation is the concatenation of the windows, so kept incidents keep their input order and multiplicity |
| PeriodAggregator.TotalDurationNonNegative | main.py:311 | non-negative durations sum to a non-negative total |
| PeriodAggregator.WindowsNested | main.py:298-311 | counts satisfy 日 ≤ 周 ≤ 月, and so do downtime totals when durations are non-negative |
| PeriodAggregator.AverageDuration | main.py:310-312 | avg_duration is 0 when nothing is counted, else total/count to the nearest microsecond |
| PeriodAggregator.PercentageFigure | main.py:311-313 | the summary's percentage field uses the downtime of exactly the incidents counted in that window, and is ≥ 0 when every input duration is |
| PeriodAggregator.PercentageNotCapped | main.py:309-313 | a two-day incident that started an hour ago gives 200% for the day window |
| PeriodAggregator.PingsSinceEmpty | main.py:316 | the window has no ping exactly when every sample is before its start |
| PeriodAggregator.PingsSinceExactly | main.py:316 | the window's pings are exactly the pings of samples at or after its start |
| PeriodAggregator.MeanBetween | main.py:317 | a mean of values between lo and hi lies between lo and hi |
| PeriodAggregator.PingFiguresPresence | main.py:316-318 | avg_ping and max_ping are None exactly when no sample is in the window |
| PeriodAggregator.MaxPingIsWindowMaximum | main.py:316-318 | max_ping is the ping of an in-window sample and bounds every in-window sample |
| PeriodAggregator.AvgPingBetween | main.py:316-318 | min ≤ avg_ping ≤ max_ping over the window's samples |
| PeriodAggregator.EmptyInput | main.py:304-326 | no incidents and no samples give zero counts and durations and no ping figures |
| PeriodStart.ParsePeriod | main.py:149-151 | a period is accepted exactly when its lower-case form is one of the five keys, and then it names that key |
| PeriodStart.QuarterStartMonth | main.py:190 | the quarter starts in month 1, 4, 7 or 10, not after the current month and less than three months before it |
| PeriodStart.OrdinalPositive | main.py:173-176 | stepping back to Monday never leaves the calendar |
| PeriodStart.MonthStartsOrdered | main.py:184-196 | January 1 ≤ the quarter's first day ≤ the month's first day ≤ today |
| PeriodStart.StartOrdinal | main.py:166-196 | every period starts on a real day no later than today |
| PeriodStart.MinutesSinceStart | main.py:163-200 | the elapsed minutes to `now` cut to the minute are non-negative |
| PeriodStart.HoursSincePeriodStart | main.py:149-202 | the result is an error naming the period exactly when the period is unknown; otherwise it is non-negative |
| PeriodStart.KeyCaseInsensitive | main.py:150-151 | a key in any letter case gives the same hours as the lower-case key |
| PeriodStart.WeekStartsMonday | main.py:171-176 | the week starts on a Monday, weekday(today) days back |
| PeriodStart.BackToMonday | main.py:173-176 | stepping back by the weekday lands on a Monday |
| PeriodStart.ElapsedDaysBound | main.py:166-196 | at most 0, 6, 30, 91 or 365 whole days have passed since the period began |
| PeriodStart.HoursBound | main.py:199-202 | the hours are at most 24, 168, 744, 2208 or 8784 |
| PeriodStart.PeriodsNested | main.py:166-202 | day ≤ week, and day ≤ month ≤ quarter ≤ year, in hours elapsed |
| PeriodStart.ExampleTuesday | main.py:163-202 | at 12:30:59 on 2024-03-05: day 12, week 36 and quarter 1548 (all halves rounded to even), and an unknown period is an error |
| DurationFormat.Decompose | main.py:986-988 | days, hours, minutes and seconds recompose to the duration, with hours < 24, minutes < 60 and seconds < 60 |
| DurationFormat.DivModUnique | main.py:986-988 | a quotient and remainder in range are the floor divmod |
| DurationFormat.DecomposeUnique | main.py:986-988 | that breakdown is the only one with in-range units |
| DurationFormat.Parts | main.py:990-998 | at least one part is always shown |
| DurationFormat.ParseUnit | main.py:992-998 | each written part reads back as its count times its unit |
| DurationFormat.ParseOptionalPart | main.py:991-998 | a shown part reads back as its value; a hidden one adds 0 |
| DurationFormat.NoSpaceInParts | main.py:1000 | no part contains the joining space |
| DurationFormat.ParseParts4 | main.py:990-998 | the parts read back as the sum of the shown units' values |
| DurationFormat.PartValuesSum | main.py:991-998 | those values sum to the whole seconds of the breakdown, since only zero units are hidden |
| DurationFormat.ParseBreakdown | main.py:990-1000 | the parts of a breakdown read back as its whole seconds |
| DurationFormat.WholeSeconds | main.py:986-988 | the breakdown's whole seconds are the duration's floor seconds |
| DurationFormat.ShownUnits | main.py:990-998 | days, hours and minutes are written exactly when positive, with their counts; the seconds exactly when the leftover seconds, fraction included, are positive or nothing else is written |
| DurationFormat.ZeroSecondsAlone | main.py:990-998 | for whole seconds, the seconds are written exactly when positive or the duration is zero, and "0s" alone only for zero |
| DurationFormat.FormatThenParse | main.py:982-1000 | reading the text back gives the whole seconds of any non-negative duration: only the fraction of a second is lost |
| DurationFormat.NegativeShowsRemainderOfDay | main.py:986-992 | a negative duration is written as its remainder within one day |
| DurationFormat.UnderOneSecond | main.py:997-998 | a duration under one second is written "0s" |
| DurationFormat.DistinctFromPlaceholders | main.py:984-1000 | a duration of a second or more is written neither "0s" nor "N/A" |
| DurationFormat.Examples | main.py:982-1000 | "1d 1h 1m 1s", "2h", and "1m 0s" for 60.5 seconds |
| ReportChoice.LookupExactly | main.py:115-129 | the mapping selects a period exactly for its number or its key |
| ReportChoice.ChoiceExactly | main.py:115-131 | an answer is accepted exactly when, stripped and lower-cased, it is some option's number or key, and then it selects that option |
| ReportChoice.StripKeeps | main.py:122 | text without whitespace is unchanged by strip |
| ReportChoice.LowerStripIdentity | main.py:122 | a non-empty word of lower-case letters and digits is already normalised |
| ReportChoice.NumbersAndKeysNormal | main.py:116-122 | the option numbers and keys are normalised |
| ReportChoice.EveryOptionReachable | main.py:115-131 | both the number and the key of every option select it |
| ReportChoice.EmptyMeansMonth | main.py:122-125 | an empty or all-whitespace answer selects the monthly report |
| ReportChoice.KeyIsLower | main.py:118 | the keys are their own lower case |
| ReportChoice.ChosenPeriodAccepted | main.py:115-131 | every chosen key is accepted by the period-hours calculation |
| MonitorSelection.BuildDisplay | main.py:340-356 | the loop offers the top-level monitors' ids in order and maps each to its children or to itself |
| MonitorSelection.DisplayExactly | main.py:344-356 | an id is offered exactly when a top-level monitor has it; every offered id is mapped, from the last top-level monitor with that id, to that monitor's `childrenIDs` when it has children and to its own id otherwise |
| MonitorSelection.InsertDistinct | main.py:379-380 | insertion keeps the list ascending without repetition and adds exactly the new id |
| MonitorSelection.SortedDistinct | main.py:379-380 | the result is ascending without repetition and holds exactly the requested ids |
| MonitorSelection.IncreasingUnique | main.py:379-380 | an ascending list without repetition is determined by its elements |
| MonitorSelection.InvalidExactly | main.py:383 | the invalid ids are exactly the selected ids that are not offered |
| MonitorSelection.InvalidIncreasing | main.py:383 | the invalid ids keep the ascending order of the selection |
| MonitorSelection.FindInvalid | main.py:383 | the loop computes the invalid ids |
| MonitorSelection.AppendChildren | main.py:396-397 | the inner loop appends all of a group's children in order |
| MonitorSelection.ExpandSelected | main.py:388-400 | the loop expands each selected id in order: a group's id then its children, or a single id |
| MonitorSelection.SelectMonitors | main.py:340-401 | the whole step computes the specified outcome for the parsed ids |
| MonitorSelection.RejectedExactly | main.py:383-386 | an answer is rejected exactly when it names an id that is not offered, and the rejection lists those ids once each, ascending |
| MonitorSelection.RequestedOffered | main.py:383-386 | in an accepted answer every requested id is offered and mapped |
| MonitorSelection.ExpansionExactly | main.py:391-400 | an id is in the expansion exactly when it is a selected id or a child of a selected group |
| MonitorSelection.SameSelection | main.py:378-380 | the deduplicated selection and the requested ids name the same ids and groups |
| MonitorSelection.AcceptedExactly | main.py:378-401 | a monitor id is reported exactly when it was requested or is a child of a requested group |
| MonitorSelection.OrderAndRepetitionIgnored | main.py:378-380 | answers naming the same set of ids give the same outcome |

## Left out

- Console and file I/O is not modelled: `input`, `print`, `getpass`, the YAML configuration, the banner, and the prompt loops that ask again after an invalid answer. `ReportChoice.ChooseReport` returns `None` and `MonitorSelection.Select` returns `Err` where the source prompts again.
- The Uptime Kuma API client, `main`, and the Word rendering of `generate_docx_report` are not modelled. They are a network client and a document library.
- Clock reads become an explicit `now` parameter. The source reads the clock separately in `analyze_heartbeats` and in `calculate_summary_stats`. The model uses one value for both.
- pytz and zone conversion are not modelled: instants are UTC epoch seconds, and the period hours take Asia/Shanghai calendar fields.
- TimeNormalizer.ParseDateTime: accepts only the fixed-width form `YYYY-MM-DD HH:MM:SS` with ASCII digits. `strptime` also accepts one-digit fields, any run of whitespace for the space, and non-ASCII digits.
- TimeNormalizer.ToInstant: float epoch values are not modelled. `bool` passed as a number is not modelled. An epoch value outside `datetime`'s range, which raises an uncaught error in the source, has an instant in the model.
- HeartbeatAnalysis.AnalyzeHeartbeats: `keyword_ratio` is an exact real, without `round(…, 2)`. Pings are integers.
- HeartbeatAnalysis.AnalyzeHeartbeats: keywords are a set. The source appends the keyword once per character and then builds a set, so the duplicates have no effect. The order of `list(set(…))` is unspecified in Python.
- HeartbeatAnalysis.AnalyzeHeartbeats and DurationFormat.FormatTimedelta: `now` is whole epoch seconds, while `datetime.now()` carries microseconds. The ongoing incident's duration `now - start`, and so the averages and the "… Ns" tail of its text, cannot have the sub-second part that the source can give them.
- PeriodStart.HoursSincePeriodStart: the error `InvalidPeriod` carries the rejected period. The source's `ValueError` message lists the five valid periods instead.
- PeriodAggregator.Summarize: `percentage` and `avg_ping` are exact reals, not floats (as is PeriodAggregator.Percentage).
- DurationFormat.FormatTimedelta: takes whole microseconds and divides exactly. Float rounding of `total_seconds()` for very long durations is not modelled.
- MonitorSelection.SelectMonitors: takes the already parsed ids. Parsing with `int(s.strip())` after `split(',')`, and its `ValueError`, are not modelled. The branch at main.py:358 cannot run, because a list is never `None`.
