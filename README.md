# MOEX client: trading calendar and candle aggregation

This project models the calendar and aggregation core of a small client for the
Moscow Exchange's ISS service. It covers the part that decides which days are
trading days and which dates a request covers. It also covers how the answers
(candles) are reduced to the figures the library reports.

- **Trading calendar** (`calendar.dfy`). A day is closed when it is on the
  holiday list, or when it is a Saturday or Sunday that is not on the list of
  working weekend days. A closed endpoint of a requested period is either
  rejected (strict mode) or moved to the nearest trading day forward or back
  (soft mode). The move is a bounded walk of at most `MAX_DAYS_WEEKENDS` days,
  which raises OverflowError when it steps past 0001-01-01 or 9999-12-31.
  The trading days of a period are listed by filtering.
- **Session locator** (`session.dfy`). Finds the latest trading day at a given
  instant, and whether trading is open at that instant. Before the opening time
  it starts from the previous day. An instant not after the first trading day of
  the year is rejected.
- **Dates** (`dates.dfy`, `text.dfy`). A `date` is its proleptic Gregorian
  ordinal, as Python's `date.toordinal()` gives it. `to_date`/`from_date` are
  the `YYYY-MM-DD` text form, with both round trips proved. `to_time` and
  `datetime_format` are modelled too. Python's string `<` is modelled, since the
  source uses it to compare stamps.
- **Candle reducers** (`records.dfy`). The latest candle of a list. The distinct
  days of a list, in first-seen order. The closing value of each day.
- **Request plan and merge** (`requests.dfy`). One task per trading day, and the
  concatenation of the answers in task order.
- **Index composition** (`composition.dfy`). All listings, and the current ones.
- **Summaries** (`interval.dfy`, `dynamics.dfy`, `labels.dfy`). `Interval` gives
  the greatest, least and mean close over a period. `Dynamics` gives the change
  between the last candles of two days.

Every Python exception the core raises is an `Err` value of one `Error`
datatype (`errors.dfy`). Each loop of the source is a Dafny `method` with its
loop. Each method is proved equal to a specification function, and the
properties are proved about those functions.

`datetime.now()`, `datetime.today()` and the two calendar lists are passed as
parameters. `constants.dfy` holds the 2024 values of `values/constans.py`.

Where the code and its documentation differ, the model follows the code:

- The holiday list and the working-day list are not disjoint. 2024-11-02 and
  2024-12-28 are on both, and the holiday list wins
  (`Constants.DoublyListedSaturdaysAreClosed`).
- Python's `max`/`min` with a key break ties by position, not by timestamp.
  The first of the greatest keys is chosen, and the model proves exactly that.
- `check_date` does not check that the start comes before the end. The model
  keeps that, and proves that snapping keeps the order of an ordered request
  (`Calendar.ResolvePreservesOrder`).

## Model

| member | source | states |
|---|---|---|
| Calendar.IsNotTradeDate | custom/custom_functions.py:66-76 | a listed holiday is closed; an unlisted day is closed exactly when it is a Saturday or Sunday not listed as a working day; a listed working day not also listed as a holiday is open |
| Calendar.GetNextDateForCheck | custom/custom_functions.py:150-165 | the next day to test is one day earlier when going back and one day later otherwise, and the weekday moves with it |
| Calendar.StepRoundTrip | custom/custom_functions.py:150-165 | a step one way followed by a step the other way returns to the starting day |
| Calendar.WalkFindsFirstTradingDay | custom/custom_functions.py:285-293 | the bounded walk returns the first trading day among the days it may test, and returns nothing exactly when all of them are closed |
| Calendar.SearchDirection | custom/custom_functions.py:277-283 | `back` walks backwards, `forward` walks forwards, and any other mode has no direction |
| Calendar.SnapIsNearestTradingDay | custom/custom_functions.py:262-294 | an unexpected mode raises SomethingWentWrong; otherwise OverflowError is raised exactly when the walk steps out of the date range before meeting a trading day, TooManyDaysOffInARow exactly when it does not and all `MAX_DAYS_WEEKENDS` days are closed, and else the result is the nearest trading day in the chosen direction, a date when the start is one |
| Calendar.OverflowsIffLeavesRange | custom/custom_functions.py:150-165 | the step-by-step overflow test of the walk holds exactly when, within its steps, the walk reaches a day out of range with every earlier day closed |
| Calendar.WalkStaysInRange | custom/custom_functions.py:285-289 | a walk from a date that does not overflow stops on a date |
| Calendar.SnapOverflowsAtRangeEnds | custom/custom_functions.py:160-164 | searching back from a closed 0001-01-01, or forward from a closed 9999-12-31, raises OverflowError, in `loop_check_date` and in `check_date` |
| Calendar.SnapStopsAtFirstTradingDay | custom/custom_functions.py:285-293 | no trading day lies strictly between the starting day and the snapped day |
| Calendar.LoopCheckDate | custom/custom_functions.py:262-294 | the loop returns or raises what the specification of the snap gives |
| Calendar.CheckDate | custom/custom_functions.py:297-361 | the procedure returns or raises what the period-resolution specification gives |
| Calendar.ResolveRejectsBadInput | custom/custom_functions.py:316-331 | an unparsable start raises IsNotValidDate for the start; an unparsable end raises it for the end; an endpoint after today raises IsNotValidPeriod |
| Calendar.OmittedEndIsLastTradeDay | custom/custom_functions.py:324 | a missing or empty end date is replaced by the last trading day |
| Calendar.TradingPeriodUnchanged | custom/custom_functions.py:333-361 | a period whose endpoints are trading days no later than today comes back unchanged in every mode |
| Calendar.StrictModeNamesClosedEndpoints | custom/custom_functions.py:336-358 | in strict mode a closed endpoint raises SpecifiedDayIsNotTradingDay naming every closed endpoint |
| Calendar.UnexpectedModeNeedsClosedEndpoint | custom/custom_functions.py:342-359 | an unknown mode raises SomethingWentWrong when an endpoint has to move |
| Calendar.SoftModeSnapsEachEndpoint | custom/custom_functions.py:336-361 | in soft mode the period resolves exactly when both endpoints snap, and it resolves to the two snapped days |
| Calendar.ResolvedEndpointsAreTradingDays | custom/custom_functions.py:333-361 | both endpoints of a resolved period are trading days, and dates when the requested endpoints are |
| Calendar.ResolvePreservesOrder | custom/custom_functions.py:333-361 | an ordered request resolves to an ordered period |
| Calendar.IsValidPeriod | custom/custom_functions.py:364-378 | a period is valid exactly when the later of its two endpoints is not after today |
| Calendar.IntervalTradingDays | custom/custom_functions.py:381-396 | the result lists, in increasing order, exactly the trading days between the two endpoints; it is empty when the start is after the end |
| Constants.DoublyListedSaturdaysAreClosed | values/constans.py:15-28 | the two Saturdays on both 2024 lists are closed; the Saturday only on the working-day list is open |
| Constants.SessionTimesMatchText | values/constans.py:32-33 | the opening and closing times are what `'10:01:00'` and `'18:55:00'` read as |
| Constants.FirstTradeDayMatchesText | values/constans.py:14 | the first trading day is what `'2024-01-03 00:00:00'` reads as |
| Dates.ToDate | custom/custom_functions.py:79-89 | a successful parse gives a day inside Python's date range |
| Dates.FromDate | custom/custom_functions.py:92-102 | printing a date gives a ten-character `YYYY-MM-DD` text |
| Dates.ParsePrint | custom/custom_functions.py:79-102 | printing a date and parsing the text gives the date back |
| Dates.PrintParse | custom/custom_functions.py:79-102 | a text that parses prints back as the same text |
| Dates.ToTime | custom/custom_functions.py:105-115 | a parsed `HH:MM:SS` is a valid time of day |
| Dates.FromTime | custom/custom_functions.py:117-128 | printing a time of day gives an eight-character `HH:MM:SS` text |
| Dates.TimeParsePrint | custom/custom_functions.py:105-128 | printing a time of day and parsing the text gives the time back |
| Dates.TimePrintParse | custom/custom_functions.py:105-128 | a text that parses as a time of day prints back as the same text, so the parsed time is the hours, minutes and seconds the text spells |
| Dates.ParseDateTime | custom/custom_functions.py:131-142 | a parsed stamp has a valid date and time, and its first ten characters parse to its date |
| Dates.FromDateTime | custom/custom_functions.py:144 | printing a datetime gives a nineteen-character text whose first ten characters are the printed date, followed by a space |
| Dates.ParseDateTimeParts | custom/custom_functions.py:141-142 | a stamp parses exactly when its date part and its time part parse, and it then holds that date and that time |
| Dates.DateTimeParsePrint | custom/custom_functions.py:131-144 | printing a datetime and parsing the text gives the datetime back |
| Dates.DateTimePrintParse | custom/custom_functions.py:131-144 | a text that parses as a datetime prints back as the same text |
| Dates.Normalize | custom/custom_functions.py:143-144 | printing a datetime and parsing the text back, which succeeds, keeps its day and its second of the day and drops the microseconds |
| Session.LastTradeDay | custom/custom_functions.py:168-199 | the locator with the holiday lists honoured returns or raises what the session specification gives |
| Session.LocateFrom | custom/custom_functions.py:181-199 | from a normalised instant, the first-day check, the step back before opening and the walk return or raise what the session specification gives |
| Session.LastSessionIsLatestTradingDay | custom/custom_functions.py:168-199 | InitialDateLessFirstDate is raised exactly for instants not after the first trading day; TooManyDaysOffInARow is raised exactly when the whole window is closed; otherwise the locator succeeds, the result is the latest trading day in the window, every later day in the window is closed, and trading is open exactly when that day is today and the time lies strictly between opening and closing |
| Session.BeforeOpeningStartsFromPreviousDay | custom/custom_functions.py:182-183 | before the opening time the walk starts from the previous day; from the opening time on it starts from the same day |
| Session.GetLastTradeDay | custom/custom_functions.py:180-199 | the locator as written behaves as the locator given empty holiday and working-day lists |
| Session.HolidayIgnoredAsWritten | custom/custom_functions.py:184-190 | at noon on the 2024-02-23 holiday the code as written reports that day with trading open, while the corrected locator reports 2024-02-22 with trading closed |
| IndexComposition.CurrentTill | custom/custom_functions.py:222 | the current exclusion date is that of the first listing with the greatest inclusion date: no listing has a later one and every earlier listing has an earlier one |
| IndexComposition.GetCompositionMoex | custom/custom_functions.py:202-235 | an empty table raises; otherwise the loop builds the full map, the current map and the current tickers of the specification |
| IndexComposition.FullOfIsLastListing | custom/custom_functions.py:224-226 | every ticker of the table is in the full map, with the span of its last listing |
| IndexComposition.ActualOfIsLastCurrentListing | custom/custom_functions.py:224-228 | the current map holds exactly the tickers with a listing ending on the current date, each with its last such span |
| IndexComposition.TickersOfAreCurrentListings | custom/custom_functions.py:224-229 | the current ticker list has at most one entry per row, and its tickers are exactly the keys of the current map |
| IndexComposition.TickersOfInTableOrder | custom/custom_functions.py:224-229 | the current ticker list has one entry per row ending on the current date, in table order, each the ticker of its row |
| Records.FirstMax | custom/custom_functions.py:250 | `max` with a string key picks the first of the greatest keys |
| Records.GetLastValue | custom/custom_functions.py:238-259 | an empty list raises; otherwise the result is the first candle with the greatest end stamp, and no candle ends later |
| Records.RowsOn | custom/custom_functions.py:463 | the filter fails exactly when some stamp does not read as a date; otherwise it keeps exactly the candles of the day |
| Records.PickKeepsOrder | custom/custom_functions.py:463 | the filter keeps the candles' order |
| Records.CloseOnExists | custom/custom_functions.py:462-465 | a day has a closing value exactly when every stamp reads as a date and some candle falls on that day |
| Records.CloseOnIsLatestCandle | custom/custom_functions.py:462-465 | a day's closing value is the close of its latest candle, the first of them in the list on a tie |
| Records.Distinct | custom/custom_functions.py:440-445 | the distinct days hold every day that occurs, each once, and exist exactly when every entry is a day |
| Records.DistinctInFirstSeenOrder | custom/custom_functions.py:440-445 | the distinct days come in the order in which they first occur |
| Records.UniqueDays | custom/custom_functions.py:430-445 | the unique dates exist exactly when every stamp reads as a date, hold each day of a candle once, and hold nothing else |
| Records.GetUniqueDates | custom/custom_functions.py:430-445 | the loop returns or raises what the unique-dates specification gives |
| Records.UniqueDaysInFirstSeenOrder | custom/custom_functions.py:440-445 | the unique dates come in the order in which the candles first show them |
| Records.Collect | custom/custom_functions.py:461-466 | collecting per-day results succeeds exactly when every result is a value, and then gives those values in order |
| Records.CollectKeepsFirstError | custom/custom_functions.py:462-465 | once a prefix of the per-day results fails, the collection fails with that prefix's error |
| Records.CloseValues | custom/custom_functions.py:448-466 | the close values exist exactly when each date has a closing value; then there is one per date, in order, namely that date's closing value |
| Records.CloseValuesKeepsFirstError | custom/custom_functions.py:462-465 | a failure is the error of the first date without a closing value |
| Records.GetCloseValues | custom/custom_functions.py:448-466 | the loop returns or raises what the close-values specification gives |
| Records.CloseValuesOfUniqueDays | tech/interval.py:75-76 | applied to its own unique dates, the close values never fail and have one entry per date |
| Requests.FullRequestsParams | custom/custom_functions.py:399-427 | there is one task per trading day, and the task numbered `n` asks for the candles of the `n`-th day alone |
| Requests.TaskNamesDistinct | custom/custom_functions.py:419 | different task numbers give different task names, so no entry overwrites another |
| Requests.DayTaskAsksForItsDay | custom/custom_functions.py:421-426 | both date parameters of a task read back as its trading day |
| Text.NatToStringInjective | custom/custom_functions.py:419 | different numbers print differently |
| Requests.FromRaw | custom/custom_functions.py:469-483 | the merge succeeds exactly when every task has an answer; otherwise it raises KeyError for the first task without one |
| Requests.FromRawSingle | custom/custom_functions.py:482-483 | no tasks merge to no candles, and one answered task merges to exactly its answer |
| Requests.FromRawAppend | custom/custom_functions.py:482-483 | merging two task lists in sequence gives the concatenation of their merges |
| Requests.FromRawMembers | custom/custom_functions.py:482-483 | a candle is in the merge exactly when it is in some task's answer |
| Labels.StampLabel | tech/interval.py:32-46 | with the string flag a stamp is kept as text; otherwise it becomes a datetime exactly when it parses, and that datetime's date is the stamp's date |
| TechInterval.FirstMaxClose | tech/interval.py:29 | `max` picks the first of the greatest closes |
| TechInterval.FirstMinClose | tech/interval.py:30 | `min` picks the first of the least closes |
| TechInterval.NewInterval | tech/interval.py:21-49 | construction raises ValueError exactly on an empty list, or else on a stamp that does not parse; a built interval keeps its name and candles, stores the first greatest and first least candles, and labels the period with the requested days |
| TechInterval.NewIntervalSucceeds | tech/interval.py:21-49 | construction raises on an empty list and only then with that error; with the string flag, or when all stamps parse, it succeeds |
| TechInterval.MaxValueIsFirstGreatestClose | tech/interval.py:110-122 | `max_value` is the greatest close, taken from the first candle that has it, with that candle's stamps |
| TechInterval.MinValueIsFirstLeastClose | tech/interval.py:124-136 | `min_value` is the least close, taken from the first candle that has it, with that candle's stamps |
| TechInterval.MaxValue | tech/interval.py:110-122 | `max_value` is at least every close and is first reached by some candle, with the stamps stored for the greatest candle |
| TechInterval.MinValue | tech/interval.py:124-136 | `min_value` is at most every close and is first reached by some candle, with the stamps stored for the least candle |
| TechInterval.AvgValue | tech/interval.py:138-150 | `avg_value` lies between `min_value` and `max_value` and carries the period's endpoints |
| TechInterval.MeanOfClosesBounds | tech/interval.py:149 | the mean close lies between the least and the greatest close |
| TechInterval.AvgValueBetweenMinAndMax | tech/interval.py:138-150 | `avg_value` lies between `min_value` and `max_value`, and carries the period's endpoints |
| TechDynamics.LastValueIsOnItsDay | tech/dynamics.py:29-37 | the latest candle of a day has a stamp that reads back as that day |
| TechDynamics.NewDynamics | tech/dynamics.py:23-48 | construction raises only ValueError for a bad stamp or a day without candles; a built dynamics labels each close with its own point |
| TechDynamics.Value | tech/dynamics.py:53-61 | the change added to the first close gives the second close |
| TechDynamics.FullInfo | tech/dynamics.py:73-84 | `full_info` gives two points, the first and the second close in order, which differ by the change |
| TechDynamics.NewDynamicsComparesCloses | tech/dynamics.py:23-48 | a dynamics exists exactly when both days have a closing value; it compares those closes, and `full_info` labels them with the two requested days |
| TechDynamics.Percent | tech/dynamics.py:63-71 | the percentage raises ZeroDivisionError exactly when the first close is zero; otherwise it is the change as a percentage of the first close |
| TechDynamics.SwappedPeriodNegatesValue | tech/dynamics.py:53-61 | swapping the two days negates the change |
| TechDynamics.SameDayHasNoChange | tech/dynamics.py:53-61 | a day compared with itself shows no change |

## Left out

- `Helper.fetch` and `Helper.generate_requests` are left out. They perform HTTP requests concurrently, and the answers they collect become the `raw` map given to `Requests.FromRaw`.
- The instrument classes in `tech/` other than `Interval` and `Dynamics`, the `moex.py` facade and `example.py` are not part of this model. They only wire the helpers to the network.
- `Interval.get_plot` is left out. It draws with matplotlib and writes a file. The two reducers it calls are modelled, with `Records.CloseValuesOfUniqueDays`.
- `TechInterval.MaxValue`, `MinValue`, `AvgValue` and `TechDynamics.FullInfo` require the invariant that the constructor establishes (`ValidInterval`, `ValidDynamics`). In Python they are methods on an object that `__init__` built, so no other object reaches them.
- `round(x, 2)` is left out. `TechInterval.AvgValue`, `TechDynamics.Value` and `TechDynamics.Percent` are exact reals, because binary floating point is not modelled.
- `datetime.now()` and `datetime.today()` are parameters (`startDt`, `today`). The calendar lists are also parameters (`TradingCalendar`), with the 2024 values in `Constants.Calendar2024`.
- Dates.ToDate: accepts only the zero-padded `YYYY-MM-DD` form, because `strptime` also accepts unpadded month and day fields and that leniency is not modelled.
- Dates.FromDate: always prints a four-digit, zero-padded year. On some platforms `strftime('%Y')` prints years below 1000 without padding, and that is not modelled.
- Session.LastTradeDay: requires `ValidConfig`, a first trading day at least `MAX_DAYS_WEEKENDS + 1` days after the first representable date. The OverflowError of a walk that leaves Python's date range is therefore not modelled.
- `datetime_format` applied to an object that is neither text nor a datetime raises SomethingWentWrong. This is not modelled, because every caller in the core passes one of the two.
- IndexComposition.GetCompositionMoex: a composition row is modelled by its first three fields. The ValueError of a shorter row is not modelled, and neither is the insertion order of the two result dictionaries (they are maps).
- Requests.FullRequestsParams: the two dictionaries are one sequence of tasks in insertion order. `Requests.TaskNamesDistinct` shows that no key repeats.
- Requests.FromRaw: an answer is modelled by its `['candles']['data']` rows. The KeyError of an answer missing those keys is not modelled.
- Calendar.CheckDate: the instrument classes call `check_date` with their own argument lists. The model follows the signature in `custom/custom_functions.py`.
- TechDynamics.NewDynamics: the two points of `full_info` carry their day under one field name (`period`). The source uses the keys `period_from` and `period_to`.

## Findings

| source | as written | input that shows it | evidently intended | confidence | as-written member | corrected member |
|---|---|---|---|---|---|---|
| custom/custom_functions.py:180-186 | `trade_date` is a `datetime`. `is_not_trade_date` looks it up in lists of `date` values, and a `datetime` never equals a `date`, so holidays and working Saturdays are ignored | `start_dt` = 2024-02-23 12:00:00, a Friday on the holiday list, with today 2024-02-23: the code reports `2024-02-23` with trading open | report `2024-02-22` with trading closed, by classifying the instant's date | not executed | Session.GetLastTradeDay, Session.HolidayIgnoredAsWritten | Session.LastTradeDay |
