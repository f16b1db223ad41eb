/** The trading calendar and the period resolver of `Helper`
    (custom/custom_functions.py): the trading-day classifier, one-day stepping,
    the bounded soft search, `check_date` and `interval_trading_days`. */
module Calendar {
  import opened Errors
  import opened Dates

  /** `Helper.WEEKENDS` (weekdays the exchange is closed) and `Helper.WORKDAYS`
      (Saturdays and Sundays it is open). The two lists need not be disjoint. */
  datatype TradingCalendar = TradingCalendar(weekends: seq<Day>, workdays: seq<Day>)

  predicate IsSaturdayOrSunday(d: Day) { Weekday(d) == 5 || Weekday(d) == 6 }

  /** `Helper.is_not_trade_date`. A listed holiday is closed even when it is also
      listed as a working day; otherwise a listed working day is open, and any
      other day is closed exactly on Saturday and Sunday. */
  function IsNotTradeDate(cal: TradingCalendar, d: Day): (closed: bool)
    ensures d in cal.weekends ==> closed
    ensures d !in cal.weekends && d in cal.workdays ==> !closed
    ensures d !in cal.weekends && d !in cal.workdays ==> (closed <==> IsSaturdayOrSunday(d))
    ensures !IsSaturdayOrSunday(d) ==> (closed <==> d in cal.weekends)
  {
    d in cal.weekends || (IsSaturdayOrSunday(d) && d !in cal.workdays)
  }

  /** `Helper.get_next_date_for_check`: one calendar day back or forward. */
  function GetNextDateForCheck(d: Day, goBack: bool): (next: Day)
    ensures goBack ==> next < d
    ensures !goBack ==> next > d
    ensures next - d == 1 || d - next == 1
    ensures Weekday(next) == (Weekday(d) + (if goBack then 6 else 1)) % 7
  {
    if goBack then d - 1 else d + 1
  }

  /** Stepping one way and then the other returns to the starting day. */
  lemma StepRoundTrip(d: Day, goBack: bool)
    ensures GetNextDateForCheck(GetNextDateForCheck(d, goBack), !goBack) == d
  {
  }

  /** The day `k` steps from `d` in the chosen direction. */
  function Shift(d: Day, goBack: bool, k: nat): Day
  {
    if goBack then d - k else d + k
  }

  /** The bounded walk shared by `get_last_trade_day` and `loop_check_date`: test
      at most `fuel` days starting at `d`, stepping one day each time, and stop at
      the first trading day. */
  function Walk(cal: TradingCalendar, d: Day, goBack: bool, fuel: nat): Option<Day>
    decreases fuel
  {
    if fuel == 0 then None
    else if !IsNotTradeDate(cal, d) then Some(d)
    else Walk(cal, GetNextDateForCheck(d, goBack), goBack, fuel - 1)
  }

  /** The walk finds the first trading day among the `fuel` days it may test, and
      finds nothing exactly when all of them are closed. */
  lemma {:induction false} WalkFindsFirstTradingDay(cal: TradingCalendar, d: Day, goBack: bool, fuel: nat)
    ensures Walk(cal, d, goBack, fuel).None?
        <==> forall j :: 0 <= j < fuel ==> IsNotTradeDate(cal, Shift(d, goBack, j))
    ensures Walk(cal, d, goBack, fuel).Some? ==>
              var x := Walk(cal, d, goBack, fuel).value;
              var k := if goBack then d - x else x - d;
              && 0 <= k < fuel
              && x == Shift(d, goBack, k)
              && !IsNotTradeDate(cal, x)
              && forall j :: 0 <= j < k ==> IsNotTradeDate(cal, Shift(d, goBack, j))
    decreases fuel
  {
    if fuel > 0 && IsNotTradeDate(cal, d) {
      var next := GetNextDateForCheck(d, goBack);
      WalkFindsFirstTradingDay(cal, next, goBack, fuel - 1);
      forall j | 0 <= j < fuel - 1
        ensures Shift(next, goBack, j) == Shift(d, goBack, j + 1)
      {
      }
      if Walk(cal, d, goBack, fuel).None? {
        forall j | 0 <= j < fuel
          ensures IsNotTradeDate(cal, Shift(d, goBack, j))
        {
          if j > 0 {
            assert Shift(d, goBack, j) == Shift(next, goBack, j - 1);
          }
        }
      } else {
        var x := Walk(cal, d, goBack, fuel).value;
        var k := if goBack then d - x else x - d;
        forall j | 0 <= j < k
          ensures IsNotTradeDate(cal, Shift(d, goBack, j))
        {
          if j > 0 {
            assert Shift(d, goBack, j) == Shift(next, goBack, j - 1);
          }
        }
      }
      if forall j :: 0 <= j < fuel ==> IsNotTradeDate(cal, Shift(d, goBack, j)) {
        forall j | 0 <= j < fuel - 1
          ensures IsNotTradeDate(cal, Shift(next, goBack, j))
        {
          assert Shift(next, goBack, j) == Shift(d, goBack, j + 1);
        }
      }
    } else if fuel > 0 {
      assert Shift(d, goBack, 0) == d;
    }
  }

  /** Whether the walk of `loop_check_date` steps out of Python's date range:
      some closed day it tests, with fuel left, is 0001-01-01 going back or
      9999-12-31 going forward, and `get_next_date_for_check` overflows. */
  predicate Overflows(cal: TradingCalendar, d: Day, goBack: bool, fuel: nat)
    decreases fuel
  {
    && fuel > 0
    && IsNotTradeDate(cal, d)
    && (!InRange(GetNextDateForCheck(d, goBack)) || Overflows(cal, GetNextDateForCheck(d, goBack), goBack, fuel - 1))
  }

  /** Reference for `Overflows`: within the `fuel` steps the walk may take, it
      reaches a day out of range while every day before it is closed. */
  ghost predicate LeavesRange(cal: TradingCalendar, d: Day, goBack: bool, fuel: nat)
  {
    exists k: nat :: 1 <= k <= fuel && !InRange(Shift(d, goBack, k))
                     && forall j :: 0 <= j < k ==> IsNotTradeDate(cal, Shift(d, goBack, j))
  }

  lemma {:induction false} OverflowsIffLeavesRange(cal: TradingCalendar, d: Day, goBack: bool, fuel: nat)
    ensures Overflows(cal, d, goBack, fuel) <==> LeavesRange(cal, d, goBack, fuel)
    decreases fuel
  {
    if fuel > 0 {
      var next := GetNextDateForCheck(d, goBack);
      assert Shift(d, goBack, 0) == d && Shift(d, goBack, 1) == next;
      OverflowsIffLeavesRange(cal, next, goBack, fuel - 1);
      if Overflows(cal, d, goBack, fuel) && InRange(next) {
        var k: nat :| 1 <= k <= fuel - 1 && !InRange(Shift(next, goBack, k))
                      && forall j :: 0 <= j < k ==> IsNotTradeDate(cal, Shift(next, goBack, j));
        assert Shift(d, goBack, k + 1) == Shift(next, goBack, k);
        forall j | 0 <= j < k + 1
          ensures IsNotTradeDate(cal, Shift(d, goBack, j))
        {
          if j > 0 {
            assert Shift(d, goBack, j) == Shift(next, goBack, j - 1);
          }
        }
      }
      if LeavesRange(cal, d, goBack, fuel) && InRange(next) {
        var k: nat :| 1 <= k <= fuel && !InRange(Shift(d, goBack, k))
                      && forall j :: 0 <= j < k ==> IsNotTradeDate(cal, Shift(d, goBack, j));
        assert k > 1;
        assert Shift(next, goBack, k - 1) == Shift(d, goBack, k);
        forall j | 0 <= j < k - 1
          ensures IsNotTradeDate(cal, Shift(next, goBack, j))
        {
          assert Shift(next, goBack, j) == Shift(d, goBack, j + 1);
        }
      }
    } else {
      assert !LeavesRange(cal, d, goBack, fuel);
    }
  }

  /** A walk that starts on a date and does not overflow tests only dates, so
      the day it stops on is one. */
  lemma {:induction false} WalkStaysInRange(cal: TradingCalendar, d: Day, goBack: bool, fuel: nat)
    requires InRange(d) && !Overflows(cal, d, goBack, fuel)
    ensures Walk(cal, d, goBack, fuel).Some? ==> InRange(Walk(cal, d, goBack, fuel).value)
    decreases fuel
  {
    if fuel > 0 && IsNotTradeDate(cal, d) {
      WalkStaysInRange(cal, GetNextDateForCheck(d, goBack), goBack, fuel - 1);
    }
  }

  /** The `match soft_search` of `loop_check_date`: "back" walks backwards,
      "forward" forwards, anything else is unexpected. */
  function SearchDirection(softSearch: string): (goBack: Option<bool>)
    ensures goBack == Some(true) <==> softSearch == "back"
    ensures goBack == Some(false) <==> softSearch == "forward"
  {
    if softSearch == "forward" then Some(false)
    else if softSearch == "back" then Some(true)
    else None
  }

  /** What `loop_check_date` returns or raises. */
  function Snap(cal: TradingCalendar, maxDays: nat, softSearch: string, d: Day): Result<Day>
  {
    match SearchDirection(softSearch)
    case None => Err(SomethingWentWrong)
    case Some(goBack) =>
      if Overflows(cal, d, goBack, maxDays) then Err(Overflow)
      else
        match Walk(cal, d, goBack, maxDays)
        case Some(x) => Ok(x)
        case None => Err(TooManyDaysOffInARow)
  }

  /** `loop_check_date`: an unexpected mode raises SomethingWentWrong;
      otherwise the walk raises OverflowError exactly when it steps past the
      first or last date before meeting a trading day, raises
      TooManyDaysOffInARow exactly when it does not and all `maxDays` days it
      tests are closed, and else returns the first trading day among `d` and
      the next `maxDays - 1` days in the chosen direction, which is a date when
      `d` is one. */
  lemma SnapIsNearestTradingDay(cal: TradingCalendar, maxDays: nat, softSearch: string, d: Day)
    ensures SearchDirection(softSearch).None? ==> Snap(cal, maxDays, softSearch, d) == Err(SomethingWentWrong)
    ensures SearchDirection(softSearch).Some? ==>
              var goBack := SearchDirection(softSearch).value;
              var r := Snap(cal, maxDays, softSearch, d);
              && (r == Err(Overflow) <==> LeavesRange(cal, d, goBack, maxDays))
              && (r == Err(TooManyDaysOffInARow) <==>
                    && !LeavesRange(cal, d, goBack, maxDays)
                    && forall j :: 0 <= j < maxDays ==> IsNotTradeDate(cal, Shift(d, goBack, j)))
              && (r.Err? ==> r.error == Overflow || r.error == TooManyDaysOffInARow)
              && (r.Ok? ==>
                   var k := if goBack then d - r.value else r.value - d;
                   && 0 <= k < maxDays
                   && r.value == Shift(d, goBack, k)
                   && !IsNotTradeDate(cal, r.value)
                   && (forall j :: 0 <= j < k ==> IsNotTradeDate(cal, Shift(d, goBack, j)))
                   && (InRange(d) ==> InRange(r.value)))
  {
    if SearchDirection(softSearch).Some? {
      var goBack := SearchDirection(softSearch).value;
      WalkFindsFirstTradingDay(cal, d, goBack, maxDays);
      OverflowsIffLeavesRange(cal, d, goBack, maxDays);
      if InRange(d) && !Overflows(cal, d, goBack, maxDays) {
        WalkStaysInRange(cal, d, goBack, maxDays);
      }
    }
  }

  /** Holding 0001-01-01 closed and searching back from it, or 9999-12-31 and
      searching forward, overflows, where a walk over unbounded integers would
      return a day outside the years 1 to 9999. */
  lemma SnapOverflowsAtRangeEnds()
    ensures Snap(TradingCalendar([MinDay], []), 15, "back", MinDay) == Err(Overflow)
    ensures ResolveDays(TradingCalendar([MinDay], []), 15, MinDay, Some("back"), MinDay, MinDay) == Err(Overflow)
    ensures Snap(TradingCalendar([MaxDay], []), 15, "forward", MaxDay) == Err(Overflow)
  {
  }

  /** No trading day lies between the start of a soft search and where it stops. */
  lemma SnapStopsAtFirstTradingDay(cal: TradingCalendar, maxDays: nat, softSearch: string, d: Day, e: Day)
    requires Snap(cal, maxDays, softSearch, d).Ok?
    requires !IsNotTradeDate(cal, e)
    ensures softSearch == "forward" && d <= e ==> Snap(cal, maxDays, softSearch, d).value <= e
    ensures softSearch == "back" && e <= d ==> e <= Snap(cal, maxDays, softSearch, d).value
  {
    SnapIsNearestTradingDay(cal, maxDays, softSearch, d);
    var x := Snap(cal, maxDays, softSearch, d).value;
    if softSearch == "forward" && d <= e {
      assert Shift(d, false, e - d) == e;
    }
    if softSearch == "back" && e <= d {
      assert Shift(d, true, d - e) == e;
    }
  }

  /** `Helper.loop_check_date`. */
  method LoopCheckDate(cal: TradingCalendar, maxDays: nat, softSearch: string, period: Day)
    returns (r: Result<Day>)
    ensures r == Snap(cal, maxDays, softSearch, period)
  {
    var goBack: bool;
    if softSearch == "forward" {
      goBack := false;
    } else if softSearch == "back" {
      goBack := true;
    } else {
      return Err(SomethingWentWrong);
    }
    var d := period;
    var i := 0;
    while i < maxDays
      invariant 0 <= i <= maxDays
      invariant Walk(cal, period, goBack, maxDays) == Walk(cal, d, goBack, maxDays - i)
      invariant Overflows(cal, period, goBack, maxDays) == Overflows(cal, d, goBack, maxDays - i)
    {
      if !IsNotTradeDate(cal, d) {
        // the `break`, followed by `return period`
        return Ok(d);
      }
      var next := GetNextDateForCheck(d, goBack);
      if !InRange(next) {
        // `date ± timedelta(1)` leaves Python's date range
        return Err(Overflow);
      }
      d := next;
      i := i + 1;
    }
    // the `else` of the `for` loop
    r := Err(TooManyDaysOffInARow);
  }

  /** `Helper.is_valid_period`: neither endpoint is after today. The order of the
      two endpoints is not checked. */
  predicate IsValidPeriod(periodFrom: Day, periodTo: Day, today: Day): (valid: bool)
    ensures valid <==> (if periodFrom < periodTo then periodTo else periodFrom) <= today
  {
    periodFrom <= today && periodTo <= today
  }

  /** The text `check_date` parses for the end of the period: `period_to or
      last_trade_day`, so an omitted or empty `period_to` falls back. */
  function EndText(periodTo: Option<string>, lastTradeDay: string): string
  {
    if periodTo.Some? && periodTo.value != "" then periodTo.value else lastTradeDay
  }

  /** What `Helper.check_date` returns or raises. `softSearch` is `None` for the
      strict mode; `today` is `datetime.today().date()`. */
  function ResolvePeriod(cal: TradingCalendar, maxDays: nat, today: Day, lastTradeDay: string,
                         softSearch: Option<string>, periodFrom: string, periodTo: Option<string>)
    : Result<(Day, Day)>
  {
    match ToDate(periodFrom)
    case None => Err(IsNotValidDate(PeriodFrom))
    case Some(f) =>
      match ToDate(EndText(periodTo, lastTradeDay))
      case None => Err(IsNotValidDate(PeriodTo))
      case Some(t) => ResolveDays(cal, maxDays, today, softSearch, f, t)
  }

  /** The part of `check_date` after both endpoints have been parsed. */
  function ResolveDays(cal: TradingCalendar, maxDays: nat, today: Day, softSearch: Option<string>, f: Day, t: Day)
    : Result<(Day, Day)>
  {
    if !IsValidPeriod(f, t, today) then Err(IsNotValidPeriod)
    else
      var fromFlag, toFlag := IsNotTradeDate(cal, f), IsNotTradeDate(cal, t);
      if fromFlag && toFlag then
        if softSearch.None? then Err(SpecifiedDayIsNotTradingDay([f, t]))
        else
          match Snap(cal, maxDays, softSearch.value, f)
          case Err(e) => Err(e)
          case Ok(f') =>
            match Snap(cal, maxDays, softSearch.value, t)
            case Err(e) => Err(e)
            case Ok(t') => Ok((f', t'))
      else if fromFlag then
        if softSearch.None? then Err(SpecifiedDayIsNotTradingDay([f]))
        else
          match Snap(cal, maxDays, softSearch.value, f)
          case Err(e) => Err(e)
          case Ok(f') => Ok((f', t))
      else if toFlag then
        if softSearch.None? then Err(SpecifiedDayIsNotTradingDay([t]))
        else
          match Snap(cal, maxDays, softSearch.value, t)
          case Err(e) => Err(e)
          case Ok(t') => Ok((f, t'))
      else Ok((f, t))
  }

  /** `Helper.check_date`. */
  method CheckDate(cal: TradingCalendar, maxDays: nat, today: Day, lastTradeDay: string,
                   softSearch: Option<string>, periodFrom: string, periodTo: Option<string>)
    returns (r: Result<(Day, Day)>)
    ensures r == ResolvePeriod(cal, maxDays, today, lastTradeDay, softSearch, periodFrom, periodTo)
  {
    var parsedFrom := ToDate(periodFrom);
    if parsedFrom.None? {
      return Err(IsNotValidDate(PeriodFrom));
    }
    var parsedTo := ToDate(EndText(periodTo, lastTradeDay));
    if parsedTo.None? {
      return Err(IsNotValidDate(PeriodTo));
    }
    var from, to := parsedFrom.value, parsedTo.value;
    if !IsValidPeriod(from, to, today) {
      return Err(IsNotValidPeriod);
    }
    var fromFlag := IsNotTradeDate(cal, from);
    var toFlag := IsNotTradeDate(cal, to);
    if fromFlag && toFlag {
      if softSearch.None? {
        return Err(SpecifiedDayIsNotTradingDay([from, to]));
      }
      var snappedFrom := LoopCheckDate(cal, maxDays, softSearch.value, from);
      if snappedFrom.Err? {
        return Err(snappedFrom.error);
      }
      var snappedTo := LoopCheckDate(cal, maxDays, softSearch.value, to);
      if snappedTo.Err? {
        return Err(snappedTo.error);
      }
      from, to := snappedFrom.value, snappedTo.value;
    } else if fromFlag {
      if softSearch.None? {
        return Err(SpecifiedDayIsNotTradingDay([from]));
      }
      var snappedFrom := LoopCheckDate(cal, maxDays, softSearch.value, from);
      if snappedFrom.Err? {
        return Err(snappedFrom.error);
      }
      from := snappedFrom.value;
    } else if toFlag {
      if softSearch.None? {
        return Err(SpecifiedDayIsNotTradingDay([to]));
      }
      var snappedTo := LoopCheckDate(cal, maxDays, softSearch.value, to);
      if snappedTo.Err? {
        return Err(snappedTo.error);
      }
      to := snappedTo.value;
    }
    return Ok((from, to));
  }

  /** Unparsable text raises IsNotValidDate naming the argument; an endpoint
      after today raises IsNotValidPeriod; otherwise the parsed days go on. */
  lemma ResolveRejectsBadInput(cal: TradingCalendar, maxDays: nat, today: Day, lastTradeDay: string,
                               softSearch: Option<string>, periodFrom: string, periodTo: Option<string>)
    ensures ToDate(periodFrom).None? ==>
              ResolvePeriod(cal, maxDays, today, lastTradeDay, softSearch, periodFrom, periodTo)
                == Err(IsNotValidDate(PeriodFrom))
    ensures ToDate(periodFrom).Some? && ToDate(EndText(periodTo, lastTradeDay)).None? ==>
              ResolvePeriod(cal, maxDays, today, lastTradeDay, softSearch, periodFrom, periodTo)
                == Err(IsNotValidDate(PeriodTo))
    ensures ToDate(periodFrom).Some? && ToDate(EndText(periodTo, lastTradeDay)).Some? ==>
              var f, t := ToDate(periodFrom).value, ToDate(EndText(periodTo, lastTradeDay)).value;
              && ResolvePeriod(cal, maxDays, today, lastTradeDay, softSearch, periodFrom, periodTo)
                   == ResolveDays(cal, maxDays, today, softSearch, f, t)
              && (f > today || t > today ==>
                   ResolveDays(cal, maxDays, today, softSearch, f, t) == Err(IsNotValidPeriod))
  {
  }

  /** An omitted or empty `period_to` means the last trading day. */
  lemma OmittedEndIsLastTradeDay(cal: TradingCalendar, maxDays: nat, today: Day, lastTradeDay: string,
                                 softSearch: Option<string>, periodFrom: string, periodTo: Option<string>)
    requires periodTo == None || periodTo == Some("")
    ensures ResolvePeriod(cal, maxDays, today, lastTradeDay, softSearch, periodFrom, periodTo)
         == ResolvePeriod(cal, maxDays, today, lastTradeDay, softSearch, periodFrom, Some(lastTradeDay))
  {
  }

  /** A period whose two endpoints are trading days no later than today comes back
      unchanged, in any mode (so a wrong mode is noticed only when an endpoint
      must move), and whatever their order. */
  lemma TradingPeriodUnchanged(cal: TradingCalendar, maxDays: nat, today: Day, softSearch: Option<string>,
                               f: Day, t: Day)
    requires f <= today && t <= today
    requires !IsNotTradeDate(cal, f) && !IsNotTradeDate(cal, t)
    ensures ResolveDays(cal, maxDays, today, softSearch, f, t) == Ok((f, t))
  {
  }

  /** The closed endpoints of a request, in `check_date`'s order. */
  function ClosedEndpoints(cal: TradingCalendar, f: Day, t: Day): seq<Day>
  {
    (if IsNotTradeDate(cal, f) then [f] else []) + (if IsNotTradeDate(cal, t) then [t] else [])
  }

  /** In strict mode a closed endpoint raises SpecifiedDayIsNotTradingDay naming
      every closed endpoint (both when both are closed). */
  lemma StrictModeNamesClosedEndpoints(cal: TradingCalendar, maxDays: nat, today: Day, f: Day, t: Day)
    requires f <= today && t <= today
    requires IsNotTradeDate(cal, f) || IsNotTradeDate(cal, t)
    ensures ResolveDays(cal, maxDays, today, None, f, t) == Err(SpecifiedDayIsNotTradingDay(ClosedEndpoints(cal, f, t)))
  {
    if IsNotTradeDate(cal, f) && IsNotTradeDate(cal, t) {
      assert ClosedEndpoints(cal, f, t) == [f, t];
    } else if IsNotTradeDate(cal, f) {
      assert ClosedEndpoints(cal, f, t) == [f];
    } else {
      assert ClosedEndpoints(cal, f, t) == [t];
    }
  }

  /** A mode other than "forward" or "back" raises SomethingWentWrong as soon as
      an endpoint has to move. */
  lemma UnexpectedModeNeedsClosedEndpoint(cal: TradingCalendar, maxDays: nat, today: Day, softSearch: string,
                                          f: Day, t: Day)
    requires SearchDirection(softSearch).None?
    requires f <= today && t <= today
    requires IsNotTradeDate(cal, f) || IsNotTradeDate(cal, t)
    ensures ResolveDays(cal, maxDays, today, Some(softSearch), f, t) == Err(SomethingWentWrong)
  {
  }

  /** In a soft mode each endpoint is snapped on its own: the period resolves
      exactly when both snaps do, to the two snapped days. */
  lemma SoftModeSnapsEachEndpoint(cal: TradingCalendar, maxDays: nat, today: Day, softSearch: string,
                                  f: Day, t: Day)
    requires SearchDirection(softSearch).Some?
    requires maxDays > 0
    requires f <= today && t <= today
    ensures var r := ResolveDays(cal, maxDays, today, Some(softSearch), f, t);
            && (r.Ok? <==> Snap(cal, maxDays, softSearch, f).Ok? && Snap(cal, maxDays, softSearch, t).Ok?)
            && (r.Ok? ==> r.value == (Snap(cal, maxDays, softSearch, f).value, Snap(cal, maxDays, softSearch, t).value))
  {
    SnapIsNearestTradingDay(cal, maxDays, softSearch, f);
    SnapIsNearestTradingDay(cal, maxDays, softSearch, t);
    if maxDays > 0 {
      assert !IsNotTradeDate(cal, f) ==> Snap(cal, maxDays, softSearch, f) == Ok(f);
      assert !IsNotTradeDate(cal, t) ==> Snap(cal, maxDays, softSearch, t) == Ok(t);
    }
  }

  /** Whatever the mode, a resolved period consists of two trading days, and of
      two dates when the request was. */
  lemma ResolvedEndpointsAreTradingDays(cal: TradingCalendar, maxDays: nat, today: Day, softSearch: Option<string>,
                                        f: Day, t: Day)
    requires ResolveDays(cal, maxDays, today, softSearch, f, t).Ok?
    ensures var p := ResolveDays(cal, maxDays, today, softSearch, f, t).value;
            && !IsNotTradeDate(cal, p.0) && !IsNotTradeDate(cal, p.1)
            && (InRange(f) && InRange(t) ==> InRange(p.0) && InRange(p.1))
  {
    if softSearch.Some? {
      SnapIsNearestTradingDay(cal, maxDays, softSearch.value, f);
      SnapIsNearestTradingDay(cal, maxDays, softSearch.value, t);
    }
  }

  /** Snapping both endpoints the same way keeps their order: a request with
      `from <= to` never resolves to `from > to`. (A request given in reverse
      order is returned reversed: nothing checks the order.) */
  lemma ResolvePreservesOrder(cal: TradingCalendar, maxDays: nat, today: Day, softSearch: Option<string>,
                              f: Day, t: Day)
    requires f <= t
    requires ResolveDays(cal, maxDays, today, softSearch, f, t).Ok?
    ensures var p := ResolveDays(cal, maxDays, today, softSearch, f, t).value;
            p.0 <= p.1
  {
    if softSearch.Some? {
      var mode := softSearch.value;
      var p := ResolveDays(cal, maxDays, today, softSearch, f, t).value;
      ResolvedEndpointsAreTradingDays(cal, maxDays, today, softSearch, f, t);
      SnapIsNearestTradingDay(cal, maxDays, mode, f);
      SnapIsNearestTradingDay(cal, maxDays, mode, t);
      if Snap(cal, maxDays, mode, f).Ok? {
        SnapStopsAtFirstTradingDay(cal, maxDays, mode, f, p.1);
      }
      if Snap(cal, maxDays, mode, t).Ok? {
        SnapStopsAtFirstTradingDay(cal, maxDays, mode, t, p.0);
      }
    }
  }

  /** `Helper.interval_trading_days`: the trading days from `periodFrom` to
      `periodTo` inclusive, in ascending order (none when `periodFrom > periodTo`). */
  function IntervalTradingDays(cal: TradingCalendar, periodFrom: Day, periodTo: Day): (days: seq<Day>)
    ensures forall i :: 0 <= i < |days| ==> periodFrom <= days[i] <= periodTo && !IsNotTradeDate(cal, days[i])
    ensures forall d :: periodFrom <= d <= periodTo && !IsNotTradeDate(cal, d) ==> d in days
    ensures forall i, j :: 0 <= i < j < |days| ==> days[i] < days[j]
    decreases periodTo - periodFrom
  {
    if periodFrom > periodTo then []
    else (if IsNotTradeDate(cal, periodFrom) then [] else [periodFrom])
         + IntervalTradingDays(cal, periodFrom + 1, periodTo)
  }
}
