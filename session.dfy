/** The session locator, `Helper.get_last_trade_day` (custom/custom_functions.py):
    the latest trading day at a given instant and whether trading is open. */
module Session {
  import opened Errors
  import opened Dates
  import opened Calendar
  import Constants

  /** `FIRST_TRADE_DAY`, `TIME_DAY_START`, `TIME_DAY_OVER` and `MAX_DAYS_WEEKENDS`. */
  datatype SessionConfig = SessionConfig(firstTradeDay: DateTime, dayStart: Time, dayOver: Time, maxDaysWeekends: nat)

  /** The first trading day leaves room for the whole backward walk inside
      Python's date range (otherwise the walk would raise OverflowError). */
  predicate ValidConfig(cfg: SessionConfig)
  {
    && InRange(cfg.firstTradeDay.day)
    && cfg.firstTradeDay.day > cfg.maxDaysWeekends + 1
    && ValidTime(cfg.firstTradeDay.secs) && ValidTime(cfg.dayStart) && ValidTime(cfg.dayOver)
  }

  const DefaultConfig: SessionConfig :=
    SessionConfig(Constants.FirstTradeDay, Constants.TimeDayStart, Constants.TimeDayOver, Constants.MaxDaysWeekends)

  /** The dictionary `get_last_trade_day` returns. */
  datatype SessionInfo = SessionInfo(lastTradeDay: string, isTradingNow: bool)

  /** The day the walk starts from: the day before when the instant precedes the
      session opening. */
  function StartDay(cfg: SessionConfig, t: DateTime): Day
  {
    if t.secs < cfg.dayStart then t.day - 1 else t.day
  }

  /** What the locator returns or raises from the datetime `t` (the instant as
      `datetime_format` gives it back) when the current date is `today`,
      classifying days with `cal`. */
  function LastSessionAt(cal: TradingCalendar, cfg: SessionConfig, t: DateTime, today: Day): Result<SessionInfo>
    requires ValidConfig(cfg) && InRange(t.day)
  {
    if NotAfter(t, cfg.firstTradeDay) then Err(InitialDateLessFirstDate)
    else
      var start := StartDay(cfg, t);
      WalkFindsFirstTradingDay(cal, start, true, cfg.maxDaysWeekends);
      match Walk(cal, start, true, cfg.maxDaysWeekends)
      case None => Err(TooManyDaysOffInARow)
      case Some(d) => Ok(SessionInfo(FromDate(d), d == today && cfg.dayStart < t.secs < cfg.dayOver))
  }

  /** What the locator returns or raises at instant `startDt`. */
  function LastSession(cal: TradingCalendar, cfg: SessionConfig, startDt: Instant, today: Day): Result<SessionInfo>
    requires ValidConfig(cfg) && ValidInstant(startDt)
  {
    LastSessionAt(cal, cfg, Normalize(startDt), today)
  }

  /** The locator with the holiday and working-day lists honoured. */
  method LastTradeDay(cal: TradingCalendar, cfg: SessionConfig, startDt: Instant, today: Day)
    returns (r: Result<SessionInfo>)
    requires ValidConfig(cfg) && ValidInstant(startDt)
    ensures r == LastSession(cal, cfg, startDt, today)
  {
    var tradeDate := Normalize(startDt);
    r := LocateFrom(cal, cfg, tradeDate, today);
  }

  /** The body of the locator once the instant has been reformatted: the
      first-day check, the step back before the opening time, and the bounded
      backward walk with its `for`/`else`. */
  method LocateFrom(cal: TradingCalendar, cfg: SessionConfig, t: DateTime, today: Day)
    returns (r: Result<SessionInfo>)
    requires ValidConfig(cfg) && InRange(t.day)
    ensures r == LastSessionAt(cal, cfg, t, today)
  {
    var tradeDate := t;
    if NotAfter(tradeDate, cfg.firstTradeDay) {
      return Err(InitialDateLessFirstDate);
    }
    if tradeDate.secs < cfg.dayStart {
      tradeDate := DateTime(tradeDate.day - 1, tradeDate.secs);
    }
    ghost var start := StartDay(cfg, t);
    var i := 0;
    while i < cfg.maxDaysWeekends
      invariant 0 <= i <= cfg.maxDaysWeekends
      invariant tradeDate.day == start - i && tradeDate.secs == t.secs
      invariant Walk(cal, start, true, cfg.maxDaysWeekends) == Walk(cal, tradeDate.day, true, cfg.maxDaysWeekends - i)
    {
      if IsNotTradeDate(cal, tradeDate.day) {
        tradeDate := DateTime(GetNextDateForCheck(tradeDate.day, true), tradeDate.secs);
      } else {
        var isTodayTradeDay := tradeDate.day == today;
        var isTradingNow := isTodayTradeDay && cfg.dayStart < tradeDate.secs < cfg.dayOver;
        return Ok(SessionInfo(FromDate(tradeDate.day), isTradingNow));
      }
      i := i + 1;
    }
    r := Err(TooManyDaysOffInARow);
  }

  /** `Helper.get_last_trade_day` as written. The working value is a `datetime`
      and the two lists hold plain `date`s; a `datetime` never compares equal to
      a `date`, so neither list ever matches and only the Saturday/Sunday rule
      decides: the same as classifying with two empty lists. */
  method GetLastTradeDay(cfg: SessionConfig, startDt: Instant, today: Day) returns (r: Result<SessionInfo>)
    requires ValidConfig(cfg) && ValidInstant(startDt)
    ensures r == LastSession(TradingCalendar([], []), cfg, startDt, today)
  {
    r := LastTradeDay(TradingCalendar([], []), cfg, startDt, today);
  }

  /** The locator's promise: it fails exactly at or before the first trading day,
      or when `maxDaysWeekends` days in a row from the start day are closed;
      otherwise it names the latest trading day at or before the start day, and
      trading is open only on that day, strictly between opening and closing. */
  lemma LastSessionIsLatestTradingDay(cal: TradingCalendar, cfg: SessionConfig, startDt: Instant, today: Day)
    requires ValidConfig(cfg) && ValidInstant(startDt)
    ensures var r := LastSession(cal, cfg, startDt, today);
            r == Err(InitialDateLessFirstDate) <==> NotAfter(Normalize(startDt), cfg.firstTradeDay)
    ensures var r := LastSession(cal, cfg, startDt, today);
            var start := StartDay(cfg, Normalize(startDt));
            !NotAfter(Normalize(startDt), cfg.firstTradeDay) ==>
              && (r.Ok? || r == Err(TooManyDaysOffInARow))
              && ((forall e :: start - cfg.maxDaysWeekends < e <= start ==> IsNotTradeDate(cal, e))
                   <==> r == Err(TooManyDaysOffInARow))
              && (r.Ok? ==>
                   && ToDate(r.value.lastTradeDay).Some?
                   && var d := ToDate(r.value.lastTradeDay).value;
                   && start - cfg.maxDaysWeekends < d <= start
                   && !IsNotTradeDate(cal, d)
                   && (forall e :: d < e <= start ==> IsNotTradeDate(cal, e))
                   && (r.value.isTradingNow <==> d == today && cfg.dayStart < startDt.secs < cfg.dayOver))
  {
    var t := Normalize(startDt);
    if !NotAfter(t, cfg.firstTradeDay) {
      var start := StartDay(cfg, t);
      WalkFindsFirstTradingDay(cal, start, true, cfg.maxDaysWeekends);
      if forall e :: start - cfg.maxDaysWeekends < e <= start ==> IsNotTradeDate(cal, e) {
        forall j | 0 <= j < cfg.maxDaysWeekends
          ensures IsNotTradeDate(cal, Shift(start, true, j))
        {
          assert start - cfg.maxDaysWeekends < start - j <= start;
        }
      }
      if forall j :: 0 <= j < cfg.maxDaysWeekends ==> IsNotTradeDate(cal, Shift(start, true, j)) {
        forall e | start - cfg.maxDaysWeekends < e <= start
          ensures IsNotTradeDate(cal, e)
        {
          assert e == Shift(start, true, start - e);
        }
      }
      var w := Walk(cal, start, true, cfg.maxDaysWeekends);
      if w.Some? {
        var d := w.value;
        ParsePrint(d);
        forall e | d < e <= start
          ensures IsNotTradeDate(cal, e)
        {
          assert e == Shift(start, true, start - e);
        }
      }
    }
  }

  /** The start day is the instant's day, or the day before when the instant is
      before the opening time (at the opening time itself it is the same day). */
  lemma BeforeOpeningStartsFromPreviousDay(cfg: SessionConfig, startDt: Instant)
    requires ValidInstant(startDt)
    ensures startDt.secs < cfg.dayStart ==> StartDay(cfg, Normalize(startDt)) == startDt.day - 1
    ensures startDt.secs >= cfg.dayStart ==> StartDay(cfg, Normalize(startDt)) == startDt.day
  {
  }

  /** 2024-02-23 is a Friday on the holiday list; 2024-02-22 is an ordinary Thursday. */
  lemma February23Facts()
    ensures Constants.Date(2024, 2, 23) == 738939 && Constants.FirstTradeDay.day == 738888
    ensures IsNotTradeDate(Constants.Calendar2024, 738939)
    ensures !IsNotTradeDate(Constants.Calendar2024, 738938)
    ensures !IsNotTradeDate(TradingCalendar([], []), 738939)
  {
    assert Weekday(738939) == 4 && Weekday(738938) == 3;
  }

  /** From noon on 2024-02-23, the walk stays on that day when the lists are
      ignored, and steps back to 2024-02-22 when they are honoured. */
  lemma February23Walks()
    ensures LastSessionAt(TradingCalendar([], []), DefaultConfig, DateTime(738939, Hms(12, 0, 0)), 738939)
         == Ok(SessionInfo(FromDate(738939), true))
    ensures LastSessionAt(Constants.Calendar2024, DefaultConfig, DateTime(738939, Hms(12, 0, 0)), 738939)
         == Ok(SessionInfo(FromDate(738938), false))
  {
    February23Facts();
    assert StartDay(DefaultConfig, DateTime(738939, Hms(12, 0, 0))) == 738939;
    assert Walk(TradingCalendar([], []), 738939, true, 15) == Some(738939);
    assert Walk(Constants.Calendar2024, 738938, true, 14) == Some(738938);
    assert Walk(Constants.Calendar2024, 738939, true, 15) == Some(738938);
  }

  /** Discrepancy in the source: on Friday 2024-02-23 at noon, a listed holiday,
      the locator as written reports that day with trading open, while honouring
      the holiday list gives Thursday 2024-02-22 with trading closed. */
  lemma HolidayIgnoredAsWritten()
    ensures var at := Instant(Constants.Date(2024, 2, 23), Hms(12, 0, 0), 0);
            var today := Constants.Date(2024, 2, 23);
            && LastSession(TradingCalendar([], []), DefaultConfig, at, today)
                 == Ok(SessionInfo(FromDate(Constants.Date(2024, 2, 23)), true))
            && LastSession(Constants.Calendar2024, DefaultConfig, at, today)
                 == Ok(SessionInfo(FromDate(Constants.Date(2024, 2, 22)), false))
  {
    February23Facts();
    assert Constants.Date(2024, 2, 22) == 738938;
    var at := Instant(738939, Hms(12, 0, 0), 0);
    assert Normalize(at) == DateTime(738939, Hms(12, 0, 0));
    February23Walks();
  }
}
