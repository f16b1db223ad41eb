/** The calendar constants of values/constans.py, as values the operations take
    as parameters. */
module Constants {
  import opened Text
  import opened Errors
  import opened Dates
  import opened Calendar

  function Date(y: int, m: int, d: int): Day
    requires ValidYmd(Ymd(y, m, d))
  {
    ToOrdinal(Ymd(y, m, d))
  }

  /** `MAX_DAYS_WEEKENDS`. */
  const MaxDaysWeekends: nat := 15

  /** `TIME_DAY_START` and `TIME_DAY_OVER`. */
  const TimeDayStart: Time := Hms(10, 1, 0)
  const TimeDayOver: Time := Hms(18, 55, 0)

  /** `FIRST_TRADE_DAY`, 2024-01-03 00:00:00. */
  const FirstTradeDay: DateTime := DateTime(Date(2024, 1, 3), 0)

  /** `WEEKENDS` and `WORKDAYS` for 2024; 2024-11-02 and 2024-12-28 are in both. */
  const Calendar2024: TradingCalendar := TradingCalendar(
    [Date(2024, 1, 1), Date(2024, 1, 2), Date(2024, 2, 23), Date(2024, 3, 8), Date(2024, 5, 1),
     Date(2024, 5, 9), Date(2024, 6, 12), Date(2024, 11, 2), Date(2024, 11, 4), Date(2024, 12, 28),
     Date(2024, 12, 31)],
    [Date(2024, 4, 27), Date(2024, 11, 2), Date(2024, 12, 28)])

  /** The two Saturdays listed both as holidays and as working days are closed. */
  lemma DoublyListedSaturdaysAreClosed()
    ensures IsNotTradeDate(Calendar2024, Date(2024, 11, 2))
    ensures IsNotTradeDate(Calendar2024, Date(2024, 12, 28))
    ensures !IsNotTradeDate(Calendar2024, Date(2024, 4, 27))
  {
  }

  /** The opening and closing times are the times `'10:01:00'` and
      `'18:55:00'` of values/constans.py read as. */
  lemma SessionTimesMatchText()
    ensures ToTime("10:01:00") == Some(TimeDayStart)
    ensures ToTime("18:55:00") == Some(TimeDayOver)
  {
    var open, close := "10:01:00", "18:55:00";
    assert open[..2] == "10" && open[3..5] == "01" && open[6..] == "00";
    assert close[..2] == "18" && close[3..5] == "55" && close[6..] == "00";
    assert DigitsValue("10") == 10 && DigitsValue("01") == 1 && DigitsValue("00") == 0;
    assert DigitsValue("18") == 18 && DigitsValue("55") == 55;
  }

  lemma FirstTradeDayDigits()
    ensures DigitsValue("2024") == 2024 && DigitsValue("01") == 1 && DigitsValue("03") == 3 && DigitsValue("00") == 0
  {
    assert "2024"[..3] == "202" && "202"[..2] == "20" && "20"[..1] == "2" && "2"[..0] == "";
    assert "01"[..1] == "0" && "03"[..1] == "0" && "00"[..1] == "0" && "0"[..0] == "";
  }

  lemma FirstTradeDayDateText()
    ensures ToDate("2024-01-03") == Some(Date(2024, 1, 3))
  {
    FirstTradeDayDigits();
    var d := "2024-01-03";
    assert d[..4] == "2024" && d[5..7] == "01" && d[8..] == "03";
  }

  lemma MidnightText()
    ensures ToTime("00:00:00") == Some(0)
  {
    FirstTradeDayDigits();
    var t := "00:00:00";
    assert t[..2] == "00" && t[3..5] == "00" && t[6..] == "00";
  }

  /** The first trading day is the datetime `'2024-01-03 00:00:00'` reads as. */
  lemma FirstTradeDayMatchesText()
    ensures ParseDateTime("2024-01-03 00:00:00") == Some(FirstTradeDay)
  {
    FirstTradeDayDateText();
    MidnightText();
    ParseDateTimeParts("2024-01-03", "00:00:00");
    FirstTradeDayText();
  }

  lemma FirstTradeDayText()
    ensures "2024-01-03" + " " + "00:00:00" == "2024-01-03 00:00:00"
  {
    var s := "2024-01-03" + " " + "00:00:00";
    assert |s| == 19;
    forall i | 0 <= i < 19
      ensures s[i] == "2024-01-03 00:00:00"[i]
    {
    }
  }
}
