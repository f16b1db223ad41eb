/** `Dynamics` (tech/dynamics.py): the change of an index's closing value
    between the last candles of two days. */
module TechDynamics {
  import opened Text
  import opened Errors
  import opened Dates
  import opened Records
  import opened Labels

  /** The dictionaries `__first_value` and `__second_value`: a day and its close. */
  datatype Point = Point(period: Label, value: real)

  /** The state `Dynamics.__init__` sets up. */
  datatype Dynamics = Dynamics(firstValue: Point, secondValue: Point, firstClose: real, secondClose: real)

  /** The day of a latest-candle record: `to_date(value['to'][:10])`, or its
      first ten characters when strings are asked for. */
  function DayOfLast(v: LastValue, returnStr: bool): Option<Label>
  {
    if returnStr then Some(Stamp(Prefix(v.toStamp, 10)))
    else match ToDate(Prefix(v.toStamp, 10))
      case None => None
      case Some(d) => Some(On(d))
  }

  /** What `Dynamics.__init__` establishes: each reported point carries the
      close it was built from. */
  predicate ValidDynamics(dy: Dynamics)
  {
    dy.firstValue.value == dy.firstClose && dy.secondValue.value == dy.secondClose
  }

  /** `Dynamics.__init__`: the latest candle of each of the two days; the
      ValueError of a stamp that does not read as a date or of a day without
      candles, whichever Python meets first. */
  function NewDynamics(dynamicsInfo: seq<Candle>, period: (Day, Day), returnStr: bool): (r: Result<Dynamics>)
    ensures r.Err? ==> r.error == MalformedText || r.error == EmptySequence
    ensures r.Ok? ==> ValidDynamics(r.value)
  {
    match RowsOn(dynamicsInfo, period.0)
    case Err(e) => Err(e)
    case Ok(firstRows) =>
      match GetLastValue(firstRows)
      case Err(e) => Err(e)
      case Ok(first) =>
        match RowsOn(dynamicsInfo, period.1)
        case Err(e) => Err(e)
        case Ok(secondRows) =>
          match GetLastValue(secondRows)
          case Err(e) => Err(e)
          case Ok(second) =>
            match (DayOfLast(first, returnStr), DayOfLast(second, returnStr))
            case (Some(periodFrom), Some(periodTo)) =>
              Ok(Dynamics(Point(periodFrom, first.close), Point(periodTo, second.close), first.close, second.close))
            case _ => Err(MalformedText)
  }

  /** `Dynamics.value`, before Python rounds it to two places. */
  function Value(dy: Dynamics): (change: real)
    ensures dy.firstClose + change == dy.secondClose
  {
    dy.secondClose - dy.firstClose
  }

  /** `Dynamics.percent`, before rounding; the ZeroDivisionError of a first
      close of zero. */
  function Percent(dy: Dynamics): (r: Result<real>)
    ensures r.Err? <==> dy.firstClose == 0.0
    ensures r.Err? ==> r.error == ZeroDivision
    ensures r.Ok? ==> r.value * dy.firstClose == Value(dy) * 100.0
  {
    if dy.firstClose == 0.0 then Err(ZeroDivision)
    else Ok((dy.secondClose - dy.firstClose) / dy.firstClose * 100.0)
  }

  /** `Dynamics.full_info`: the two points, in order, whose values differ by
      the change. */
  function FullInfo(dy: Dynamics): (points: seq<Point>)
    requires ValidDynamics(dy)
    ensures |points| == 2 && points[0].value == dy.firstClose && points[1].value == dy.secondClose
    ensures points[1].value - points[0].value == Value(dy)
  {
    [dy.firstValue, dy.secondValue]
  }

  /** The latest candle of a day falls on that day, so its stamp reads back as
      the day. */
  lemma LastValueIsOnItsDay(rows: seq<Candle>, day: Day)
    requires RowsOn(rows, day).Ok? && GetLastValue(RowsOn(rows, day).value).Ok?
    ensures ToDate(Prefix(GetLastValue(RowsOn(rows, day).value).value.toStamp, 10)) == Some(day)
  {
    var rs := RowsOn(rows, day).value;
    var v := GetLastValue(rs).value;
    var i :| 0 <= i < |rs| && v == Summarize(rs[i]) && forall j :: 0 <= j < i ==> Less(rs[j].end, rs[i].end);
    assert rs[i] in rs;
  }

  /** A dynamics exists exactly when both days have a closing value; it then
      compares those closes, and its two days are the requested ones, as dates
      or printed as dates. */
  lemma NewDynamicsComparesCloses(rows: seq<Candle>, period: (Day, Day), returnStr: bool)
    requires InRange(period.0) && InRange(period.1)
    ensures NewDynamics(rows, period, returnStr).Ok? <==> CloseOn(rows, period.0).Ok? && CloseOn(rows, period.1).Ok?
    ensures NewDynamics(rows, period, returnStr).Ok? ==>
              var dy := NewDynamics(rows, period, returnStr).value;
              && dy.firstClose == CloseOn(rows, period.0).value
              && dy.secondClose == CloseOn(rows, period.1).value
              && FullInfo(dy) == [Point(DayLabel(period.0, returnStr), dy.firstClose),
                                  Point(DayLabel(period.1, returnStr), dy.secondClose)]
  {
    if CloseOn(rows, period.0).Ok? && CloseOn(rows, period.1).Ok? {
      LastValueIsOnItsDay(rows, period.0);
      LastValueIsOnItsDay(rows, period.1);
      var first := GetLastValue(RowsOn(rows, period.0).value).value;
      var second := GetLastValue(RowsOn(rows, period.1).value).value;
      PrintParse(Prefix(first.toStamp, 10));
      PrintParse(Prefix(second.toStamp, 10));
    }
  }

  /** Swapping the two days negates the change. */
  lemma SwappedPeriodNegatesValue(rows: seq<Candle>, a: Day, b: Day, returnStr: bool)
    requires InRange(a) && InRange(b)
    requires NewDynamics(rows, (a, b), returnStr).Ok?
    ensures NewDynamics(rows, (b, a), returnStr).Ok?
    ensures Value(NewDynamics(rows, (b, a), returnStr).value) == -Value(NewDynamics(rows, (a, b), returnStr).value)
  {
    NewDynamicsComparesCloses(rows, (a, b), returnStr);
    NewDynamicsComparesCloses(rows, (b, a), returnStr);
  }

  /** A day compared with itself shows no change. */
  lemma SameDayHasNoChange(rows: seq<Candle>, day: Day, returnStr: bool)
    requires InRange(day)
    requires NewDynamics(rows, (day, day), returnStr).Ok?
    ensures Value(NewDynamics(rows, (day, day), returnStr).value) == 0.0
  {
    NewDynamicsComparesCloses(rows, (day, day), returnStr);
  }
}
