/** `Interval` (tech/interval.py): the greatest, least and mean closing value
    of an index over a period, with the stamps of the candles they come from. */
module TechInterval {
  import opened Errors
  import opened Dates
  import opened Records
  import opened Labels

  /** The field `__tech_data`. */
  datatype TechData = TechData(maxFrom: Label, maxTo: Label, minFrom: Label, minTo: Label,
                               periodFrom: Label, periodTo: Label)

  /** The state `Interval.__init__` sets up; `period` is `(period_from, period_to)`. */
  datatype Interval = Interval(techName: string, intervalInfo: seq<Candle>, maxItem: Candle, minItem: Candle,
                               techData: TechData)

  /** The dictionaries `max_value`, `min_value` and `avg_value` return. */
  datatype Summary = Summary(from: Label, to: Label, value: real)

  /** The candle `max(rows, key=lambda x: x[1])` picks: the first of the
      greatest closes. */
  function FirstMaxClose(rows: seq<Candle>): (i: nat)
    requires |rows| > 0
    ensures i < |rows|
    ensures forall j :: 0 <= j < |rows| ==> rows[j].close <= rows[i].close
    ensures forall j :: 0 <= j < i ==> rows[j].close < rows[i].close
  {
    if |rows| == 1 then 0
    else
      var n := |rows| - 1;
      var k := FirstMaxClose(rows[..n]);
      assert forall j :: 0 <= j < n ==> rows[..n][j] == rows[j];
      if rows[k].close < rows[n].close then n else k
  }

  /** The candle `min(rows, key=lambda x: x[1])` picks: the first of the least
      closes. */
  function FirstMinClose(rows: seq<Candle>): (i: nat)
    requires |rows| > 0
    ensures i < |rows|
    ensures forall j :: 0 <= j < |rows| ==> rows[i].close <= rows[j].close
    ensures forall j :: 0 <= j < i ==> rows[i].close < rows[j].close
  {
    if |rows| == 1 then 0
    else
      var n := |rows| - 1;
      var k := FirstMinClose(rows[..n]);
      assert forall j :: 0 <= j < n ==> rows[..n][j] == rows[j];
      if rows[n].close < rows[k].close then n else k
  }

  function SumOfCloses(rows: seq<Candle>): real
  {
    if rows == [] then 0.0 else SumOfCloses(rows[..|rows| - 1]) + rows[|rows| - 1].close
  }

  /** What `Interval.__init__` establishes and the properties rely on: there are
      candles, and the stored extreme candles are those `max` and `min` pick. */
  predicate ValidInterval(iv: Interval)
  {
    && |iv.intervalInfo| > 0
    && iv.maxItem == iv.intervalInfo[FirstMaxClose(iv.intervalInfo)]
    && iv.minItem == iv.intervalInfo[FirstMinClose(iv.intervalInfo)]
  }

  /** `Interval.__init__`: the ValueError of `max` on no candles, or that of
      `datetime_format` on a stamp of the chosen candles that does not parse. */
  function NewInterval(techName: string, intervalInfo: seq<Candle>, period: (Day, Day), returnStr: bool)
    : (r: Result<Interval>)
    requires InRange(period.0) && InRange(period.1)
    ensures r == Err(EmptySequence) <==> intervalInfo == []
    ensures r.Err? ==> r.error == EmptySequence || r.error == MalformedText
    ensures r.Ok? ==> && ValidInterval(r.value)
                      && r.value.techName == techName && r.value.intervalInfo == intervalInfo
                      && r.value.techData.periodFrom == DayLabel(period.0, returnStr)
                      && r.value.techData.periodTo == DayLabel(period.1, returnStr)
  {
    if intervalInfo == [] then Err(EmptySequence)
    else
      var maxItem := intervalInfo[FirstMaxClose(intervalInfo)];
      var minItem := intervalInfo[FirstMinClose(intervalInfo)];
      match (StampLabel(maxItem.begin, returnStr), StampLabel(maxItem.end, returnStr),
             StampLabel(minItem.begin, returnStr), StampLabel(minItem.end, returnStr))
      case (Some(maxFrom), Some(maxTo), Some(minFrom), Some(minTo)) =>
        Ok(Interval(techName, intervalInfo, maxItem, minItem,
                    TechData(maxFrom, maxTo, minFrom, minTo, DayLabel(period.0, returnStr), DayLabel(period.1, returnStr))))
      case _ => Err(MalformedText)
  }

  /** `Interval.max_value`: the greatest close, first reached at some candle,
      with the stamps stored for the greatest candle. */
  function MaxValue(iv: Interval): (s: Summary)
    requires ValidInterval(iv)
    ensures forall c :: c in iv.intervalInfo ==> c.close <= s.value
    ensures exists i :: 0 <= i < |iv.intervalInfo| && iv.intervalInfo[i].close == s.value
                        && forall j :: 0 <= j < i ==> iv.intervalInfo[j].close < s.value
    ensures s.from == iv.techData.maxFrom && s.to == iv.techData.maxTo
  {
    var i := FirstMaxClose(iv.intervalInfo);
    assert iv.intervalInfo[i].close == iv.maxItem.close;
    Summary(iv.techData.maxFrom, iv.techData.maxTo, iv.maxItem.close)
  }

  /** `Interval.min_value`: the least close, first reached at some candle, with
      the stamps stored for the least candle. */
  function MinValue(iv: Interval): (s: Summary)
    requires ValidInterval(iv)
    ensures forall c :: c in iv.intervalInfo ==> s.value <= c.close
    ensures exists i :: 0 <= i < |iv.intervalInfo| && iv.intervalInfo[i].close == s.value
                        && forall j :: 0 <= j < i ==> s.value < iv.intervalInfo[j].close
    ensures s.from == iv.techData.minFrom && s.to == iv.techData.minTo
  {
    var i := FirstMinClose(iv.intervalInfo);
    assert iv.intervalInfo[i].close == iv.minItem.close;
    Summary(iv.techData.minFrom, iv.techData.minTo, iv.minItem.close)
  }

  /** `Interval.avg_value`: the mean close (Python then rounds it to two
      places), which lies between the least and the greatest close, labelled
      with the period's bounds. */
  function AvgValue(iv: Interval): (s: Summary)
    requires ValidInterval(iv)
    ensures MinValue(iv).value <= s.value <= MaxValue(iv).value
    ensures s.from == iv.techData.periodFrom && s.to == iv.techData.periodTo
  {
    MeanOfClosesBounds(iv.intervalInfo);
    Summary(iv.techData.periodFrom, iv.techData.periodTo, SumOfCloses(iv.intervalInfo) / (|iv.intervalInfo| as real))
  }

  /** An interval exists exactly when there are candles and, unless strings are
      asked for, the stamps of the chosen candles parse; every candle with
      parsing stamps is enough. */
  lemma NewIntervalSucceeds(techName: string, rows: seq<Candle>, period: (Day, Day), returnStr: bool)
    requires InRange(period.0) && InRange(period.1)
    ensures NewInterval(techName, rows, period, returnStr) == Err(EmptySequence) <==> rows == []
    ensures rows != [] && returnStr ==> NewInterval(techName, rows, period, returnStr).Ok?
    ensures rows != [] && (forall c :: c in rows ==> ParseDateTime(c.begin).Some? && ParseDateTime(c.end).Some?)
            ==> NewInterval(techName, rows, period, returnStr).Ok?
  {
  }

  /** `max_value` is the greatest close, taken from the first candle that has
      it, labelled with that candle's stamps. */
  lemma MaxValueIsFirstGreatestClose(techName: string, rows: seq<Candle>, period: (Day, Day), returnStr: bool)
    requires InRange(period.0) && InRange(period.1)
    requires NewInterval(techName, rows, period, returnStr).Ok?
    ensures var iv := NewInterval(techName, rows, period, returnStr).value;
            && (forall c :: c in rows ==> c.close <= MaxValue(iv).value)
            && exists i :: 0 <= i < |rows| && rows[i] == iv.maxItem && MaxValue(iv).value == rows[i].close
                           && (forall j :: 0 <= j < i ==> rows[j].close < rows[i].close)
                           && StampLabel(rows[i].begin, returnStr) == Some(MaxValue(iv).from)
                           && StampLabel(rows[i].end, returnStr) == Some(MaxValue(iv).to)
  {
    var i := FirstMaxClose(rows);
    assert rows[i] == NewInterval(techName, rows, period, returnStr).value.maxItem;
  }

  /** `min_value` is the least close, taken from the first candle that has it,
      labelled with that candle's stamps. */
  lemma MinValueIsFirstLeastClose(techName: string, rows: seq<Candle>, period: (Day, Day), returnStr: bool)
    requires InRange(period.0) && InRange(period.1)
    requires NewInterval(techName, rows, period, returnStr).Ok?
    ensures var iv := NewInterval(techName, rows, period, returnStr).value;
            && (forall c :: c in rows ==> MinValue(iv).value <= c.close)
            && exists i :: 0 <= i < |rows| && rows[i] == iv.minItem && MinValue(iv).value == rows[i].close
                           && (forall j :: 0 <= j < i ==> rows[i].close < rows[j].close)
                           && StampLabel(rows[i].begin, returnStr) == Some(MinValue(iv).from)
                           && StampLabel(rows[i].end, returnStr) == Some(MinValue(iv).to)
  {
    var i := FirstMinClose(rows);
    assert rows[i] == NewInterval(techName, rows, period, returnStr).value.minItem;
  }

  /** `n` copies of `x` added up. */
  function Copies(n: nat, x: real): real
  {
    if n == 0 then 0.0 else Copies(n - 1, x) + x
  }

  lemma {:induction false} CopiesIsProduct(n: nat, x: real)
    ensures Copies(n, x) == (n as real) * x
  {
    if n > 0 {
      CopiesIsProduct(n - 1, x);
      assert (n as real) * x == ((n - 1) as real) * x + x;
    }
  }

  /** The sum of the closes lies between `n` copies of the least and `n` copies
      of the greatest of them. */
  lemma {:induction false} SumOfClosesBounds(rows: seq<Candle>, lo: real, hi: real)
    requires forall c :: c in rows ==> lo <= c.close <= hi
    ensures Copies(|rows|, lo) <= SumOfCloses(rows) <= Copies(|rows|, hi)
  {
    if rows != [] {
      var n := |rows| - 1;
      var init := rows[..n];
      assert forall c :: c in init ==> c in rows;
      SumOfClosesBounds(init, lo, hi);
      assert rows[n] in rows;
    }
  }

  /** Dividing the bounds of a sum by the number of its terms bounds the mean. */
  lemma MeanBounds(sum: real, n: nat, lo: real, hi: real)
    requires n > 0 && Copies(n, lo) <= sum <= Copies(n, hi)
    ensures lo <= sum / (n as real) <= hi
  {
    CopiesIsProduct(n, lo);
    CopiesIsProduct(n, hi);
    var q := sum / (n as real);
    assert sum == (n as real) * q;
  }

  /** The mean of closes that all lie within bounds lies within them. */
  lemma MeanWithinBounds(rows: seq<Candle>, lo: real, hi: real)
    requires |rows| > 0 && forall c :: c in rows ==> lo <= c.close <= hi
    ensures lo <= SumOfCloses(rows) / (|rows| as real) <= hi
  {
    SumOfClosesBounds(rows, lo, hi);
    MeanBounds(SumOfCloses(rows), |rows|, lo, hi);
  }

  /** The mean close lies between the least and the greatest close. */
  lemma MeanOfClosesBounds(rows: seq<Candle>)
    requires |rows| > 0
    ensures rows[FirstMinClose(rows)].close <= SumOfCloses(rows) / (|rows| as real) <= rows[FirstMaxClose(rows)].close
  {
    MeanWithinBounds(rows, rows[FirstMinClose(rows)].close, rows[FirstMaxClose(rows)].close);
  }

  /** The mean lies between the least and the greatest close, and `avg_value`
      is labelled with the period's bounds. */
  lemma AvgValueBetweenMinAndMax(techName: string, rows: seq<Candle>, period: (Day, Day), returnStr: bool)
    requires InRange(period.0) && InRange(period.1)
    requires NewInterval(techName, rows, period, returnStr).Ok?
    ensures var iv := NewInterval(techName, rows, period, returnStr).value;
            && |iv.intervalInfo| > 0
            && MinValue(iv).value <= AvgValue(iv).value <= MaxValue(iv).value
            && AvgValue(iv).from == DayLabel(period.0, returnStr)
            && AvgValue(iv).to == DayLabel(period.1, returnStr)
  {
    var iv := NewInterval(techName, rows, period, returnStr).value;
    assert iv.intervalInfo == rows && iv.minItem == rows[FirstMinClose(rows)] && iv.maxItem == rows[FirstMaxClose(rows)];
    MeanOfClosesBounds(rows);
  }
}
