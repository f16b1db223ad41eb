/** The candle reducers of `Helper` (custom/custom_functions.py): the latest
    candle of a list, the candles of one day, the distinct days of a list and
    the closing value of each day. */
module Records {
  import opened Text
  import opened Errors
  import opened Dates

  /** One row of the ISS `candles` table:
      `[open, close, high, low, value, volume, begin, end]`. */
  datatype Candle = Candle(open: real, close: real, high: real, low: real, value: real, volume: real,
                           begin: string, end: string)

  /** The dictionary `get_last_value` builds from the latest candle. */
  datatype LastValue = LastValue(fromStamp: string, toStamp: string, open: real, close: real, high: real, low: real)

  /** The day of a candle: `to_date(row[7][:10])`, `None` where that raises. */
  function DayOf(c: Candle): Option<Day>
  {
    ToDate(Prefix(c.end, 10))
  }

  function Ends(rows: seq<Candle>): (keys: seq<string>)
    ensures |keys| == |rows| && forall i :: 0 <= i < |rows| ==> keys[i] == rows[i].end
  {
    seq(|rows|, i requires 0 <= i < |rows| => rows[i].end)
  }

  /** The position Python's `max` picks with string keys: the first of the
      greatest keys. */
  function FirstMax(keys: seq<string>): (i: nat)
    requires |keys| > 0
    ensures i < |keys|
    ensures forall j :: 0 <= j < |keys| ==> !Less(keys[i], keys[j])
    ensures forall j :: 0 <= j < i ==> Less(keys[j], keys[i])
  {
    if |keys| == 1 then
      LessIrreflexive(keys[0]);
      0
    else
      var n := |keys| - 1;
      var k := FirstMax(keys[..n]);
      if Less(keys[k], keys[n]) then
        FirstMaxOvertaken(keys, k);
        n
      else
        assert forall j :: 0 <= j < n ==> keys[..n][j] == keys[j];
        k
  }

  /** When the last key beats the best of the others it beats all of them. */
  lemma FirstMaxOvertaken(keys: seq<string>, k: nat)
    requires 0 <= k < |keys| - 1 && Less(keys[k], keys[|keys| - 1])
    requires forall j :: 0 <= j < |keys| - 1 ==> !Less(keys[k], keys[j])
    ensures forall j :: 0 <= j < |keys| - 1 ==> Less(keys[j], keys[|keys| - 1])
    ensures forall j :: 0 <= j < |keys| ==> !Less(keys[|keys| - 1], keys[j])
  {
    var n := |keys| - 1;
    forall j | 0 <= j < n
      ensures Less(keys[j], keys[n]) && !Less(keys[n], keys[j])
    {
      NotLessThenLess(keys[j], keys[k], keys[n]);
      LessAsymmetric(keys[j], keys[n]);
    }
    LessIrreflexive(keys[n]);
  }

  function Summarize(c: Candle): LastValue
  {
    LastValue(c.begin, c.end, c.open, c.close, c.high, c.low)
  }

  /** `Helper.get_last_value`: the candle with the greatest `end` stamp (the
      first of them on a tie), or the ValueError of `max` on no candles. */
  function GetLastValue(rows: seq<Candle>): (r: Result<LastValue>)
    ensures r.Err? <==> rows == []
    ensures r.Err? ==> r.error == EmptySequence
    ensures r.Ok? ==> exists i :: 0 <= i < |rows| && r.value == Summarize(rows[i])
                                  && forall j :: 0 <= j < i ==> Less(rows[j].end, rows[i].end)
    ensures r.Ok? ==> forall j :: 0 <= j < |rows| ==> !Less(r.value.toStamp, rows[j].end)
  {
    if rows == [] then Err(EmptySequence)
    else
      var i := FirstMax(Ends(rows));
      Ok(Summarize(rows[i]))
  }

  /** `[dt for dt in rows if to_date(dt[7][:10]) == day]`, or the ValueError of
      the first candle whose stamp does not read as a date. */
  function RowsOn(rows: seq<Candle>, day: Day): (r: Result<seq<Candle>>)
    ensures r.Ok? <==> forall i :: 0 <= i < |rows| ==> DayOf(rows[i]).Some?
    ensures r.Err? ==> r.error == MalformedText
    ensures r.Ok? ==> forall c :: c in r.value <==> c in rows && DayOf(c) == Some(day)
  {
    if rows == [] then Ok([])
    else match (DayOf(rows[0]), RowsOn(rows[1..], day))
      case (None, _) => Err(MalformedText)
      case (Some(_), Err(e)) =>
        assert forall i :: 0 <= i < |rows| - 1 ==> rows[1..][i] == rows[i + 1];
        Err(e)
      case (Some(d), Ok(rest)) =>
        assert forall i :: 0 <= i < |rows| - 1 ==> rows[1..][i] == rows[i + 1];
        assert rows == [rows[0]] + rows[1..];
        Ok(if d == day then [rows[0]] + rest else rest)
  }

  /** The last candle of `day` closes at `close`: of the candles of that day it
      has the greatest `end` stamp. Python reads the close of that candle. */
  function CloseOn(rows: seq<Candle>, day: Day): Result<real>
  {
    match RowsOn(rows, day)
    case Err(e) => Err(e)
    case Ok(rs) =>
      match GetLastValue(rs)
      case Err(e) => Err(e)
      case Ok(v) => Ok(v.close)
  }

  /** The candles whose tag is `day`, in order. */
  function Pick(rows: seq<Candle>, tags: seq<Option<Day>>, day: Day): seq<Candle>
    requires |tags| == |rows|
  {
    if rows == [] then []
    else (if tags[0] == Some(day) then [rows[0]] else []) + Pick(rows[1..], tags[1..], day)
  }

  /** The filter of `RowsOn` is `Pick` with the days of the candles as tags. */
  lemma {:induction false} RowsOnIsPick(rows: seq<Candle>, day: Day)
    requires RowsOn(rows, day).Ok?
    ensures RowsOn(rows, day).value == Pick(rows, Days(rows), day)
  {
    if rows != [] {
      assert RowsOn(rows[1..], day).Ok?;
      RowsOnIsPick(rows[1..], day);
      assert Days(rows)[1..] == Days(rows[1..]);
    }
  }

  /** `Pick` keeps the order of the candles: every candle with the tag that
      comes before a picked one is picked before it. */
  lemma {:induction false} PickKeepsOrder(rows: seq<Candle>, tags: seq<Option<Day>>, day: Day, k: nat)
    requires |tags| == |rows| && k < |Pick(rows, tags, day)|
    ensures exists i :: 0 <= i < |rows| && rows[i] == Pick(rows, tags, day)[k] && tags[i] == Some(day)
                        && forall j :: 0 <= j < i && tags[j] == Some(day) ==> rows[j] in Pick(rows, tags, day)[..k]
  {
    var ps := Pick(rows, tags, day);
    var rest := Pick(rows[1..], tags[1..], day);
    if tags[0] == Some(day) {
      assert ps == [rows[0]] + rest;
      if k == 0 {
        assert rows[0] == ps[0];
      } else {
        PickKeepsOrder(rows[1..], tags[1..], day, k - 1);
        var i' :| 0 <= i' < |rows| - 1 && rows[1..][i'] == rest[k - 1] && tags[1..][i'] == Some(day)
                  && forall j :: 0 <= j < i' && tags[1..][j] == Some(day) ==> rows[1..][j] in rest[..k - 1];
        assert ps[..k] == [rows[0]] + rest[..k - 1];
        forall j | 0 <= j < i' + 1 && tags[j] == Some(day)
          ensures rows[j] in ps[..k]
        {
          if j > 0 {
            assert tags[1..][j - 1] == tags[j] && rows[1..][j - 1] == rows[j];
          }
        }
        assert rows[i' + 1] == ps[k];
      }
    } else {
      assert ps == rest;
      PickKeepsOrder(rows[1..], tags[1..], day, k);
      var i' :| 0 <= i' < |rows| - 1 && rows[1..][i'] == rest[k] && tags[1..][i'] == Some(day)
                && forall j :: 0 <= j < i' && tags[1..][j] == Some(day) ==> rows[1..][j] in rest[..k];
      forall j | 0 <= j < i' + 1 && tags[j] == Some(day)
        ensures rows[j] in ps[..k]
      {
        assert j > 0;
        assert tags[1..][j - 1] == tags[j] && rows[1..][j - 1] == rows[j];
      }
      assert rows[i' + 1] == ps[k];
    }
  }

  /** Every candle with the tag is picked. */
  lemma {:induction false} PickHasTagged(rows: seq<Candle>, tags: seq<Option<Day>>, day: Day, j: nat)
    requires |tags| == |rows| && j < |rows| && tags[j] == Some(day)
    ensures exists m :: 0 <= m < |Pick(rows, tags, day)| && Pick(rows, tags, day)[m] == rows[j]
  {
    var rest := Pick(rows[1..], tags[1..], day);
    var head := if tags[0] == Some(day) then [rows[0]] else [];
    assert Pick(rows, tags, day) == head + rest;
    if j == 0 {
      assert Pick(rows, tags, day)[0] == rows[0];
    } else {
      PickHasTagged(rows[1..], tags[1..], day, j - 1);
      var m :| 0 <= m < |rest| && rest[m] == rows[1..][j - 1];
      assert Pick(rows, tags, day)[|head| + m] == rows[j];
    }
  }

  /** A stamp no picked candle beats is beaten by no candle with the tag. */
  lemma PickedUnbeaten(rows: seq<Candle>, tags: seq<Option<Day>>, day: Day, stamp: string, j: nat)
    requires |tags| == |rows| && forall m :: 0 <= m < |Pick(rows, tags, day)| ==> !Less(stamp, Pick(rows, tags, day)[m].end)
    requires j < |rows| && tags[j] == Some(day)
    ensures !Less(stamp, rows[j].end)
  {
    PickHasTagged(rows, tags, day, j);
  }

  /** The latest of the picked candles, as `get_last_value` chooses it. */
  lemma LatestPicked(rows: seq<Candle>, tags: seq<Option<Day>>, day: Day) returns (i: nat)
    requires |tags| == |rows| && GetLastValue(Pick(rows, tags, day)).Ok?
    ensures i < |rows| && tags[i] == Some(day) && rows[i].close == GetLastValue(Pick(rows, tags, day)).value.close
    ensures forall j :: 0 <= j < |rows| && tags[j] == Some(day) ==> !Less(rows[i].end, rows[j].end)
    ensures forall j :: 0 <= j < i && tags[j] == Some(day) ==> Less(rows[j].end, rows[i].end)
  {
    var ps := Pick(rows, tags, day);
    var v := GetLastValue(ps).value;
    var k :| 0 <= k < |ps| && v == Summarize(ps[k]) && forall m :: 0 <= m < k ==> Less(ps[m].end, ps[k].end);
    PickKeepsOrder(rows, tags, day, k);
    i :| 0 <= i < |rows| && rows[i] == ps[k] && tags[i] == Some(day)
         && forall j :: 0 <= j < i && tags[j] == Some(day) ==> rows[j] in ps[..k];
    forall j | 0 <= j < |rows| && tags[j] == Some(day)
      ensures !Less(rows[i].end, rows[j].end)
    {
      PickedUnbeaten(rows, tags, day, v.toStamp, j);
    }
    forall j | 0 <= j < i && tags[j] == Some(day)
      ensures Less(rows[j].end, rows[i].end)
    {
      var m :| 0 <= m < k && ps[..k][m] == rows[j];
      assert ps[m] == rows[j];
    }
  }

  /** There is a closing value for a day exactly when every stamp reads as a
      date and some candle falls on `day`. */
  lemma CloseOnExists(rows: seq<Candle>, day: Day)
    ensures CloseOn(rows, day).Ok?
        <==> (forall i :: 0 <= i < |rows| ==> DayOf(rows[i]).Some?)
             && exists i :: 0 <= i < |rows| && DayOf(rows[i]) == Some(day)
  {
    var r := RowsOn(rows, day);
    if r.Ok? {
      if r.value != [] {
        assert r.value[0] in r.value;
      }
      if exists i :: 0 <= i < |rows| && DayOf(rows[i]) == Some(day) {
        var i :| 0 <= i < |rows| && DayOf(rows[i]) == Some(day);
        assert rows[i] in r.value;
      }
    }
  }

  /** The closing value of a day is that of its latest candle, the first of
      them in the list on a tie. */
  lemma CloseOnIsLatestCandle(rows: seq<Candle>, day: Day)
    requires CloseOn(rows, day).Ok?
    ensures exists i :: 0 <= i < |rows| && DayOf(rows[i]) == Some(day) && rows[i].close == CloseOn(rows, day).value
                        && (forall j :: 0 <= j < |rows| && DayOf(rows[j]) == Some(day) ==> !Less(rows[i].end, rows[j].end))
                        && (forall j :: 0 <= j < i && DayOf(rows[j]) == Some(day) ==> Less(rows[j].end, rows[i].end))
  {
    var tags := Days(rows);
    RowsOnIsPick(rows, day);
    var i := LatestPicked(rows, tags, day);
    assert DayOf(rows[i]) == Some(day);
  }

  /** The day of every candle, in order. */
  function Days(rows: seq<Candle>): (xs: seq<Option<Day>>)
    ensures |xs| == |rows| && forall i :: 0 <= i < |rows| ==> xs[i] == DayOf(rows[i])
  {
    seq(|rows|, i requires 0 <= i < |rows| => DayOf(rows[i]))
  }

  /** The days of `xs` in order of first appearance, each once; `None` when some
      entry is missing. */
  function Distinct(xs: seq<Option<Day>>): (r: Option<seq<Day>>)
    ensures r.Some? <==> forall i :: 0 <= i < |xs| ==> xs[i].Some?
    ensures r.Some? ==> forall d :: d in r.value <==> Some(d) in xs
    ensures r.Some? ==> forall a, b :: 0 <= a < b < |r.value| ==> r.value[a] != r.value[b]
  {
    if xs == [] then Some([])
    else
      var n := |xs| - 1;
      assert forall i :: 0 <= i < n ==> xs[..n][i] == xs[i];
      assert xs == xs[..n] + [xs[n]];
      match (Distinct(xs[..n]), xs[n])
      case (None, _) => None
      case (Some(_), None) => None
      case (Some(ds), Some(d)) => Some(if d in ds then ds else ds + [d])
  }

  /** The days come in the order of their first appearance: wherever a later
      day shows up, each earlier day has already shown up. */
  lemma {:induction false} DistinctInFirstSeenOrder(xs: seq<Option<Day>>, a: nat, b: nat, j: nat)
    requires Distinct(xs).Some?
    requires a < b < |Distinct(xs).value| && j < |xs| && xs[j] == Some(Distinct(xs).value[b])
    ensures Some(Distinct(xs).value[a]) in xs[..j]
  {
    var ds := Distinct(xs).value;
    var n := |xs| - 1;
    var init := xs[..n];
    assert forall i :: 0 <= i < n ==> init[i] == xs[i];
    assert xs == init + [xs[n]];
    var ds0 := Distinct(init).value;
    var d := xs[n].value;
    assert ds == if d in ds0 then ds0 else ds0 + [d];
    assert a < |ds0| && ds[a] == ds0[a];
    if j < n {
      assert init[j] == Some(ds[b]);
      DistinctInFirstSeenOrder(init, a, b, j);
      assert init[..j] == xs[..j];
    } else {
      assert ds0[a] in ds0;
      assert init == xs[..j];
    }
  }

  /** `get_unique_dates` as a value: the distinct days of the candles in order of
      first appearance, or the ValueError of a stamp that does not read as a date. */
  function UniqueDays(rows: seq<Candle>): (r: Result<seq<Day>>)
    ensures r.Ok? <==> forall i :: 0 <= i < |rows| ==> DayOf(rows[i]).Some?
    ensures r.Err? ==> r.error == MalformedText
    ensures r.Ok? ==> forall d :: d in r.value <==> exists i :: 0 <= i < |rows| && DayOf(rows[i]) == Some(d)
    ensures r.Ok? ==> forall a, b :: 0 <= a < b < |r.value| ==> r.value[a] != r.value[b]
  {
    var xs := Days(rows);
    match Distinct(xs)
    case None => Err(MalformedText)
    case Some(ds) =>
      DaysOccur(rows);
      Ok(ds)
  }

  /** A day is among the candles' days exactly when some candle falls on it. */
  lemma DaysOccur(rows: seq<Candle>)
    ensures forall d :: Some(d) in Days(rows) <==> exists i :: 0 <= i < |rows| && DayOf(rows[i]) == Some(d)
  {
    var xs := Days(rows);
    forall d | Some(d) in xs
      ensures exists i :: 0 <= i < |rows| && DayOf(rows[i]) == Some(d)
    {
      var i :| 0 <= i < |xs| && xs[i] == Some(d);
    }
  }

  /** `Helper.get_unique_dates`. */
  method GetUniqueDates(rows: seq<Candle>) returns (r: Result<seq<Day>>)
    ensures r == UniqueDays(rows)
  {
    ghost var xs := Days(rows);
    var dates: seq<Day> := [];
    for i := 0 to |rows|
      invariant Distinct(xs[..i]) == Some(dates)
    {
      assert xs[..i + 1][..i] == xs[..i];
      var dt := DayOf(rows[i]);
      if dt.None? {
        assert xs[..i + 1][i] == None;
        return Err(MalformedText);
      }
      if dt.value !in dates {
        dates := dates + [dt.value];
      }
    }
    assert xs[..|rows|] == xs;
    r := Ok(dates);
  }

  /** The days come in the order the candles first show them: any candle of a
      later day is preceded by a candle of each earlier day. */
  lemma UniqueDaysInFirstSeenOrder(rows: seq<Candle>, ds: seq<Day>, a: nat, b: nat, j: nat)
    requires UniqueDays(rows) == Ok(ds)
    requires a < b < |ds| && j < |rows| && DayOf(rows[j]) == Some(ds[b])
    ensures exists i :: 0 <= i < j && DayOf(rows[i]) == Some(ds[a])
  {
    var xs := Days(rows);
    DistinctInFirstSeenOrder(xs, a, b, j);
    var i :| 0 <= i < j && xs[..j][i] == Some(ds[a]);
    assert DayOf(rows[i]) == Some(ds[a]);
  }

  /** The values of `rs` in order, or the first error among them: the `for`
      loop of `get_close_values`, which stops at the first raise. */
  function Collect(rs: seq<Result<real>>): (r: Result<seq<real>>)
    ensures r.Ok? <==> forall k :: 0 <= k < |rs| ==> rs[k].Ok?
    ensures r.Ok? ==> |r.value| == |rs| && forall k :: 0 <= k < |rs| ==> rs[k] == Ok(r.value[k])
  {
    if rs == [] then Ok([])
    else
      var n := |rs| - 1;
      assert forall k :: 0 <= k < n ==> rs[..n][k] == rs[k];
      match (Collect(rs[..n]), rs[n])
      case (Err(e), _) => Err(e)
      case (Ok(_), Err(e)) => Err(e)
      case (Ok(vs), Ok(v)) => Ok(vs + [v])
  }

  /** Once a prefix fails, the whole sequence fails with the same error. */
  lemma {:induction false} CollectKeepsFirstError(rs: seq<Result<real>>, i: nat)
    requires i <= |rs| && Collect(rs[..i]).Err?
    ensures Collect(rs) == Collect(rs[..i])
    decreases |rs| - i
  {
    if i < |rs| {
      assert rs[..i + 1][..i] == rs[..i];
      CollectKeepsFirstError(rs, i + 1);
    } else {
      assert rs[..i] == rs;
    }
  }

  /** The closing value, or the error, of each of `dates`. */
  function ClosesOf(rows: seq<Candle>, dates: seq<Day>): (rs: seq<Result<real>>)
    ensures |rs| == |dates| && forall k :: 0 <= k < |dates| ==> rs[k] == CloseOn(rows, dates[k])
  {
    seq(|dates|, k requires 0 <= k < |dates| => CloseOn(rows, dates[k]))
  }

  /** The closing value of each of `dates`, or the first error met. */
  function CloseValues(rows: seq<Candle>, dates: seq<Day>): (r: Result<seq<real>>)
    ensures r.Ok? <==> forall k :: 0 <= k < |dates| ==> CloseOn(rows, dates[k]).Ok?
    ensures r.Ok? ==> |r.value| == |dates| && forall k :: 0 <= k < |dates| ==> CloseOn(rows, dates[k]) == Ok(r.value[k])
  {
    Collect(ClosesOf(rows, dates))
  }

  /** Once a prefix of the days fails, the whole list fails with the same error. */
  lemma CloseValuesKeepsFirstError(rows: seq<Candle>, dates: seq<Day>, i: nat)
    requires i <= |dates| && CloseValues(rows, dates[..i]).Err?
    ensures CloseValues(rows, dates) == CloseValues(rows, dates[..i])
  {
    var rs := ClosesOf(rows, dates);
    assert ClosesOf(rows, dates[..i]) == rs[..i];
    CollectKeepsFirstError(rs, i);
  }

  /** `Helper.get_close_values`. */
  method GetCloseValues(rows: seq<Candle>, dates: seq<Day>) returns (r: Result<seq<real>>)
    ensures r == CloseValues(rows, dates)
  {
    var values: seq<real> := [];
    for i := 0 to |dates|
      invariant CloseValues(rows, dates[..i]) == Ok(values)
    {
      ghost var rs := ClosesOf(rows, dates[..i + 1]);
      assert rs[..i] == ClosesOf(rows, dates[..i]);
      assert rs[i] == CloseOn(rows, dates[i]);
      var filtered := RowsOn(rows, dates[i]);
      if filtered.Err? {
        CloseValuesKeepsFirstError(rows, dates, i + 1);
        return Err(filtered.error);
      }
      var maxItem := GetLastValue(filtered.value);
      if maxItem.Err? {
        CloseValuesKeepsFirstError(rows, dates, i + 1);
        return Err(maxItem.error);
      }
      values := values + [maxItem.value.close];
    }
    assert dates[..|dates|] == dates;
    r := Ok(values);
  }

  /** Used together as the plot does, the two reducers never fail: one closing
      value per distinct day, that of the day's latest candle. */
  lemma CloseValuesOfUniqueDays(rows: seq<Candle>, ds: seq<Day>)
    requires UniqueDays(rows) == Ok(ds)
    ensures CloseValues(rows, ds).Ok? && |CloseValues(rows, ds).value| == |ds|
  {
    forall k | 0 <= k < |ds|
      ensures CloseOn(rows, ds[k]).Ok?
    {
      assert ds[k] in ds;
      CloseOnExists(rows, ds[k]);
    }
  }
}
