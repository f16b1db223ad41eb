/** The date fields of the summaries `Interval` and `Dynamics` return: text as
    received, or parsed to `datetime`/`date`, as the caller's flag asks. */
module Labels {
  import opened Text
  import opened Errors
  import opened Dates

  datatype Label =
    | Stamp(text: string)    // a string, as requested with the flag set
    | At(moment: DateTime)   // a `datetime`
    | On(day: Day)           // a `date`

  /** A candle stamp as a summary field: the raw string, or
      `Helper.datetime_format(stamp)`, `None` where that raises ValueError. */
  function StampLabel(stamp: string, returnStr: bool): (l: Option<Label>)
    ensures returnStr ==> l == Some(Stamp(stamp))
    ensures !returnStr ==> (l.Some? <==> ParseDateTime(stamp).Some?)
    ensures !returnStr && l.Some? ==> l.value.At? && ToDate(Prefix(stamp, 10)) == Some(l.value.moment.day)
  {
    if returnStr then Some(Stamp(stamp))
    else match ParseDateTime(stamp)
      case None => None
      case Some(t) => Some(At(t))
  }

  /** A period bound as a summary field: `Helper.from_date(day)`, or the date. */
  function DayLabel(day: Day, returnStr: bool): Label
    requires InRange(day)
  {
    if returnStr then Stamp(FromDate(day)) else On(day)
  }
}
