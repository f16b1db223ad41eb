/** The exceptions the core raises (custom/custom_exceptions.py and the Python
    built-ins it lets escape), and the Option/Result wrappers that carry them. */
module Errors {

  datatype Option<+T> = None | Some(value: T)

  /** Which argument of `check_date` failed to parse. */
  datatype Field = PeriodFrom | PeriodTo

  datatype Error =
    | InitialDateLessFirstDate
    | TooManyDaysOffInARow
    /** The non-trading endpoints, in the order `check_date` names them. */
    | SpecifiedDayIsNotTradingDay(days: seq<int>)
    | IsNotValidDate(field: Field)
    | IsNotValidPeriod
    | SomethingWentWrong
    /** A ValueError from `strptime` that no handler turns into one of the above. */
    | MalformedText
    /** The ValueError of `max`/`min` over an empty sequence. */
    | EmptySequence
    | ZeroDivision
    /** The OverflowError of `date ± timedelta(1)` past 0001-01-01 or 9999-12-31. */
    | Overflow
    /** The KeyError of a dictionary lookup. */
    | KeyNotFound(key: string)

  datatype Result<+T> = Ok(value: T) | Err(error: Error)
}
