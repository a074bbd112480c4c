/** Optional values and the error outcomes of the request handlers. */
module Outcomes {

  datatype Option<T> = None | Some(value: T)

  /** The Python exceptions the handlers of SurfsUp/app.py can raise, one
      constructor per cause. */
  datatype Fault =
    | NoneSubscript   // TypeError: `.first()` found no row and its None is indexed
    | FieldMissing    // IndexError: `split('-')` gave fewer than three fields
    | NotAnInteger    // ValueError: `int()` of a field that is not a decimal numeral
    | NotACInt        // OverflowError: a `datetime.date` argument does not fit a C int
    | BadDate         // ValueError: `datetime.date` given a year, month or day out of range
    | OutOfRange      // OverflowError: `date - timedelta` left the years 1..9999
    | NoStation       // IndexError: the list of station keys is empty

  datatype Result<T> = Ok(value: T) | Err(fault: Fault)
}
