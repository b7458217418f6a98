/** Failure-compatible wrapper used wherever the page's code can come back
    with "nothing": an absent storage entry, an unparseable date (JavaScript's
    NaN), a string with no number in it. */
module Wrappers {

  datatype Option<+T> = None | Some(value: T)
}
