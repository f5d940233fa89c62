/** The explicit "absent" value that the statistics return on empty input
    (`null` in the source) and that optional lookups return (`undefined`). */
module Wrappers {

  datatype Option<+T> = None | Some(value: T)
}
