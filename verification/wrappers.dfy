/** The optional value used wherever the service has "nothing": a file that
    could not be read or parsed, a `parseInt` that gave NaN, an index that
    `findIndex` did not find. */
module Wrappers {

  datatype Option<+T> = None | Some(value: T)

}
