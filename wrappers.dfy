/** The optional value the searcher's PHP functions express with `null`. */
module Wrappers {
  datatype Option<+T> = None | Some(value: T)
}
