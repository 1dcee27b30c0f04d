/** The two result shapes the models share. A Go panic is a value here: the run of the
    operation that raised it ends, and nothing is promised about what it computed. */
module Outcomes {
  datatype Option<+T> = None | Some(value: T)

  datatype Result<+T> = Returned(value: T) | Panicked
}
