/** Cells of the wearable-readings table. */
module Cells {

  /** A value that may be absent. */
  datatype Option<+T> = None | Some(value: T)

  /** One numeric reading; None stands for a missing value (pandas NaN / NaT). */
  type Cell = Option<real>
}
