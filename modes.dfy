/** The rotation configuration enums of the crate root. */
module Modes {

  /** Calendar granularity of time-based rotation (`MODE`): one archive per hour, day or month. */
  datatype Mode = Hour | Day | Month

  /** What triggers a rotation (`CUTMODE`): a calendar boundary or a byte size. */
  datatype CutMode = Time | Size
}
