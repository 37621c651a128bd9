/**
 Sizes that several parts of the kernel share.
 */
module Limits {
  const NUM_PROCS := 6
  const MAX_TERM := 3
  /** One text screen: 80 columns and 25 rows of character and attribute. */
  const VIDEO_BYTES := 4000
}
