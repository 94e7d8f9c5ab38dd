/** Strategy numbers of the ordering operators, as index scans pass them. */
module Strategies {
  const LESS := 1
  const LESS_EQUAL := 2
  const EQUAL := 3
  const GREATER_EQUAL := 4
  const GREATER := 5
  const NOT_EQUAL := 6
}
