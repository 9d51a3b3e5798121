/** The rows of the post-office table and the fixed horizon of the analysis. */
module Facilities {
  import opened Wrappers

  /** A row as read from the post-office file: a state code and two years, either of which may be missing. */
  datatype RawRow = RawRow(state: string, established: Option<int>, discontinued: Option<int>)

  /** A cleaned row: both years are integers, 0 standing for a year that was missing. */
  datatype Facility = Facility(state: string, established: int, discontinued: int)

  /** The analysis walks the years FirstYear..LastYear, both included. */
  const FirstYear: int := 1772
  const LastYear: int := 2000

  /** The number of years in the horizon: 229. */
  const YearCount: nat := LastYear - FirstYear + 1

  predicate InHorizon(y: int) {
    FirstYear <= y <= LastYear
  }
}
