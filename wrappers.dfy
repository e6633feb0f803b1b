/** A value that may be absent: a missing key of a JSON record, a deck file
    that failed to load, an empty list-box selection, a search that did not
    run. */
module Wrappers {
  datatype Option<T> = None | Some(value: T) {
    /** The value, or default when there is none (Python's dict.get). */
    function GetOr(default: T): T {
      if Some? then value else default
    }
  }
}
