/** An optional value: Python's None, or a value. */
module Wrappers {
  datatype Option<+T> = None | Some(value: T) {
    function GetOr(default: T): T {
      if Some? then value else default
    }
  }
}
