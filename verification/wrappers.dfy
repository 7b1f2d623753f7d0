/** The optional values the source expresses with nil pointers, nil maps and "not found". */
module Wrappers {

  datatype Option<+T> = None | Some(value: T) {

    /** The value, or the given default when there is none. */
    function GetOr(default: T): T
    {
      if Some? then value else default
    }
  }
}
