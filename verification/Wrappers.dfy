/** A value that may be absent: null and undefined. */
module Wrappers {

  datatype Option<T> = None | Some(value: T)

  function SetOf<T>(o: Option<T>): set<T> {
    if o.Some? then {o.value} else {}
  }
}
