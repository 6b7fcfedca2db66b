/** A value that may be absent: a C# `null` reference, a JavaScript `null` history state,
    or a query parameter that is not in the URL. */
module Wrappers {

  datatype Option<+T> = None | Some(value: T)
}
