/** A value that may be absent. In this model `None` stands for a JavaScript
    exception (a TypeError or SyntaxError) that aborts the surrounding
    computation. */
module Wrappers {

  datatype Option<+T> = None | Some(value: T)
}
