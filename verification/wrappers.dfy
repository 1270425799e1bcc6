/** The optional value a browser attribute read may return: `None` stands for
    Python's `None` (an anchor without an `href` attribute). */
module Wrappers {

  datatype Option<+T> = None | Some(value: T)
}
