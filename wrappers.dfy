/** The optional value the analysis returns where the Python code returns `None`. */
module Wrappers {

  datatype Option<+T> = None | Some(value: T)
}
