/** The optional value used throughout the model: `None` stands for a
    missing field, or for a computation that raised an exception. */
module Wrappers {

  datatype Option<T> = None | Some(value: T)
}
