/** The optional value the queue hands back: `None` stands for Go's nil request pointer. */
module Wrappers {
  datatype Option<T> = None | Some(value: T)
}
