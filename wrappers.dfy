/** An optional value: `None` stands for Ruby's `nil` in a record attribute or a looked-up key. */
module Wrappers {

  datatype Option<+T> = None | Some(value: T)
}
