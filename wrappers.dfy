/** The optional value that stands for Swift's `T?` results (a failed parse, an absent table). */
module Wrappers {

  datatype Option<+T> = None | Some(value: T)
}
