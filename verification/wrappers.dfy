/** An optional value: reading a key back out of a URL that may not carry the bucket's prefix. */
module Wrappers {

  datatype Option<+T> = None | Some(value: T)
}
