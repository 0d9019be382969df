/** Small shared definitions: optional values and bytes. */
module Basics {

  datatype Option<+T> = None | Some(value: T)

  type byte = x: nat | x < 256
}
