/** A value that may be absent: a Go pointer that may be nil, or the
    optional `*reflect.StructField` handed to a visitor. */
module Wrappers {

  datatype Option<+T> = None | Some(value: T)

}
