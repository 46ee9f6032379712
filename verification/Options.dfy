/** A value that may be absent: Go's nil, a failed lookup, or a second result that is false. */
module Options {

  datatype Option<+T> = None | Some(value: T)
}
