/** A JavaScript property that may be missing (`undefined`). */
module Optional {
  datatype Option<T> = None | Some(value: T)
}
