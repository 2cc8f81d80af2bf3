/** The optional value used for nullable pointers and absent slots. */
module Optional {
  datatype Option<T> = None | Some(value: T)
}
