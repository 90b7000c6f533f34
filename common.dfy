/** Small shared datatypes. */
module Common {

  /** A value that may be absent; stands for the source's null pointers and npos results. */
  datatype Option<+T> = None | Some(value: T)
}
