/** Small shared datatypes. */
module Common {

  /** An optional value: `None` stands for "absent" or "the operation failed". */
  datatype Option<T> = None | Some(value: T)
}
