/** An optional value; `None` stands for a null pointer. */
module Options {
  datatype Option<T> = None | Some(value: T)
}
