// An optional value, standing for the nullable references and `T?` values of the source.

module Options {

  datatype Option<T> = None | Some(value: T)
}
