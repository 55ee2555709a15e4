/** An optional value: the model's counterpart of a Python value that may be `None`. */
module Options {

  datatype Option<+T> = None | Some(value: T)

}
