/** The optional value used for nullable callbacks and for codes without a mapping. */
module Options {

  datatype Option<+T> = None | Some(value: T)
}
