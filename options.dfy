/** The optional-value type used for absent query parameters and for
    values the model leaves undetermined. */
module Options {

  datatype Option<+T> = None | Some(value: T)
}
