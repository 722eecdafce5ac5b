/** The optional value used throughout the model for JavaScript's `null`
    and for absent DOM elements. */
module Optional {

  datatype Option<T> = None | Some(value: T)
}
