/** The optional value that Ruby expresses with `nil`. */
module Options {

  datatype Option<+T> = None | Some(value: T)

}
