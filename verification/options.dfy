/** An optional value: the model's stand-in for Rust's `Option` and for a
    computation that would panic. */
module Options {

  datatype Option<+T> = None | Some(value: T)

}
