/** A value that may be absent: the model's stand-in for a Rust `Option`, and for
    a `Result` whose error case carries nothing the model needs. */
module Options {

  datatype Option<+T> = None | Some(value: T)

}
