/** The optional value shared by every module of the model: `None` stands for
    Rust's `None`, and for a panic where an operation of the source can panic. */
module Options {

  datatype Option<+T> = None | Some(value: T)
}
