/** An optional value: `Some(c)` when a handler reports a colour upstream, `None` when it does not. */
module Options {

  datatype Option<T> = None | Some(value: T)
}
