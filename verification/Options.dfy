/** Nullable column values, and SQL's COALESCE over two of them. */
module Options {
  datatype Option<+T> = None | Some(value: T)

  function Coalesce<T>(first: Option<T>, second: Option<T>): Option<T> {
    if first.Some? then first else second
  }
}
