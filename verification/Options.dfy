/** Rust's `Option`. */
module Options {

  datatype Option<+T> = None | Some(value: T)

  /** `unwrap_or`. */
  function Or<T>(o: Option<T>, default: T): T { if o.Some? then o.value else default }
}
