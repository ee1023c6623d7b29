/** An optional value: what the sources write as something that may be null or None. */
module Options {

  datatype Option<+T> = None | Some(value: T)
}
