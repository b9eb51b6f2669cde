/** The optional value used for lookups that may find nothing and for nullable columns. */
module Options {

  datatype Option<+T> = None | Some(value: T)
}
