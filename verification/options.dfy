/** The optional results of the lookups: the source returns `null` where this returns `None`. */
module Options {

  datatype Option<+T> = None | Some(value: T)
}
