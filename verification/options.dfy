/** The optional value used wherever the modelled code can come back empty-handed:
    a lookup that finds nothing, or an evaluation that raises an exception. */
module Options {

  datatype Option<+T> = None | Some(value: T)
}
