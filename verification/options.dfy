/** A value that may be missing: JavaScript's `undefined`/`null` results. */
module Options {

  datatype Option<+T> = None | Some(value: T)
}
