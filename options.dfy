/** A value that may be absent: a JavaScript property that is `undefined`,
    a body that never arrived, a document that did not parse. */
module Options {
  datatype Option<+T> = None | Some(value: T)
}
