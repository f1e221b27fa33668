/** A value that may be absent: a missing attribute, a regular expression
    that did not match, a handler that threw before doing anything. */
module Options {

  datatype Option<+T> = None | Some(value: T)
}
