/** A value that may be absent: JavaScript's `undefined` (a lookup that found
    nothing, an attribute that is not set) or `NaN` (a parse that read no digit). */
module Options {

  datatype Option<T> = None | Some(value: T)
}
