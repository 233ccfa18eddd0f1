/** The optional value the tracer returns for "no hit" and for a computation that would abort. */
module Wrappers {

  datatype Option<+T> = None | Some(value: T)
}
