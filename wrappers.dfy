/** The optional value the pipeline uses for "no text", "the call raised" and "no artifact". */
module Wrappers {

  datatype Option<+T> = None | Some(value: T)
}
