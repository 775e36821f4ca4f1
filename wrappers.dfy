/** The optional value used throughout the model: a missing file-name segment,
    an SQL NULL, a pandas NaN/NaT, or a column name the frame does not have. */
module Wrappers {

  datatype Option<+T> = None | Some(value: T)
}
