/** The optional value used for the thumbnail field of a listing record, the file
    part of an upload request and the counter read back from a renamed file. */
module Wrappers {
  datatype Option<T> = None | Some(value: T)
}
