/** The optional value used for absent keypoints, absent cache entries and unparsable input. */
module Wrappers {

  datatype Option<+T> = None | Some(value: T)
}
