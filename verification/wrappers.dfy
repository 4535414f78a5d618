/** The optional value used wherever the script may find nothing: a missing
    `data-index` attribute, a swipe too short to navigate. */
module Wrappers {

  datatype Option<+T> = None | Some(value: T)
}
