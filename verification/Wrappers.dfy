/** Option values, used where the source returns null or an absent map entry. */
module Wrappers {
  datatype Option<+T> = None | Some(value: T)
}
