/** Option: the result of a browser `prompt` (None when the user cancels) and
    of a `localStorage.getItem` lookup (None when the key is absent). */
module Wrappers {

  datatype Option<+T> = None | Some(value: T)
}
