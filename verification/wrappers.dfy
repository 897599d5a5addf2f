/** The optional value the dialogs use for absent selected-texts and absent
    width overrides. */
module Wrappers {

  datatype Option<T> = None | Some(value: T)
}
