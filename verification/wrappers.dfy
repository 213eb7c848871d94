/** A plain optional value, used for the `Option` slots of the
    pool and for every partial parse in the model. */
module Wrappers {

  datatype Option<+T> = None | Some(value: T)
}
