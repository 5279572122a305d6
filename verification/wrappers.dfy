/** The optional-value datatype the rest of the model uses for lookups that can
    miss and for steps that cannot be taken. */
module Wrappers {

  datatype Option<+T> = None | Some(value: T)
}
