/** The optional value used for lookups that may miss and for readers that may reject their input. */
module Wrappers {

  datatype Option<+T> = None | Some(value: T)

}
