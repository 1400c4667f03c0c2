/** The optional value used where the application stores `null` or a lookup may miss. */
module Wrappers {

  datatype Option<+T> = None | Some(value: T)

}
