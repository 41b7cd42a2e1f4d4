/** The optional result used where the Kotlin code returns a nullable value. */
module Wrappers {

  datatype Option<+T> = None | Some(value: T)
}
