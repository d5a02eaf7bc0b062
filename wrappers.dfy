/** The absent-or-present wrapper used for Java's nullable results. */
module Wrappers {

  /** `None` plays the part of a Java `null`. */
  datatype Option<+T> = None | Some(value: T)

}
