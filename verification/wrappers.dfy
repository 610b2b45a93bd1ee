/** The Option type that stands in for Java's nullable references and
    java.util.Optional throughout the model. */
module Wrappers {

  /** `None` plays the role of `null` / `Optional.empty()`. */
  datatype Option<+T> = None | Some(value: T) {

    /** What a Java caller sees when it substitutes `fallback` for null. */
    function ValueOr(fallback: T): T {
      if Some? then value else fallback
    }
  }
}
