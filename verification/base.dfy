/** Small shared vocabulary: the optional value that stands for Java's `null`. */
module Base {

  /** `None` plays the part of a Java `null` reference. */
  datatype Option<+T> = None | Some(value: T)

}
