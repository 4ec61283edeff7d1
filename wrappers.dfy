/** The optional value Kotlin writes as a nullable type (`Uri?`, `ImageAnalysis?`). */
module Wrappers {
  datatype Option<+T> = None | Some(value: T)
}
