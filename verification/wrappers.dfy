/** The wrappers the fragment model uses: `Option` stands in for
    `java.util.Optional` (and for a nullable reference), `Result` for a
    value-or-exception outcome. */
module Wrappers {

  datatype Option<+T> = None | Some(value: T)

  datatype Result<+R, +E> = Success(value: R) | Failure(error: E)
}
