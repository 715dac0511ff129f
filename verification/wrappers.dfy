/** Failure-carrying result types shared by the model: `None`/`Failure` stand
    for the Python exceptions the service lets escape (an `IndexError`, a
    `ValueError` from `list.index`, a `TypeError` on a missing row). */
module Wrappers {

  datatype Option<+T> = None | Some(value: T)

  datatype Result<+R, +E> = Success(value: R) | Failure(error: E)
}
