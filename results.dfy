/** Failure-compatible results, for the lattice's throwing and null-returning paths. */
module Results {

  datatype Option<+T> = None | Some(value: T)

  datatype Outcome<+E> = Pass | Fail(error: E)
}
