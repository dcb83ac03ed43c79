/** Option and outcome types shared by the model. */
module Results {

  /** `None` stands for "no value" (the measurer's NaN, Python's bare `None`). */
  datatype Option<+T> = None | Some(value: T)

  /** The outcome of a lifecycle call: it passed, or it failed with a usage error. */
  datatype Outcome<+E> = Pass | Fail(error: E)
}
