/** Small values shared by the models: optional results and append-only logs. */
module Basics {
  datatype Option<+T> = None | Some(value: T)

  /** A log that grows at the end: what a run has done so far, oldest entry innermost. */
  datatype Log<+T> = Empty | Then(before: Log<T>, last: T)
}
