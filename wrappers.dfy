/** Small result types shared by the other modules. */
module Wrappers {

  datatype Option<+T> = None | Some(value: T)

  /**
   * The outcome of code guarded by the iterator's `canary` counter:
   * either it ran to completion, or the `assert(0)` that guards the
   * counter fired and the process stopped.
   */
  datatype Checked<+T> = Ok(value: T) | Aborted
}
