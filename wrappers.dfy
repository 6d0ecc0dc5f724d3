/** Option type shared by the modules of the model. */
module Wrappers {

  /** `None` stands for a Python exception that aborts the step (ValueError from `int()`),
      or for "nothing produced". */
  datatype Option<+T> = None | Some(value: T)
}
