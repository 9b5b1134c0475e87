/** The Some/None datatype used wherever a remote call or a dialog may give no value. */
module Wrappers {

  /** `None` stands for a failed call (an exception the caller swallows) or a cancelled dialog. */
  datatype Option<+T> = None | Some(value: T)
}
