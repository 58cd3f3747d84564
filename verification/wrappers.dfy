/** A missing-value wrapper: `None` stands for a pandas NaN / null cell. */
module Wrappers {

  datatype Option<+T> = None | Some(value: T)
}
