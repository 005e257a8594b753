/** A value that may be absent: a pandas aggregate of an empty column (NaN),
    a category pd.cut could not assign, a JSON key that `dict.get` did not find. */
module Wrappers {
  datatype Option<+T> = None | Some(value: T)
}
