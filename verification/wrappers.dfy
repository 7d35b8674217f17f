/** Optional values. `None` stands for JavaScript's `undefined` or `NaN`,
    whichever the surrounding code would produce. */
module Wrappers {

  datatype Option<+T> = None | Some(value: T)
}
