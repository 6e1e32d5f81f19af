/** An optional value. `None` stands for what pandas reports as NaN (the mean
    of no rows, 0/0, an undefined correlation) and for a dictionary `get` that
    misses. */
module Wrappers {

  datatype Option<+T> = None | Some(value: T)
}
