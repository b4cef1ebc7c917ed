/** The optional value the searches return: `None` where the source returns
    nothing (no path found) or `parent_map.get` misses. */
module Wrappers {

  datatype Option<+T> = None | Some(value: T)

}
