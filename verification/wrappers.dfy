/** Optional values, used wherever the program either produces a value or
    gives up (an exception it catches, a key it lacks). */
module Wrappers {

  datatype Option<+T> = None | Some(value: T)
}
