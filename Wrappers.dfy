/** The nullable values of the controller: PHP's `?int`, `?string` and `?array`. */
module Wrappers {

  datatype Option<+T> = None | Some(value: T)

}
