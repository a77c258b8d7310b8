/** The JavaScript `null`-or-value results of the rating engine. */
module Wrappers {

  datatype Option<+T> = None | Some(value: T)

}
