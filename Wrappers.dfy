/** Optional values: JavaScript's `undefined`/`null` results and optional parameters. */
module Wrappers {

  datatype Option<+T> = None | Some(value: T)

}
