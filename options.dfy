/** Optional values: the `null`, `undefined` and `false` markers that the
    JavaScript client and the PHP server use for "absent". */
module Options {
  datatype Option<+T> = None | Some(value: T)
}
