/** Optional values: `undefined`/`null` on the TypeScript side, and the
    outcome of a decoding call that may throw. */
module Options {

  datatype Option<+T> = None | Some(value: T)
}
