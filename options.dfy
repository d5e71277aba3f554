/** The "value or absent" type that the TypeScript sources express with `T | undefined`. */
module Options {

  datatype Option<+T> = None | Some(value: T)
}
