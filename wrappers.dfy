/** The optional value returned by Kotlin's nullable lookups (`map[key]`, `firstOrNull`). */
module Wrappers {

  datatype Option<+T> = None | Some(value: T)
}
