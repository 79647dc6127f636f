module Wrappers {
  const INT_MAX: int := 0x7fff_ffff

  datatype Option<+T> = None | Some(value: T)
}
