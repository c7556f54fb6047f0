module Wrappers {

  datatype Option<T> = None | Some(value: T)

  function If(c: bool): nat { if c then 1 else 0 }
}
