// Names that most modules share.
module Basics {

  type byte = b: nat | b < 256

  const FLASH_BASE: nat := 0x0800_0000

  datatype Option<T> = None | Some(value: T)

  function Min(a: nat, b: nat): nat {
    if a <= b then a else b
  }
}
