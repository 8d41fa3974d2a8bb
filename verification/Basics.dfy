/**
Small types and functions that several models share.
 */
module Basics {

  datatype Option<+T> = None | Some(value: T)

  type Byte = b: nat | b < 0x100

  function Max(a: nat, b: nat): nat {
    if a >= b then a else b
  }

  function Min(a: nat, b: nat): nat {
    if a <= b then a else b
  }
}
