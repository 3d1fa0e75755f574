/** Small arithmetic, the widths of machine words, and the error codes. */
module Basics {
  const U16: nat := 0x1_0000
  const U32: nat := 0x1_0000_0000
  const U48: nat := 0x1_0000_0000_0000
  const U64: nat := 0x1_0000_0000_0000_0000

  const ENOENT: int := -2
  const E2BIG: int := -7
  const EEXIST: int := -17
  const EINVAL: int := -22
  const ENOSPC: int := -28
  const ERANGE: int := -34
  const EMSGSIZE: int := -90

  function Min(a: nat, b: nat): nat { if a <= b then a else b }

  function Max(a: nat, b: nat): nat { if a <= b then b else a }
}
