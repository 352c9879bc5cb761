/** Octets, fixed word sizes and the outcome of reading a value off the front of a byte string. */
module Bytes {

  type Byte = x: nat | x < 256

  type Octets = seq<Byte>

  const U16 := 0x1_0000
  const U32 := 0x1_0000_0000
  const U64 := 0x1_0000_0000_0000_0000

  /** `Ok` carries the value read and the bytes after it; `Err` is a C function that returned false. */
  datatype Parse<+T> = Ok(value: T, rest: seq<Byte>) | Err

  datatype Option<+T> = None | Some(value: T)

  function Zeros(n: nat): (z: seq<Byte>)
    ensures |z| == n && forall i :: 0 <= i < n ==> z[i] == 0
  {
    seq(n, _ => 0)
  }
}
