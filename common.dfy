/** Types and small helpers shared by every part of the model. */
module Common {

  /** One byte of a file or of a command-line argument. */
  type byte = bv8

  /** A path or a command-line argument, one character per C byte. */
  type Path = string

  datatype Option<+T> = None | Some(value: T)

  datatype Result<+T, +E> = Ok(value: T) | Err(error: E)

  function Min(a: int, b: int): int
  {
    if a <= b then a else b
  }

  /** The sequence of `n` zero bytes, as `memset(p, 0, n)` writes them. */
  function Zeros(n: nat): (z: seq<byte>)
    ensures |z| == n
    ensures forall i :: 0 <= i < n ==> z[i] == 0
  {
    seq(n, _ => 0)
  }

  /** Every character of `s` stands for one C byte. */
  predicate IsByteString(s: string)
  {
    forall i :: 0 <= i < |s| ==> s[i] as int < 256
  }

  /** The bytes a C string of such characters holds. */
  function Bytes(s: string): (b: seq<byte>)
    requires IsByteString(s)
    ensures |b| == |s|
  {
    seq(|s|, i requires 0 <= i < |s| => s[i] as int as byte)
  }
}
