/** Values shared by every part of the model: bytes, UTF-16 code units
    (JavaScript strings are sequences of them), and the usual Option and
    Result wrappers for the source's undefined values and thrown errors. */
module Base {

  /** One byte of a Uint8Array (or of the wasm heap). */
  type Byte = x: int | 0 <= x < 0x100

  /** One UTF-16 code unit, what String.prototype.charCodeAt returns. */
  type Unit = x: int | 0 <= x < 0x1_0000

  /** A JavaScript string: a sequence of UTF-16 code units. */
  type JsString = seq<Unit>

  datatype Option<+T> = None | Some(value: T)

  datatype Result<+T, +E> = Ok(value: T) | Err(error: E)

  /** WASI errno values, as the file system throws them. */
  const EACCES: int := 2
  const EBADF: int := 8
  const EEXIST: int := 20
  const EINVAL: int := 28
  const EMFILE: int := 33
  const ENOENT: int := 44
  const EPERM: int := 63

  /** A sequence of n zero bytes (what `new Uint8Array(n)` holds). */
  function Zeros(n: nat): (z: seq<Byte>)
    ensures |z| == n
    ensures forall i :: 0 <= i < n ==> z[i] == 0
  {
    seq(n, _ => 0)
  }

  function Min(a: int, b: int): int { if a <= b then a else b }

  function Max(a: int, b: int): int { if a >= b then a else b }

  /** Concatenation is associative. */
  lemma AppendAssoc<T>(x: seq<T>, y: seq<T>, z: seq<T>)
    ensures x + (y + z) == (x + y) + z
  {
  }
}
