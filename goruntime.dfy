/** The parts of the Go language and runtime that datavec.go relies on:
    two's-complement int64 arithmetic, slice lengths, bytes, the `error`
    values that the package compares against, and the builtin `copy`. */
module GoRuntime {

  const MinInt64: int := -0x8000_0000_0000_0000
  const MaxInt64: int := 0x7fff_ffff_ffff_ffff
  const Modulus64: int := 0x1_0000_0000_0000_0000

  /** Go's int64 (and int, on the 64-bit platforms the package targets). */
  type Int64 = x: int | MinInt64 <= x <= MaxInt64

  /** A slice length: never negative, never above the largest int. */
  type Len = x: nat | x <= MaxInt64

  newtype byte = x: int | 0 <= x < 256

  datatype Option<T> = None | Some(value: T)

  /** int64 addition and subtraction in Go wrap around modulo 2^64. */
  function Wrap64(x: int): (r: Int64)
    ensures (x - r) % Modulus64 == 0
    ensures MinInt64 <= x <= MaxInt64 ==> r == x
  {
    var m := (x - MinInt64) % Modulus64;
    assert x - (m + MinInt64) == Modulus64 * ((x - MinInt64) / Modulus64);
    m + MinInt64
  }

  function Min(a: int, b: int): int
  {
    if a < b then a else b
  }

  /** The error values that reach or leave a Datavec: `nil`, `io.EOF`,
      `os.ErrInvalid` (operation on a nil *os.File), `os.ErrClosed`
      (operation on a closed file), the "negative offset" error of
      (*os.File).ReadAt, and any other filesystem failure. */
  datatype Error = Nil | EOF | ErrInvalid | ErrClosed | NegativeOffset | FsError(code: nat)

  /** The `(int, error)` pair every ReadAt returns. */
  datatype ReadResult = ReadResult(n: int, err: Error)

  /** Go's builtin `copy(dst, src)`: copies min(len(dst), len(src)) bytes
      to the front of dst, leaves the rest of dst alone and returns the count. */
  method Copy(dst: array<byte>, src: seq<byte>) returns (n: int)
    modifies dst
    ensures n == Min(dst.Length, |src|)
    ensures dst[..n] == src[..n]
    ensures dst[n..] == old(dst[n..])
  {
    n := Min(dst.Length, |src|);
    var i := 0;
    while i < n
      invariant 0 <= i <= n
      invariant forall k :: 0 <= k < i ==> dst[k] == src[k]
      invariant forall k :: i <= k < dst.Length ==> dst[k] == old(dst[k])
    {
      dst[i] := src[i];
      i := i + 1;
    }
  }
}
