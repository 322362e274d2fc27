# Datavec: memory, file and padding byte ranges

This project models `datavec.go` of the tarstream package. A `Datavec` is one contiguous, offset-addressable range of bytes. A tar-stream assembler builds a virtual byte stream out of these ranges. There are three implementations:

- `memVec` holds a byte slice.
- `pathVec` holds a path, file metadata supplied by its builder, and an `*os.File`.
- `padVec` holds only a size and stands for that many zero bytes.

Each one answers `GetSize`, `Open`, `Close` and `ReadAt(b, off)`.

Modules:

- `GoRuntime` (goruntime.dfy): int64 wrap-around, slice lengths, bytes, the error values, the `(int, error)` pair, and the builtin `copy` as a loop over an `array<byte>`.
- `OsFile` (osfile.dfy): the state of the `file` field (nil, open, closed), the outcome of `os.Open`, and the outcome of `(*os.File).ReadAt`. These are values the caller of the model supplies. `ReadAtContent` is the io.ReaderAt contract on a file given as a byte sequence.
- `Datavec` (datavec.dfy): the three implementations as written, and the interface as a three-variant datatype.
  - `memVec` and `padVec` have value receivers, so they are plain values.
  - `pathVec`'s `Open`, `Close` and `ReadAt` have pointer receivers (its `GetSize` has a value receiver), so it is a class, held by pointer, whose `Open` and `Close` change its `file` field.
  - The caller's buffer is an `array<byte>`.
  - Go run-time panics become preconditions that state exactly when the code does not panic. These are the slice expression of `memVec.ReadAt` and the `make` of `padVec.ReadAt`.
- `Corrected` (corrected.dfy): the two defects listed under Findings, each shown as written and then corrected. It also holds the round-trip property the corrections restore.

Go's `io.ReaderAt` convention is that a read past the end returns `(0, io.EOF)`, and that the bytes counted land in the caller's buffer. The code departs from it in three places, and the model follows the code:

- A read with `off` beyond the size does not return `(0, io.EOF)`. `memVec.ReadAt` panics there because `Data[off:end]` has `end < off`. `padVec.ReadAt` panics too when `Size - off` does not wrap around (for example, for a non-negative `Size`), because `make([]byte, n)` gets a negative `n`. It does not return a negative count. When `Size - off` wraps around, the count comes out positive and the read succeeds; the model computes that case with the same wrap-around. Both are preconditions in the model.
- A `pathVec` read at the end of its file returns `(0, nil)`, not `(0, io.EOF)` (Findings).
- A `padVec` read counts bytes but writes none of them into the caller's buffer (Findings).

## Model

| member | source | states |
|---|---|---|
| `GoRuntime.Wrap64` | datavec.go:51-54 | int64 `+`/`-` wrap-around: the result is an int64 congruent to the exact value modulo 2^64, and equals it when no overflow happens |
| `GoRuntime.Copy` | datavec.go:60 | builtin `copy(b, src)`: copies `min(len(b), len(src))` bytes to the front of `b` and leaves the rest of `b` unchanged |
| `Datavec.MemInRangeIff` | datavec.go:50-60 | `m.Data[off:end]` does not panic exactly when `0 <= off <= len(Data)`, provided `off + len(Data)` does not overflow int64 |
| `Datavec.MemRead` | datavec.go:49-64 | memVec result: `n = min(len(b), len(Data) - off)`; `io.EOF` exactly when `off == len(Data)` or `len(b) == 0`; no other error; requires the slice to be in range |
| `Datavec.MemReadAt` | datavec.go:49-65 | in-place read: returns `MemRead`, with `b[0..n] == Data[off..off+n]` and `b[n..]` unchanged |
| `Datavec.MemDrainReconstructs` | datavec.go:49-64 | repeated memVec reads with a non-empty buffer, from `off`, advancing by each count until `io.EOF`, concatenate to exactly `Data[off..]` |
| `Datavec.PadInRangeIff` | datavec.go:116-125 | for non-negative size and offset, padVec.ReadAt does not panic exactly when `off <= Size` (otherwise `make` gets a negative length) |
| `Datavec.PadRead` | datavec.go:115-126 | padVec result: the count is between 0 and `len(b)`, equals `min(len(b), Size - off)` whenever `Size - off` does not overflow int64 (a negative offset included), `io.EOF` exactly when it is 0, and otherwise `nil` |
| `Datavec.PadEofIff` | datavec.go:116-123 | within the padding, padVec signals `io.EOF` exactly at `off == Size` or for an empty buffer |
| `Datavec.PathResult` | datavec.go:90-97 | pathVec's translation of `(n, err)`: the count passes through; `io.EOF` out exactly when `n == 0` and the file's error was not `io.EOF`; `nil` out exactly when the file said `io.EOF` or succeeded with `n != 0`; any other error only with `n != 0`, unchanged |
| `Datavec.PathEofAbsorbed` | datavec.go:91-93 | an underlying `io.EOF` becomes `nil`, for every `n` including 0 |
| `Datavec.PathErrorHidden` | datavec.go:94-96 | a zero count with any error other than `io.EOF` becomes `(0, io.EOF)`, hiding the real error |
| `Datavec.PathVec.constructor` | datavec.go:15-19 | a pathVec starts with its path and metadata and a nil file |
| `Datavec.PathVec.Open` | datavec.go:73-81 | the file field becomes the new handle and the error is nil, or on failure the field becomes nil and the filesystem error is returned; any earlier handle is dropped |
| `Datavec.PathVec.Close` | datavec.go:84-86 | an open file becomes closed; closing a nil or an already closed file changes nothing, because its error is ignored |
| `Datavec.PathVec.ReadAt` | datavec.go:89-98 | the file's bytes land at the front of `b` and the rest of `b` is unchanged; the result is `PathResult` of the file's `(n, err)`; an unopened, failed or closed pathVec answers `(0, io.EOF)` |
| `OsFile.Underlying` | datavec.go:90 | `(*os.File).ReadAt` on a nil or closed file yields no bytes and never `io.EOF`. A nil file always gives `os.ErrInvalid`. A closed file gives `(0, nil)` exactly for an empty buffer at a non-negative offset, the negative-offset error for `off < 0`, and `os.ErrClosed` otherwise. On an open file it yields the supplied outcome |
| `OsFile.ReadAtContent` | datavec.go:90 | io.ReaderAt on a file's content, as `(*os.File).ReadAt` fills it: at a valid offset exactly `min(len(b), len(content) - off)` bytes; `nil` only for a full buffer; `io.EOF` exactly for a short read at a valid offset; the bytes are the content from `off` on |
| `Datavec.GetSize` | datavec.go:35-37 | `len(Data)` for memVec, the metadata size for pathVec (line 69; the metadata must be present), `Size` for padVec (line 102); it reads no mutable state, so no `Open`, `Close` or `ReadAt` can change it |
| `Datavec.Open` | datavec.go:40-42 | memVec and padVec `Open` succeed and change nothing (also line 107); pathVec `Open` behaves as `PathVec.Open` |
| `Datavec.Close` | datavec.go:45-46 | memVec and padVec `Close` change nothing (also line 111); pathVec `Close` behaves as `PathVec.Close` |
| `Datavec.ReadAt` | datavec.go:27-32 | interface dispatch. Each variant returns its own result. memVec and pathVec fill only `b[0..n]`. padVec leaves the whole buffer untouched (line 125 rebinds its local `b`). The vector is never changed |
| `Datavec.SizeSurvivesLifecycle` | datavec.go:27-32 | for every variant, `GetSize` gives the same value before and after a sequence of `Open`, `ReadAt` and `Close` |
| `Datavec.NoCountWithEof` | datavec.go:61-64 | no variant returns a positive count together with `io.EOF` (also lines 91-96, 122-126) |
| `Datavec.ReadAtSizeIsEof` | datavec.go:56-64 | a memVec or padVec (of any size, negative included) read at `off == GetSize()` returns `(0, io.EOF)` for any buffer length |
| `Corrected.PathAtEndIsNotEof` | datavec.go:91-96 | at the end of a file, `(*os.File).ReadAt` reports `(0, io.EOF)`, and pathVec turns that into `(0, nil)` |
| `Corrected.PathResultFixed` | datavec.go:91-97 | with the zero-count test first: `io.EOF` exactly when `n == 0`; `nil` exactly for a positive count with `io.EOF` or `nil` underneath; other errors pass through |
| `Corrected.PathDrainReconstructs` | datavec.go:89-98 | with the correction, reading a pathVec to `io.EOF` from `off` yields exactly the file content from `off` on |
| `Corrected.PadReadKeepsStaleBytes` | datavec.go:125-126 | a 4-byte buffer of 7s read at offset 0 of 10 bytes of padding reports `(4, nil)` and still holds 7s, not zeros |
| `Corrected.PadReadFixed` | datavec.go:115-127 | corrected padVec result: `io.EOF` exactly at or past the end or for an empty buffer, and then always with count 0; otherwise `min(len(b), Size - off)` with `nil` |
| `Corrected.PadReadAtFixed` | datavec.go:115-127 | the corrected read writes `n` zero bytes to the front of `b` and leaves the rest unchanged |
| `Corrected.PadDrainZeros` | datavec.go:115-127 | with the correction, reading a padVec to `io.EOF` from `off` yields exactly `Size - off` zero bytes |

## Findings

| source | as written | input that shows it | evidently intended | confidence | as-written member | corrected member |
|---|---|---|---|---|---|---|
| datavec.go:91-96 | the `err == io.EOF` test comes before the `n == 0` test, so a read at the end of the file returns `(0, nil)` | any file, `len(b) > 0`, `off == file size`: the file returns `(0, io.EOF)` and pathVec returns `(0, nil)`, so a reader that loops until `io.EOF` never stops | test `n == 0` first: a zero count is `io.EOF`, and an `io.EOF` that came with bytes is success | high, not executed | `Corrected.PathAtEndIsNotEof` | `Corrected.PathResultFixed` |
| datavec.go:125 | `b = make([]byte, n)` rebinds the local parameter, so no zero is written into the caller's buffer although `n` is returned | padding of size 10, a 4-byte buffer holding 7s, `off = 0`: returns `(4, nil)` and the buffer still holds 7s | write `n` zero bytes into `b[0..n]` | high, not executed | `Corrected.PadReadKeepsStaleBytes` | `Corrected.PadReadAtFixed` |

The `Datavec` module keeps modelling the code as written. The corrected definitions are the ones the round-trip lemmas `Corrected.PathDrainReconstructs` and `Corrected.PadDrainZeros` are stated over.

## Left out

- Operating-system calls are not modelled. `os.Open`, `(*os.File).ReadAt`, `(*os.File).Close` and `os.FileInfo.Size()` are foreign library calls. Their outcomes are inputs: an `OpenOutcome`, an `OsRead`, and the metadata size given to the constructor.
- Filesystem errors are not modelled by kind (not found, permission denied). Each is an opaque `FsError(code)`.
- `(*os.File).ReadAt` may use the whole buffer as scratch space. The model assumes it writes only the bytes it returns.
- The `Good` field of `memVec` is left out: no behaviour reads it.
- Slice aliasing is not modelled. `Data` is an immutable `seq`, so a buffer that overlaps `memVec.Data` cannot be expressed.
- Go's `int` is assumed to be 64 bits wide. On a 32-bit platform `int(p.Size - off)` would also truncate.
- Go interface dispatch is modelled as a `match` on the datatype.
- `Datavec.MemDrainReconstructs`: requires `2 * len(Data)` to fit in int64. Beyond that (more than 4 EiB), `off + len(Data)` wraps negative and the slice expression panics.
- `Datavec.ReadAtSizeIsEof`: states nothing for pathVec, because as written a pathVec read at its size does not return `io.EOF` (Findings). It also needs the same int64 bound as `MemDrainReconstructs` for memVec.
- The padVec case of `Datavec.ReadAt` with `off > Size` and no wrap-around in `Size - off` (for example, for a non-negative `Size`): as written, the code panics instead of returning a negative count, so that case is excluded by the precondition `Readable`.
- There is no round-trip lemma for memVec, padVec and pathVec as written together. It would only hold for memVec, which has one. padVec as written delivers stale buffer contents, and pathVec as written never reaches `io.EOF`. Each is stated over the corrected definition instead.
