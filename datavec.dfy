/** A Datavec is one contiguous, offset-addressable range of bytes backed by
    memory (memVec), by a file on disk (pathVec) or by implicit zero padding
    (padVec). Each answers GetSize, Open, Close and ReadAt(b, off). This module
    models datavec.go as written, including its panics (as preconditions), its
    int64 wrap-around and the places where it departs from the usual
    io.ReaderAt conventions. */
module Datavec {
  import opened GoRuntime
  import opened OsFile

  // ---------------------------------------------------------------- memVec

  /** The `end` index that memVec.ReadAt computes before slicing, with the
      int64 wrap-around of every subtraction and addition. */
  function MemEnd(size: Len, blen: Len, off: Int64): Int64
  {
    var end := if Wrap64(size - off) > blen then Wrap64(off + blen) else Wrap64(off + size);
    if end > size then size else end
  }

  /** The slice expression `m.Data[off:end]` does not panic. `end` never
      exceeds the length, so what remains is `0 <= off <= end`. */
  predicate MemInRange(size: Len, blen: Len, off: Int64)
  {
    0 <= off <= MemEnd(size, blen, off)
  }

  /** memVec.ReadAt does not panic exactly when the offset lies within the
      data, as long as `off + len(Data)` does not overflow int64 (it would
      take more than 4 EiB of data to reach that). */
  lemma MemInRangeIff(size: Len, blen: Len, off: Int64)
    requires off + size <= MaxInt64
    ensures MemInRange(size, blen, off) <==> 0 <= off <= size
  {
  }

  /** What memVec.ReadAt returns. The count is the number of bytes left in the
      data or the buffer length, whichever is smaller; io.EOF is returned
      exactly when that is zero, which happens at the end of the data or for
      an empty buffer; no other error is ever returned. */
  function MemRead(data: seq<byte>, blen: Len, off: Int64): (r: ReadResult)
    requires |data| <= MaxInt64
    requires MemInRange(|data|, blen, off)
    ensures 0 <= off <= |data|
    ensures r.n == Min(blen, |data| - off)
    ensures r.err == EOF <==> off == |data| || blen == 0
    ensures r.err != EOF ==> r.err == Nil
  {
    var n := Min(blen, MemEnd(|data|, blen, off) - off);
    if n == 0 then ReadResult(n, EOF) else ReadResult(n, Nil)
  }

  /** memVec.ReadAt: copies `Data[off:off+n]` to the front of the caller's
      buffer and leaves the rest of the buffer as it was. */
  method MemReadAt(data: seq<byte>, b: array<byte>, off: Int64) returns (r: ReadResult)
    requires |data| <= MaxInt64 && b.Length <= MaxInt64
    requires MemInRange(|data|, b.Length, off)
    modifies b
    ensures r == MemRead(data, b.Length, off)
    ensures 0 <= r.n && off + r.n <= |data|
    ensures b[..r.n] == data[off..off + r.n]
    ensures b[r.n..] == old(b[r.n..])
  {
    var size: Int64 := |data|;
    var end: Int64;
    if Wrap64(size - off) > b.Length {
      end := Wrap64(off + b.Length);
    } else {
      end := Wrap64(off + size);
    }
    if end > size {
      end := size;
    }
    var n := Copy(b, data[off..end]);
    if n == 0 {
      return ReadResult(n, EOF);
    }
    return ReadResult(n, Nil);
  }

  /** The bytes a caller collects by reading a memVec from `off` with a
      buffer of `blen` bytes, advancing by each returned count, until io.EOF. */
  function MemDrain(data: seq<byte>, blen: Len, off: Int64): seq<byte>
    requires 2 * |data| <= MaxInt64 && 0 < blen && 0 <= off <= |data|
    decreases |data| - off
  {
    MemInRangeIff(|data|, blen, off);
    var r := MemRead(data, blen, off);
    if r.err == EOF then [] else data[off..off + r.n] + MemDrain(data, blen, off + r.n)
  }

  /** Reading a memVec to io.EOF from offset 0 yields exactly its data: no
      byte is skipped, none is repeated. */
  lemma {:induction false} MemDrainReconstructs(data: seq<byte>, blen: Len, off: Int64)
    requires 2 * |data| <= MaxInt64 && 0 < blen && 0 <= off <= |data|
    ensures MemDrain(data, blen, off) == data[off..]
    decreases |data| - off
  {
    MemInRangeIff(|data|, blen, off);
    var r := MemRead(data, blen, off);
    if r.err != EOF {
      MemDrainReconstructs(data, blen, off + r.n);
      assert data[off..] == data[off..off + r.n] + data[off + r.n..];
    }
  }

  // ---------------------------------------------------------------- padVec

  /** The count padVec.ReadAt computes: `int(p.Size - off)` (wrapping in
      int64), lowered to the buffer length. */
  function PadCount(size: Int64, blen: Len, off: Int64): Int64
  {
    Min(Wrap64(size - off), blen)
  }

  /** padVec.ReadAt does not panic: a non-zero count reaches
      `make([]byte, n)`, which panics at run time when n is negative. */
  predicate PadInRange(size: Int64, blen: Len, off: Int64)
  {
    PadCount(size, blen, off) >= 0
  }

  /** For a padding size and an offset that are not negative, padVec.ReadAt
      does not panic exactly when the offset is at most the size. */
  lemma PadInRangeIff(size: Int64, blen: Len, off: Int64)
    requires 0 <= size && 0 <= off
    ensures PadInRange(size, blen, off) <==> off <= size
  {
  }

  /** What padVec.ReadAt returns: whenever `Size - off` does not overflow,
      the count is that difference or the buffer length, whichever is smaller;
      io.EOF exactly when the count is zero; no other error. */
  function PadRead(size: Int64, blen: Len, off: Int64): (r: ReadResult)
    requires PadInRange(size, blen, off)
    ensures 0 <= r.n <= blen
    ensures MinInt64 <= size - off <= MaxInt64 ==> r.n == Min(blen, size - off)
    ensures r.err == EOF <==> r.n == 0
    ensures r.err != EOF ==> r.err == Nil
  {
    var n := PadCount(size, blen, off);
    if n == 0 then ReadResult(0, EOF) else ReadResult(n, Nil)
  }

  /** Within the padding, padVec.ReadAt signals io.EOF exactly at the end of
      the padding or for an empty buffer. */
  lemma PadEofIff(size: Int64, blen: Len, off: Int64)
    requires 0 <= off <= size
    ensures PadInRange(size, blen, off)
    ensures PadRead(size, blen, off).err == EOF <==> off == size || blen == 0
  {
  }

  // ---------------------------------------------------------------- pathVec

  /** How pathVec.ReadAt turns the (n, err) of (*os.File).ReadAt into its own
      result: the count always passes through; an underlying io.EOF becomes
      nil, even with a zero count; otherwise a zero count becomes io.EOF,
      whatever error the file reported; any other error passes through. */
  function PathResult(u: ReadResult): (r: ReadResult)
    ensures r.n == u.n
    ensures r.err == EOF <==> u.n == 0 && u.err != EOF
    ensures r.err == Nil <==> u.err == EOF || (u.err == Nil && u.n != 0)
    ensures r.err != Nil && r.err != EOF ==> r.err == u.err && u.n != 0
  {
    if u.err == EOF then ReadResult(u.n, Nil)
    else if u.n == 0 then ReadResult(u.n, EOF)
    else u
  }

  /** pathVec reads an underlying io.EOF as success, also when no byte was
      read. */
  lemma PathEofAbsorbed(n: int)
    ensures PathResult(ReadResult(n, EOF)) == ReadResult(n, Nil)
  {
  }

  /** pathVec hides a real filesystem error behind io.EOF when no byte was
      read. */
  lemma PathErrorHidden(e: Error)
    requires e != EOF
    ensures PathResult(ReadResult(0, e)) == ReadResult(0, EOF)
  {
  }

  /** A pathVec: its path, the file metadata supplied by whoever built it
      (nil when none was), and the file handle Open assigns. Its Open, Close
      and ReadAt have pointer receivers, so Open and Close change it in place. */
  class PathVec {
    const path: string
    const info: Option<Int64>
    var file: FileState

    constructor (path: string, info: Option<Int64>)
      ensures this.path == path && this.info == info && file == NoFile
    {
      this.path := path;
      this.info := info;
      file := NoFile;
    }

    /** pathVec.Open: assigns the outcome of os.Open to the file field, a
        nil file when the open failed, and returns the error. Whatever was
        open before is dropped without being closed. */
    method Open(outcome: OpenOutcome) returns (err: Error)
      modifies this`file
      ensures outcome.OpenOk? ==> file == Opened(outcome.handle) && err == Nil
      ensures outcome.OpenFailed? ==> file == NoFile && err == FsError(outcome.code)
    {
      match outcome
      case OpenOk(h) =>
        file := Opened(h);
        err := Nil;
      case OpenFailed(code) =>
        file := NoFile;
        err := FsError(code);
    }

    /** pathVec.Close: closes the file and ignores the error. Closing a nil
        or an already closed file only returns an error, which is dropped, so
        nothing changes then. */
    method Close()
      modifies this`file
      ensures old(file).Opened? ==> file == Closed(old(file).handle)
      ensures !old(file).Opened? ==> file == old(file)
    {
      if file.Opened? {
        file := Closed(file.handle);
      }
    }

    /** pathVec.ReadAt: (*os.File).ReadAt writes its bytes to the front of
        the caller's buffer, then PathResult translates its (n, err). A
        pathVec that was never opened, whose Open failed, or that was closed
        answers (0, io.EOF). */
    method ReadAt(b: array<byte>, off: Int64, supplied: OsRead) returns (r: ReadResult)
      requires |supplied.data| <= b.Length <= MaxInt64
      modifies b
      ensures r == PathResult(ReadResult(|Underlying(file, b.Length, off, supplied).data|, Underlying(file, b.Length, off, supplied).err))
      ensures !file.Opened? ==> r == ReadResult(0, EOF)
      ensures b[..r.n] == Underlying(file, b.Length, off, supplied).data
      ensures b[r.n..] == old(b[r.n..])
    {
      var u := Underlying(file, b.Length, off, supplied);
      var n := Copy(b, u.data);
      r := PathResult(ReadResult(n, u.err));
    }
  }

  // ---------------------------------------------------------------- Datavec

  /** The Datavec interface: one variant per implementation. memVec and
      padVec are values (value receivers); pathVec is held by pointer. */
  datatype Datavec = Mem(data: seq<byte>) | Path(p: PathVec) | Pad(size: Int64)

  /** GetSize: the data length, the metadata size, or the padding size. A
      pathVec without metadata would dereference a nil interface, so the
      metadata must be present. GetSize reads no mutable state, so no Open,
      Close or ReadAt can change it. */
  function GetSize(v: Datavec): (r: Int64)
    requires v.Mem? ==> |v.data| <= MaxInt64
    requires v.Path? ==> v.p.info.Some?
    ensures v.Mem? ==> r == |v.data|
    ensures v.Pad? ==> r == v.size
    ensures v.Path? ==> r == v.p.info.value
  {
    match v
    case Mem(data) => |data|
    case Path(p) => p.info.value
    case Pad(size) => size
  }

  /** The frame a Datavec's Open and Close may change. */
  function Footprint(v: Datavec): set<object>
  {
    if v.Path? then {v.p} else {}
  }

  /** Open: a no-op that succeeds for memVec and padVec; os.Open for pathVec. */
  method Open(v: Datavec, outcome: OpenOutcome) returns (err: Error)
    modifies Footprint(v)
    ensures !v.Path? ==> err == Nil
    ensures v.Path? && outcome.OpenOk? ==> v.p.file == Opened(outcome.handle) && err == Nil
    ensures v.Path? && outcome.OpenFailed? ==> v.p.file == NoFile && err == FsError(outcome.code)
  {
    match v
    case Mem(_) => err := Nil;
    case Pad(_) => err := Nil;
    case Path(p) => err := p.Open(outcome);
  }

  /** Close: a no-op for memVec and padVec; releases the file of a pathVec. */
  method Close(v: Datavec)
    modifies Footprint(v)
    ensures v.Path? && old(v.p.file).Opened? ==> v.p.file == Closed(old(v.p.file).handle)
    ensures v.Path? && !old(v.p.file).Opened? ==> v.p.file == old(v.p.file)
  {
    if v.Path? {
      v.p.Close();
    }
  }

  /** ReadAt does not panic: the memVec slice is in range, the padVec count
      is not negative, and the bytes the operating system delivers for a
      pathVec fit the buffer. */
  predicate Readable(v: Datavec, blen: Len, off: Int64, supplied: OsRead)
  {
    match v
    case Mem(data) => |data| <= MaxInt64 && MemInRange(|data|, blen, off)
    case Pad(size) => PadInRange(size, blen, off)
    case Path(_) => |supplied.data| <= blen
  }

  /** The (n, err) a ReadAt call returns, for every variant. */
  function ReadOutcome(v: Datavec, blen: Len, off: Int64, supplied: OsRead): (r: ReadResult)
    requires Readable(v, blen, off, supplied)
    reads Footprint(v)
  {
    match v
    case Mem(data) => MemRead(data, blen, off)
    case Pad(size) => PadRead(size, blen, off)
    case Path(p) =>
      var u := Underlying(p.file, blen, off, supplied);
      PathResult(ReadResult(|u.data|, u.err))
  }

  /** GetSize is the same before and after a whole Open, ReadAt, Close
      sequence, for every variant. */
  method SizeSurvivesLifecycle(v: Datavec, outcome: OpenOutcome, b: array<byte>, off: Int64, supplied: OsRead)
    returns (before: Int64, after: Int64)
    requires b.Length <= MaxInt64 && Readable(v, b.Length, off, supplied)
    requires v.Path? ==> v.p.info.Some?
    modifies Footprint(v), b
    ensures before == after == GetSize(v)
  {
    before := GetSize(v);
    var err := Open(v, outcome);
    var r := ReadAt(v, b, off, supplied);
    Close(v);
    after := GetSize(v);
  }

  /** No variant ever returns a positive count together with io.EOF. */
  lemma NoCountWithEof(v: Datavec, blen: Len, off: Int64, supplied: OsRead)
    requires Readable(v, blen, off, supplied)
    ensures ReadOutcome(v, blen, off, supplied).err == EOF ==> ReadOutcome(v, blen, off, supplied).n == 0
  {
  }

  /** A memVec or padVec read at offset GetSize returns (0, io.EOF) whatever
      the buffer length. For a memVec this needs `2 * len(Data)` to fit in
      int64: beyond that `off + len(Data)` wraps negative and the slice
      expression panics. */
  lemma ReadAtSizeIsEof(v: Datavec, blen: Len, supplied: OsRead)
    requires !v.Path?
    requires v.Mem? ==> 2 * |v.data| <= MaxInt64
    ensures Readable(v, blen, GetSize(v), supplied)
    ensures ReadOutcome(v, blen, GetSize(v), supplied) == ReadResult(0, EOF)
  {
    if v.Mem? {
      MemInRangeIff(|v.data|, blen, |v.data|);
    }
  }

  /** ReadAt on any Datavec. memVec copies its bytes into the buffer; padVec
      computes a count but never touches the buffer (the slice it allocates
      is bound to its own parameter only); pathVec lets the file fill the
      buffer. The Datavec itself, and so its size, is never changed. */
  method ReadAt(v: Datavec, b: array<byte>, off: Int64, supplied: OsRead) returns (r: ReadResult)
    requires b.Length <= MaxInt64
    requires Readable(v, b.Length, off, supplied)
    modifies b
    ensures r == ReadOutcome(v, b.Length, off, supplied)
    ensures v.Mem? ==> 0 <= r.n && off + r.n <= |v.data| && b[..r.n] == v.data[off..off + r.n]
    ensures v.Path? ==> b[..r.n] == Underlying(v.p.file, b.Length, off, supplied).data
    ensures !v.Pad? ==> 0 <= r.n <= b.Length && b[r.n..] == old(b[r.n..])
    ensures v.Pad? ==> b[..] == old(b[..])
  {
    match v
    case Mem(data) =>
      r := MemReadAt(data, b, off);
    case Pad(size) =>
      r := PadRead(size, b.Length, off);
    case Path(p) =>
      r := p.ReadAt(b, off, supplied);
  }
}
