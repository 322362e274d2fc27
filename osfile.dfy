/** The slice of package os that datavec.go calls, reduced to what its
    callers can observe: whether a pathVec holds an *os.File and whether that
    file has been closed, what os.Open reports, and what (*os.File).ReadAt
    delivers. The operating system itself is not modelled: each outcome is a
    value the caller of the model supplies. */
module OsFile {
  import opened GoRuntime

  /** The `file *os.File` field of a pathVec: nil, an open file, or a file
      that Close has released (Go keeps the pointer after closing it). */
  datatype FileState = NoFile | Opened(handle: nat) | Closed(handle: nat)

  /** What os.Open(path) reports: a new handle, or a filesystem error and a
      nil file. */
  datatype OpenOutcome = OpenOk(handle: nat) | OpenFailed(code: nat)

  /** What one (*os.File).ReadAt call delivers: the bytes it wrote to the
      front of the caller's buffer (their count is the returned n) and the
      error it returned. */
  datatype OsRead = OsRead(data: seq<byte>, err: Error)

  /** (*os.File).ReadAt on a nil file fails at once with os.ErrInvalid. A
      closed file passes that check and the negative-offset check, and only
      fails inside the read loop with os.ErrClosed, so a negative offset still
      gives the negative-offset error and an empty buffer, which skips the
      loop, gives (0, nil). None of them delivers a byte. On an open file the
      outcome is the one the operating system supplied. */
  function Underlying(file: FileState, blen: Len, off: Int64, supplied: OsRead): (u: OsRead)
    ensures !file.Opened? ==> u.data == [] && u.err != EOF
    ensures file.NoFile? ==> u.err == ErrInvalid
    ensures file.Closed? ==> (u.err == Nil <==> 0 <= off && blen == 0)
    ensures file.Closed? && 0 <= off && 0 < blen ==> u.err == ErrClosed
    ensures file.Closed? && off < 0 ==> u.err == NegativeOffset
    ensures file.Opened? ==> u == supplied
  {
    match file
    case NoFile => OsRead([], ErrInvalid)
    case Closed(_) =>
      if off < 0 then OsRead([], NegativeOffset)
      else if blen == 0 then OsRead([], Nil)
      else OsRead([], ErrClosed)
    case Opened(_) => supplied
  }

  /** (*os.File).ReadAt on an open file whose content is `content`, as the
      io.ReaderAt contract describes it: a negative offset is an error, an
      empty buffer reads nothing and succeeds, otherwise it fills as much of
      the buffer as the file holds from `off` on and reports io.EOF exactly
      when the buffer could not be filled. */
  function ReadAtContent(content: seq<byte>, blen: Len, off: Int64): (u: OsRead)
    ensures |u.data| <= blen
    ensures off < 0 ==> u == OsRead([], NegativeOffset)
    ensures |content| < off && 0 < blen ==> u == OsRead([], EOF)
    ensures u.err == Nil ==> |u.data| == blen
    ensures u.err == EOF <==> 0 <= off && 0 < blen && |u.data| < blen
    ensures 0 <= off <= |content| ==> |u.data| == Min(blen, |content| - off)
    ensures 0 <= off <= |content| ==> u.data == content[off..off + |u.data|]
    ensures 0 <= off <= |content| && 0 < blen ==> (u.data == [] <==> off == |content|)
  {
    if off < 0 then OsRead([], NegativeOffset)
    else if blen == 0 then OsRead([], Nil)
    else if off >= |content| then OsRead([], EOF)
    else
      var k := Min(blen, |content| - off);
      OsRead(content[off..off + k], if k < blen then EOF else Nil)
  }
}
