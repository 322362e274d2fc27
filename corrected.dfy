/** Two places where datavec.go does not do what its callers rely on, each
    shown on the code as written (module Datavec) and then corrected, with the
    property the correction restores proved: a caller that reads a Datavec
    from offset 0, advancing by each count until io.EOF, gets exactly the
    vector's content. */
module Corrected {
  import opened GoRuntime
  import opened OsFile
  import opened Datavec

  // ------------------------------------------------ pathVec at end of file

  /** As written, a pathVec read at the end of its file turns the file's
      (0, io.EOF) into (0, nil): the io.EOF test comes before the zero-count
      test. A caller that reads until io.EOF never stops. */
  lemma PathAtEndIsNotEof(content: seq<byte>, blen: Len)
    requires |content| <= MaxInt64 && 0 < blen
    ensures ReadAtContent(content, blen, |content|) == OsRead([], EOF)
    ensures PathResult(ReadResult(0, EOF)) == ReadResult(0, Nil)
  {
  }

  /** pathVec.ReadAt's translation with the zero-count test first: a read that
      delivered nothing is io.EOF, an io.EOF that came with bytes is success,
      and any other error passes through with its count. */
  function PathResultFixed(u: ReadResult): (r: ReadResult)
    ensures r.n == u.n
    ensures r.err == EOF <==> u.n == 0
    ensures r.err == Nil <==> u.n != 0 && (u.err == EOF || u.err == Nil)
    ensures r.err != Nil && r.err != EOF ==> r.err == u.err
  {
    if u.n == 0 then ReadResult(0, EOF)
    else if u.err == EOF then ReadResult(u.n, Nil)
    else u
  }

  /** The bytes a caller collects from an opened pathVec over `content`, with
      the corrected translation. */
  function PathDrain(content: seq<byte>, blen: Len, off: Int64): seq<byte>
    requires |content| <= MaxInt64 && 0 < blen && 0 <= off <= |content|
    decreases |content| - off
  {
    var u := ReadAtContent(content, blen, off);
    var r := PathResultFixed(ReadResult(|u.data|, u.err));
    if r.err == EOF then [] else u.data + PathDrain(content, blen, off + r.n)
  }

  /** With the correction, reading a pathVec to io.EOF yields exactly the
      file's content from the starting offset on. */
  lemma {:induction false} PathDrainReconstructs(content: seq<byte>, blen: Len, off: Int64)
    requires |content| <= MaxInt64 && 0 < blen && 0 <= off <= |content|
    ensures PathDrain(content, blen, off) == content[off..]
    decreases |content| - off
  {
    var u := ReadAtContent(content, blen, off);
    if u.data != [] {
      PathDrainReconstructs(content, blen, off + |u.data|);
      assert content[off..] == u.data + content[off + |u.data|..];
    }
  }

  // ------------------------------------------------ padVec buffer contents

  /** As written, padVec.ReadAt reports bytes read but leaves whatever the
      buffer held: a buffer of 7s read at the start of 10 bytes of padding
      reports 4 bytes and still holds 7s. */
  method PadReadKeepsStaleBytes() returns (r: ReadResult, seen: seq<byte>)
    ensures r == ReadResult(4, Nil)
    ensures seen == [7, 7, 7, 7] && seen != Zeros(4)
  {
    var b := new byte[4](_ => 7);
    r := ReadAt(Pad(10), b, 0, OsRead([], Nil));
    seen := b[..];
    assert seen[0] != Zeros(4)[0];
  }

  function Zeros(n: nat): (z: seq<byte>)
    ensures |z| == n && forall i :: 0 <= i < n ==> z[i] == 0
  {
    seq(n, _ => 0)
  }

  /** padVec.ReadAt as its contract intends: at or past the end of the
      padding (including an offset beyond it, which panics as written) it
      returns (0, io.EOF); otherwise it counts min(len(b), size - off) bytes
      and writes that many zeros. */
  function PadReadFixed(size: Int64, blen: Len, off: Int64): (r: ReadResult)
    requires 0 <= off
    ensures 0 <= r.n <= blen
    ensures off <= size ==> r.n == Min(blen, size - off)
    ensures r.err == EOF <==> off >= size || blen == 0
    ensures r.err == EOF ==> r.n == 0
    ensures r.err != EOF ==> r.err == Nil && r.n > 0
  {
    if off >= size then ReadResult(0, EOF)
    else
      var n := Min(size - off, blen);
      if n == 0 then ReadResult(0, EOF) else ReadResult(n, Nil)
  }

  /** The corrected padVec.ReadAt writes real zero bytes into the front of
      the caller's buffer. */
  method PadReadAtFixed(size: Int64, b: array<byte>, off: Int64) returns (r: ReadResult)
    requires 0 <= off && b.Length <= MaxInt64
    modifies b
    ensures r == PadReadFixed(size, b.Length, off)
    ensures b[..r.n] == Zeros(r.n)
    ensures b[r.n..] == old(b[r.n..])
  {
    if off >= size {
      return ReadResult(0, EOF);
    }
    var n := Min(size - off, b.Length);
    if n == 0 {
      return ReadResult(0, EOF);
    }
    var copied := Copy(b, Zeros(n));
    return ReadResult(copied, Nil);
  }

  /** The bytes a caller collects from a corrected padVec. */
  function PadDrain(size: Int64, blen: Len, off: Int64): seq<byte>
    requires 0 < blen && 0 <= off
    decreases size - off
  {
    var r := PadReadFixed(size, blen, off);
    if r.err == EOF then [] else Zeros(r.n) + PadDrain(size, blen, off + r.n)
  }

  /** With the correction, reading a padVec to io.EOF from `off` yields
      exactly `size - off` zero bytes. */
  lemma {:induction false} PadDrainZeros(size: Int64, blen: Len, off: Int64)
    requires 0 < blen && 0 <= off <= size
    ensures PadDrain(size, blen, off) == Zeros(size - off)
    decreases size - off
  {
    var r := PadReadFixed(size, blen, off);
    if r.err != EOF {
      PadDrainZeros(size, blen, off + r.n);
      assert Zeros(size - off) == Zeros(r.n) + Zeros(size - (off + r.n));
    }
  }
}
