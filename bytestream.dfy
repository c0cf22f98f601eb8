/**
 * A binary input file stream (std::ifstream in binary mode) as the image
 * code uses it: seekg to an absolute position and read a block of bytes
 * into an existing buffer. The stream's state is the file's bytes, the
 * read position and the fail bit.
 */
module ByteStream {
  import opened Util
  import opened Bytes

  datatype InStream = InStream(data: seq<Byte>, pos: nat, fail: bool)

  /** A freshly opened stream: at the start, no error. */
  function Open(data: seq<Byte>): (s: InStream)
    ensures s.data == data && s.pos == 0 && !s.fail
  {
    InStream(data, 0, false)
  }

  /**
   * seekg(p): a failed stream ignores it; a negative position sets the fail
   * bit; any other position, even one past the end, becomes the read position.
   */
  function Seek(s: InStream, p: int): (r: InStream)
    ensures r.data == s.data
    ensures r.fail <==> s.fail || p < 0
    ensures r.pos == if s.fail || p < 0 then s.pos else p
  {
    if s.fail then s
    else if p < 0 then s.(fail := true)
    else s.(pos := p)
  }

  /** The bytes from the read position to the end (none when the position is past the end). */
  function Remaining(s: InStream): seq<Byte> {
    if s.pos < |s.data| then s.data[s.pos..] else []
  }

  /** How many bytes can still be read from the position. */
  function Available(s: InStream): nat {
    |Remaining(s)|
  }

  /**
   * read(buf, n): a failed stream reads nothing. Otherwise it stores the next
   * min(n, available) bytes over the front of buf, advances by that much and
   * sets the fail bit when fewer than n bytes were there.
   */
  function Read(s: InStream, buf: seq<Byte>, n: nat): (r: (InStream, seq<Byte>))
    requires n <= |buf|
    ensures r.0.data == s.data
    ensures |r.1| == |buf|
    ensures r.1[n..] == buf[n..]
  {
    if s.fail then (s, buf)
    else
      var k := Min(n, Available(s));
      (s.(pos := s.pos + k, fail := k < n), Remaining(s)[..k] + buf[k..])
  }

  /** A read that fits in the data delivers exactly the next n bytes and keeps the stream good. */
  lemma ReadInside(s: InStream, buf: seq<Byte>, n: nat)
    requires !s.fail && s.pos + n <= |s.data| && n <= |buf|
    ensures Read(s, buf, n).0 == s.(pos := s.pos + n)
    ensures Read(s, buf, n).1[..n] == s.data[s.pos..s.pos + n]
  {
  }

  /** A read that does not fit sets the fail bit, and the bytes past what was there keep their old values. */
  lemma ReadShort(s: InStream, buf: seq<Byte>, n: nat)
    requires !s.fail && Available(s) < n <= |buf|
    ensures Read(s, buf, n).0.fail
    ensures Read(s, buf, n).1[Available(s)..] == buf[Available(s)..]
    ensures Read(s, buf, n).1[..Available(s)] == Remaining(s)
  {
  }

  /** Once the fail bit is set, neither seeking nor reading changes anything. */
  lemma FailIsSticky(s: InStream, buf: seq<Byte>, n: nat, p: int)
    requires s.fail && n <= |buf|
    ensures Seek(s, p) == s
    ensures Read(s, buf, n) == (s, buf)
  {
  }
}
