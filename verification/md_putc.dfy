/** The byte-buffer front end of a message-digest handle: the public part
    of the handle is a write position, a buffer size and the buffer, and
    `Putc` is the interface's single-byte write macro. The digest context
    behind the handle is represented only by the bytes it has been handed
    so far (`absorbed`); the hash computation itself is not modelled. */
module MdPutc {
  import opened Bytes

  datatype MdHandle = MdHandle(absorbed: Bytes, bufpos: int, bufsize: int, buf: Bytes)

  /** The handle's layout promises: the buffer holds `bufsize` bytes (at
      least one) and the write position lies within it or just past it. */
  predicate Valid(h: MdHandle)
  {
    1 <= h.bufsize && |h.buf| == h.bufsize && 0 <= h.bufpos <= h.bufsize
  }

  /** The bytes written through the handle so far, in order: those already
      handed to the digest followed by those still buffered. */
  function Stream(h: MdHandle): Bytes
    requires Valid(h)
  {
    h.absorbed + h.buf[..h.bufpos]
  }

  /** The low eight bits of a C `int`, as `c & 0xff` computes them on a
      two's-complement machine. */
  function LowByte(c: int): (b: byte)
    ensures b as int == c % 256
    ensures 0 <= c < 256 ==> b as int == c
  {
    (c % 256) as byte
  }

  /** The write entry point: any buffered bytes are handed to the digest
      first, then `data`, and the buffer is emptied. */
  function MdWrite(h: MdHandle, data: Bytes): (r: MdHandle)
    requires Valid(h)
    ensures Valid(r) && r.bufpos == 0
    ensures Stream(r) == Stream(h) + data
  {
    MdHandle(h.absorbed + h.buf[..h.bufpos] + data, 0, h.bufsize, h.buf)
  }

  /** The single-byte write: when the buffer is full it is flushed with an
      empty write, then `c & 0xff` is stored at the write position and the
      position advances by one. */
  function Putc(h: MdHandle, c: int): (r: MdHandle)
    requires Valid(h)
    ensures Valid(r)
    // the flush happens exactly when the buffer is full
    ensures h.bufpos == h.bufsize ==> r.absorbed == h.absorbed + h.buf && r.bufpos == 1
    ensures h.bufpos < h.bufsize ==> r.absorbed == h.absorbed && r.bufpos == h.bufpos + 1
    // the byte stored is the low byte of `c`, at the position written
    ensures r.buf[r.bufpos - 1] == LowByte(c)
    // and, seen from the digest, one byte has been appended to the stream
    ensures Stream(r) == Stream(h) + [LowByte(c)]
  {
    var g := if h.bufpos == h.bufsize then MdWrite(h, []) else h;
    MdHandle(g.absorbed, g.bufpos + 1, g.bufsize, g.buf[g.bufpos := LowByte(c)])
  }

  /** Writes a sequence of characters one `Putc` at a time. */
  function PutcAll(h: MdHandle, cs: seq<int>): (r: MdHandle)
    requires Valid(h)
    ensures Valid(r)
    decreases |cs|
  {
    if |cs| == 0 then h else PutcAll(Putc(h, cs[0]), cs[1..])
  }

  /** The low bytes of a sequence of characters, in order. */
  function LowBytes(cs: seq<int>): (bs: Bytes)
    ensures |bs| == |cs|
  {
    if |cs| == 0 then [] else [LowByte(cs[0])] + LowBytes(cs[1..])
  }

  /** Byte-at-a-time writing and one block write hand the digest the same
      stream: however the buffer fills and flushes along the way, the
      bytes reach the digest in order and none is lost or repeated. */
  lemma {:induction false} PutcAllAppendsStream(h: MdHandle, cs: seq<int>)
    requires Valid(h)
    ensures Stream(PutcAll(h, cs)) == Stream(h) + LowBytes(cs)
    ensures Stream(PutcAll(h, cs)) == Stream(MdWrite(h, LowBytes(cs)))
    decreases |cs|
  {
    if |cs| > 0 {
      var h1 := Putc(h, cs[0]);
      PutcAllAppendsStream(h1, cs[1..]);
      assert Stream(h1) == Stream(h) + [LowByte(cs[0])];
    }
  }
}
