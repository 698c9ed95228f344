/** The cursor over the header buffer: Python's `io.BytesIO` as the engine
    uses it (`seek` to an absolute offset, `read(n)`). */
module Streams {
  import opened Bytes

  function Clamp(buf: seq<Byte>, k: nat): (r: nat)
    ensures r <= |buf| && r <= k
    ensures k <= |buf| ==> r == k
  {
    if k < |buf| then k else |buf|
  }

  /** What `read(n)` returns with the cursor at `pos`: `n` bytes when the
      buffer has them, fewer at its end, none past it. A short read is not
      an error. */
  function ReadAt(buf: seq<Byte>, pos: nat, n: nat): (bs: seq<Byte>)
    ensures |bs| <= n
    ensures pos + n <= |buf| ==> bs == buf[pos..pos + n]
    ensures |bs| == n <==> pos + n <= |buf| || n == 0
  {
    buf[Clamp(buf, pos)..Clamp(buf, pos + n)]
  }

  /** Where the cursor is after that read: advanced by the number of bytes
      returned. */
  function PosAfter(buf: seq<Byte>, pos: nat, n: nat): (p: nat)
    ensures p == pos + |ReadAt(buf, pos, n)|
    ensures p <= pos + n
  {
    if pos < |buf| then Clamp(buf, pos + n) else pos
  }

  /** An in-memory binary stream over an immutable buffer. */
  class ByteStream {
    const buf: seq<Byte>
    var pos: nat

    constructor (data: seq<Byte>)
      ensures buf == data && pos == 0
    {
      buf := data;
      pos := 0;
    }

    /** `seek(offset)`: positions past the end are allowed. */
    method Seek(offset: nat)
      modifies this
      ensures pos == offset
    {
      pos := offset;
    }

    /** `read(n)`. */
    method Read(n: nat) returns (bs: seq<Byte>)
      modifies this
      ensures bs == ReadAt(buf, old(pos), n)
      ensures pos == PosAfter(buf, old(pos), n)
    {
      var lo := Clamp(buf, pos);
      var hi := Clamp(buf, pos + n);
      bs := buf[lo..hi];
      if pos < |buf| {
        pos := hi;
      }
    }
  }
}
