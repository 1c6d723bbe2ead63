/**
 * A caller's `bytearray` that a descrambler shortens in place: the header is
 * removed one `pop(0)` at a time, so a buffer shorter than the header is
 * emptied before the pop that fails.
 */
module Buffers {
  import opened Common

  class ByteBuffer {
    var bytes: seq<Byte>

    constructor (b: seq<Byte>)
      ensures bytes == b
    {
      bytes := b;
    }

    /** `pop(0)`: the first byte, removed; an empty buffer raises. */
    method PopFront() returns (r: Result<Byte>)
      modifies this
      ensures old(bytes) == [] ==> r == Err(IndexError) && bytes == []
      ensures old(bytes) != [] ==> r == Ok(old(bytes)[0]) && bytes == old(bytes)[1..]
    {
      if bytes == [] {
        return Err(IndexError);
      }
      r := Ok(bytes[0]);
      bytes := bytes[1..];
    }

    /** `for j in range(0, n): pop(0)`: the first `n` bytes removed, or all of them before the failing pop. */
    method DropHeader(n: nat) returns (ok: bool)
      modifies this
      ensures ok <==> |old(bytes)| >= n
      ensures bytes == if ok then old(bytes)[n..] else []
    {
      var j := 0;
      while j < n
        invariant 0 <= j <= n
        invariant j <= |old(bytes)| && bytes == old(bytes)[j..]
      {
        var r := PopFront();
        if r.Err? {
          return false;
        }
        j := j + 1;
      }
      return true;
    }
  }
}
