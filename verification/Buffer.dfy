/** What the server relies on in `bre::Buffer`, whose code is not part of this model. */
module BreBuffer {
  import opened Bytes

  class Buffer {
    // The bytes between the read index and the write index.
    var readable: bytes

    constructor ()
      ensures readable == ""
    {
      readable := "";
    }

    method Append(data: bytes)
      modifies this
      ensures readable == old(readable) + data
    {
      readable := readable + data;
    }

    /** `RetrieveUntil`: drop everything before the given offset from `Peek()`. */
    method RetrieveUntil(end: nat)
      requires end <= |readable|
      modifies this
      ensures readable == old(readable)[end..]
    {
      readable := readable[end..];
    }

    method RetrieveAsString(len: nat) returns (s: bytes)
      requires len <= |readable|
      modifies this
      ensures s == old(readable)[..len] && readable == old(readable)[len..]
    {
      s := readable[..len];
      readable := readable[len..];
    }

    method RetrieveAll()
      modifies this
      ensures readable == ""
    {
      readable := "";
    }
  }
}
