/** The byte sink and byte source the codec is generic over: StringWriter and
    StringReader of ZSerializer.hpp, which are also the shape of the
    std::ostream / std::istream that ZSerializer.h writes to and reads from
    through its raw Write(os, ptr, n) and Read(is, ptr, n). */
module Streams {
  import opened Bytes

  /** An append-only byte buffer; buf is what String() returns. */
  class StringWriter {
    var buf: seq<byte>

    constructor ()
      ensures buf == []
    {
      buf := [];
    }

    /** Accepts n bytes; a sink never refuses a write. */
    method Write(bytes: seq<byte>)
      modifies this
      ensures buf == old(buf) + bytes
    {
      buf := buf + bytes;
    }
  }

  /** A cursor over the string the reader was built from. */
  class StringReader {
    const data: seq<byte>
    var pos: nat

    ghost predicate Valid()
      reads this
    {
      pos <= |data|
    }

    /** The bytes not yet read. */
    function Remaining(): seq<byte>
      reads this
      requires Valid()
    {
      data[pos..]
    }

    constructor (str: seq<byte>)
      ensures Valid() && data == str && Remaining() == str
    {
      data := str;
      pos := 0;
    }

    /** Asks for n bytes and reports whether exactly n were obtained
        (gcount() == bytes). A short read takes whatever was left, as
        istream::read does, so the cursor then stands at the end. */
    method Read(n: nat) returns (ok: bool, bytes: seq<byte>)
      requires Valid()
      modifies this
      ensures Valid()
      ensures ok <==> n <= |old(Remaining())|
      ensures ok ==> bytes == old(Remaining())[..n] && Remaining() == old(Remaining())[n..]
      ensures !ok ==> bytes == old(Remaining()) && Remaining() == []
    {
      if n <= |data| - pos {
        ok, bytes := true, data[pos..pos + n];
        pos := pos + n;
      } else {
        ok, bytes := false, data[pos..];
        pos := |data|;
      }
    }
  }
}
