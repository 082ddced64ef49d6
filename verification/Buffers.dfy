/** The growable output buffer and the reading cursor that the frame codec works on. */
module Buffers {
  import opened Bytes

  class ByteBuffer {
    var data: bytes

    constructor ()
      ensures data == []
    {
      data := [];
    }

    method Clear()
      modifies this
      ensures data == []
    {
      data := [];
    }

    method PutU8(x: byte)
      modifies this
      ensures data == old(data) + [x]
    {
      data := data + [x];
    }

    method PutU16(x: u16)
      modifies this
      ensures data == old(data) + U16ToBe(x)
    {
      data := data + U16ToBe(x);
    }

    method PutU32(x: u32)
      modifies this
      ensures data == old(data) + U32ToBe(x)
    {
      data := data + U32ToBe(x);
    }

    method PutSlice(s: bytes)
      modifies this
      ensures data == old(data) + s
    {
      data := data + s;
    }
  }

  class Cursor {
    const data: bytes
    var pos: nat

    ghost predicate Valid()
      reads this
    {
      pos <= |data|
    }

    /** What has not been read yet. */
    function Rest(): bytes
      reads this
      requires Valid()
    {
      data[pos..]
    }

    constructor (data: bytes)
      ensures this.data == data && pos == 0
    {
      this.data := data;
      pos := 0;
    }

    method Take(n: nat) returns (s: bytes)
      requires Valid() && n <= |Rest()|
      modifies this
      ensures Valid() && pos == old(pos) + n
      ensures s == old(Rest())[..n] && Rest() == old(Rest())[n..]
    {
      s := data[pos..pos + n];
      pos := pos + n;
    }

    method GetU8() returns (x: byte)
      requires Valid() && 1 <= |Rest()|
      modifies this
      ensures Valid() && pos == old(pos) + 1
      ensures x == old(Rest())[0] && Rest() == old(Rest())[1..]
    {
      var s := Take(1);
      x := s[0];
    }

    method GetU16() returns (x: u16)
      requires Valid() && 2 <= |Rest()|
      modifies this
      ensures Valid() && pos == old(pos) + 2
      ensures x == U16FromBe(old(Rest())[..2]) && Rest() == old(Rest())[2..]
    {
      var s := Take(2);
      x := U16FromBe(s);
    }

    method GetU32() returns (x: u32)
      requires Valid() && 4 <= |Rest()|
      modifies this
      ensures Valid() && pos == old(pos) + 4
      ensures x == U32FromBe(old(Rest())[..4]) && Rest() == old(Rest())[4..]
    {
      var s := Take(4);
      x := U32FromBe(s);
    }
  }
}
