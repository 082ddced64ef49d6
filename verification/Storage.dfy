/** An open file: contents, a position, and the seek/read/write calls made on it.
    These calls are assumed to succeed, except that a read can hit the end of the file. */
module Storage {
  import opened Wrappers
  import opened Bytes

  /** The contents after `data` is written at `offset`: a gap before it reads as zeros, and an
      empty write changes nothing. */
  function WriteAt(contents: bytes, offset: nat, data: bytes): (r: bytes)
    ensures data != [] ==> |r| == if offset + |data| > |contents| then offset + |data| else |contents|
    ensures data != [] ==> forall j :: 0 <= j < |r| ==>
      r[j] == if offset <= j < offset + |data| then data[j - offset]
              else if j < |contents| then contents[j] else 0
    ensures data == [] ==> r == contents
  {
    if data == [] then contents
    else
      var padded := if |contents| < offset then contents + Zeros(offset - |contents|) else contents;
      padded[..offset] + data + if offset + |data| < |padded| then padded[offset + |data|..] else []
  }

  class File {
    var contents: bytes
    var pos: nat

    /** An existing file opened for reading. */
    constructor Open(contents: bytes)
      ensures this.contents == contents && pos == 0
    {
      this.contents := contents;
      pos := 0;
    }

    /** Created, or truncated if it existed. */
    constructor Create()
      ensures contents == [] && pos == 0
    {
      contents := [];
      pos := 0;
    }

    method Seek(offset: nat)
      modifies this`pos
      ensures pos == offset
    {
      pos := offset;
    }

    /** None at the end of the file. */
    method ReadExact(n: nat) returns (r: Option<bytes>)
      modifies this`pos
      ensures r.Some? <==> old(pos) + n <= |contents| || n == 0
      ensures r.Some? ==> |r.value| == n
      ensures r.Some? && n > 0 ==> r.value == contents[old(pos)..old(pos) + n]
    {
      if n == 0 {
        return Some([]);
      }
      if pos + n > |contents| {
        pos := if pos > |contents| then pos else |contents|;
        return None;
      }
      r := Some(contents[pos..pos + n]);
      pos := pos + n;
    }

    method WriteAll(data: bytes)
      modifies this
      ensures contents == WriteAt(old(contents), old(pos), data)
      ensures pos == old(pos) + |data|
    {
      contents := WriteAt(contents, pos, data);
      pos := pos + |data|;
    }
  }
}
