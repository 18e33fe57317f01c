/** The bitstream cursor that box writers and parsers share: an in-memory byte
    buffer that writes append to, and a read position that reads advance. A
    read never passes a caller-given limit, the end of the enclosing box's bytes. */
module Stream {
  import opened Bytes
  import opened Results

  class BitStream {
    var data: seq<byte>
    var pos: nat

    ghost predicate Valid()
      reads this
    {
      pos <= |data|
    }

    constructor Empty()
      ensures Valid() && data == [] && pos == 0
    {
      data := [];
      pos := 0;
    }

    constructor FromBytes(bytes: seq<byte>)
      ensures Valid() && data == bytes && pos == 0
    {
      data := bytes;
      pos := 0;
    }

    method Write(bytes: seq<byte>)
      requires Valid()
      modifies this`data
      ensures Valid() && data == old(data) + bytes
    {
      data := data + bytes;
    }

    method Write8(v: byte)
      requires Valid()
      modifies this`data
      ensures Valid() && data == old(data) + [v]
    {
      Write([v]);
    }

    method Write16(v: uint16)
      requires Valid()
      modifies this`data
      ensures Valid() && data == old(data) + BE16(v)
    {
      Write(BE16(v));
    }

    method Write24(v: uint24)
      requires Valid()
      modifies this`data
      ensures Valid() && data == old(data) + BE24(v)
    {
      Write(BE24(v));
    }

    method Write32(v: uint32)
      requires Valid()
      modifies this`data
      ensures Valid() && data == old(data) + BE32(v)
    {
      Write(BE32(v));
    }

    /** Overwrites the four bytes at `at` with `v`: the patch-back of a box's size field. */
    method Patch32(at: nat, v: uint32)
      requires Valid() && at + 4 <= |data|
      modifies this`data
      ensures Valid() && data == old(data)[..at] + BE32(v) + old(data)[at + 4..]
    {
      data := data[..at] + BE32(v) + data[at + 4..];
    }

    method Read(n: nat, limit: nat) returns (r: Result<seq<byte>>)
      requires Valid() && pos <= limit <= |data|
      modifies this`pos
      ensures Valid()
      ensures old(pos) + n <= limit ==> r == Ok(data[old(pos)..old(pos) + n]) && pos == old(pos) + n
      ensures limit < old(pos) + n ==> r == Err(Truncated(old(pos))) && pos == old(pos)
    {
      if limit - pos < n {
        r := Err(Truncated(pos));
      } else {
        r := Ok(data[pos..pos + n]);
        pos := pos + n;
      }
    }

    method Read8(limit: nat) returns (r: Result<byte>)
      requires Valid() && pos <= limit <= |data|
      modifies this`pos
      ensures Valid()
      ensures old(pos) + 1 <= limit ==> r == Ok(data[old(pos)]) && pos == old(pos) + 1
      ensures limit < old(pos) + 1 ==> r == Err(Truncated(old(pos))) && pos == old(pos)
    {
      var b := Read(1, limit);
      r := if b.Ok? then Ok(b.value[0]) else Err(b.error);
    }

    method Read16(limit: nat) returns (r: Result<uint16>)
      requires Valid() && pos <= limit <= |data|
      modifies this`pos
      ensures Valid()
      ensures old(pos) + 2 <= limit ==> r == Ok(FromBE16(data[old(pos)..old(pos) + 2])) && pos == old(pos) + 2
      ensures limit < old(pos) + 2 ==> r == Err(Truncated(old(pos))) && pos == old(pos)
    {
      var b := Read(2, limit);
      r := if b.Ok? then Ok(FromBE16(b.value)) else Err(b.error);
    }

    method Read24(limit: nat) returns (r: Result<uint24>)
      requires Valid() && pos <= limit <= |data|
      modifies this`pos
      ensures Valid()
      ensures old(pos) + 3 <= limit ==> r == Ok(FromBE24(data[old(pos)..old(pos) + 3])) && pos == old(pos) + 3
      ensures limit < old(pos) + 3 ==> r == Err(Truncated(old(pos))) && pos == old(pos)
    {
      var b := Read(3, limit);
      r := if b.Ok? then Ok(FromBE24(b.value)) else Err(b.error);
    }

    method Read32(limit: nat) returns (r: Result<uint32>)
      requires Valid() && pos <= limit <= |data|
      modifies this`pos
      ensures Valid()
      ensures old(pos) + 4 <= limit ==> r == Ok(FromBE32(data[old(pos)..old(pos) + 4])) && pos == old(pos) + 4
      ensures limit < old(pos) + 4 ==> r == Err(Truncated(old(pos))) && pos == old(pos)
    {
      var b := Read(4, limit);
      r := if b.Ok? then Ok(FromBE32(b.value)) else Err(b.error);
    }
  }
}
