/** Fixed-width unsigned integers and their big-endian byte encodings, the
    representation every numeric field of an ISOBMFF box uses on the wire. */
module Bytes {
  type byte = x: int | 0 <= x < 0x100
  type uint16 = x: int | 0 <= x < 0x1_0000
  type uint24 = x: int | 0 <= x < 0x100_0000
  type uint32 = x: int | 0 <= x < 0x1_0000_0000

  /** Two bytes, most significant first. */
  function BE16(v: uint16): (b: seq<byte>)
    ensures |b| == 2
  {
    [v / 0x100, v % 0x100]
  }

  function FromBE16(b: seq<byte>): uint16
    requires |b| == 2
  {
    b[0] as int * 0x100 + b[1]
  }

  /** Three bytes, most significant first (the 24-bit flags of a full box). */
  function BE24(v: uint24): (b: seq<byte>)
    ensures |b| == 3
  {
    [v / 0x1_0000] + BE16(v % 0x1_0000)
  }

  function FromBE24(b: seq<byte>): uint24
    requires |b| == 3
  {
    b[0] as int * 0x1_0000 + FromBE16(b[1..])
  }

  /** Four bytes, most significant first (box sizes). */
  function BE32(v: uint32): (b: seq<byte>)
    ensures |b| == 4
  {
    BE16(v / 0x1_0000) + BE16(v % 0x1_0000)
  }

  function FromBE32(b: seq<byte>): uint32
    requires |b| == 4
  {
    FromBE16(b[..2]) as int * 0x1_0000 + FromBE16(b[2..])
  }

  lemma BE16Inverse(v: uint16)
    ensures FromBE16(BE16(v)) == v
  {
  }

  /** Every two bytes are the encoding of the value they denote. */
  lemma FromBE16Inverse(b: seq<byte>)
    requires |b| == 2
    ensures BE16(FromBE16(b)) == b
  {
  }

  lemma BE24Inverse(v: uint24)
    ensures FromBE24(BE24(v)) == v
  {
    var b := BE24(v);
    assert b[1..] == BE16(v % 0x1_0000);
    BE16Inverse(v % 0x1_0000);
  }

  lemma FromBE24Inverse(b: seq<byte>)
    requires |b| == 3
    ensures BE24(FromBE24(b)) == b
  {
    var v := FromBE24(b);
    FromBE16Inverse(b[1..]);
    assert v / 0x1_0000 == b[0] && v % 0x1_0000 == FromBE16(b[1..]);
    assert b == [b[0]] + b[1..];
  }

  /** Decoding an encoded 32-bit value gives the value back. */
  lemma BE32Inverse(v: uint32)
    ensures FromBE32(BE32(v)) == v
  {
    var b := BE32(v);
    assert b[..2] == BE16(v / 0x1_0000) && b[2..] == BE16(v % 0x1_0000);
    BE16Inverse(v / 0x1_0000);
    BE16Inverse(v % 0x1_0000);
  }

  /** Every four bytes are the encoding of the value they denote. */
  lemma FromBE32Inverse(b: seq<byte>)
    requires |b| == 4
    ensures BE32(FromBE32(b)) == b
  {
    var v := FromBE32(b);
    FromBE16Inverse(b[..2]);
    FromBE16Inverse(b[2..]);
    assert v / 0x1_0000 == FromBE16(b[..2]) && v % 0x1_0000 == FromBE16(b[2..]);
    assert b == b[..2] + b[2..];
  }

  /** A window into a window is a window into the whole buffer. */
  lemma SliceOfSlice<T>(data: seq<T>, pos: nat, e: seq<T>, a: nat, b: nat)
    requires pos + |e| <= |data| && data[pos..pos + |e|] == e
    requires a <= b <= |e|
    ensures data[pos + a..pos + b] == e[a..b]
  {
    forall k | 0 <= k < b - a
      ensures data[pos + a..pos + b][k] == e[a..b][k]
    {
      assert data[pos + a + k] == data[pos..pos + |e|][a + k];
    }
  }

  /** Overwriting the four bytes after a prefix replaces exactly those bytes. */
  lemma PatchAfter<T>(a: seq<T>, x: seq<T>, y: seq<T>, t: seq<T>)
    requires |x| == 4 && |y| == 4
    ensures (a + x + t)[..|a|] + y + (a + x + t)[|a| + 4..] == a + y + t
  {
    assert (a + x + t)[..|a|] == a;
    assert (a + x + t)[|a| + 4..] == t;
  }

  /** Consecutive windows of a buffer concatenate to the window spanning both. */
  lemma SliceJoin<T>(data: seq<T>, i: nat, j: nat, k: nat)
    requires i <= j <= k <= |data|
    ensures data[i..k] == data[i..j] + data[j..k]
  {
  }
}
