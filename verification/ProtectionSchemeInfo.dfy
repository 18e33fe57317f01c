/** The 'sinf' (Protection Scheme Info) box as the item protection box stores
    it: an opaque box whose content (original format, scheme type, scheme
    information) is kept as raw payload bytes behind a plain box header. */
module ProtectionSchemeInfo {
  import opened Bytes
  import opened Results
  import opened Stream

  /** The four-character code 'sinf'. */
  const SINF: seq<byte> := [0x73, 0x69, 0x6e, 0x66]

  /** A plain box header: 32-bit size, then the four-character code. */
  const HeaderSize: nat := 8

  datatype Sinf = Sinf(payload: seq<byte>)

  /** The size the box declares: header plus payload. */
  function SinfSize(s: Sinf): nat
  {
    HeaderSize + |s.payload|
  }

  /** The box's size fits its 32-bit size field. */
  predicate Fits(s: Sinf)
  {
    SinfSize(s) < 0x1_0000_0000
  }

  function EncodeSinf(s: Sinf): (b: seq<byte>)
    requires Fits(s)
    ensures |b| == SinfSize(s)
  {
    BE32(SinfSize(s)) + SINF + s.payload
  }

  /** Parses one 'sinf' box starting at `pos`, reading nothing at or past `limit`.
      On success gives the entry and the offset just past it. */
  function DecodeSinf(data: seq<byte>, pos: nat, limit: nat): (r: Result<(Sinf, nat)>)
    requires pos <= limit <= |data|
    ensures r.Ok? ==> Fits(r.value.0) && r.value.1 == pos + SinfSize(r.value.0) <= limit
    ensures r.Err? ==> r.error.Truncated? || r.error.BadBoxSize? || r.error.UnexpectedType?
  {
    if limit - pos < HeaderSize then Err(Truncated(pos))
    else
      var size := FromBE32(data[pos..pos + 4]);
      if size < HeaderSize then Err(BadBoxSize(pos))
      else if limit - pos < size then Err(Truncated(pos))
      else if data[pos + 4..pos + 8] != SINF then Err(UnexpectedType(pos, data[pos + 4..pos + 8]))
      else Ok((Sinf(data[pos + HeaderSize..pos + size]), pos + size))
  }

  /** Parsing the bytes that EncodeSinf wrote, wherever they sit in a buffer,
      gives the same entry back and ends right after them. */
  lemma EncodeDecodeSinf(s: Sinf, data: seq<byte>, pos: nat, limit: nat)
    requires Fits(s)
    requires pos + SinfSize(s) <= limit <= |data|
    requires data[pos..pos + SinfSize(s)] == EncodeSinf(s)
    ensures DecodeSinf(data, pos, limit) == Ok((s, pos + SinfSize(s)))
  {
    var e := EncodeSinf(s);
    assert e[..4] == BE32(SinfSize(s)) && e[4..8] == SINF && e[HeaderSize..] == s.payload;
    SliceOfSlice(data, pos, e, 0, 4);
    SliceOfSlice(data, pos, e, 4, 8);
    SliceOfSlice(data, pos, e, HeaderSize, |e|);
    BE32Inverse(SinfSize(s));
  }

  /** Whatever DecodeSinf accepts is exactly the encoding of what it returns:
      writing a parsed entry reproduces its bytes. */
  lemma DecodeSinfInverse(data: seq<byte>, pos: nat, limit: nat)
    requires pos <= limit <= |data|
    ensures DecodeSinf(data, pos, limit).Ok? ==>
      var (s, q) := DecodeSinf(data, pos, limit).value;
      data[pos..q] == EncodeSinf(s)
  {
    var r := DecodeSinf(data, pos, limit);
    if r.Ok? {
      var (s, q) := r.value;
      var e := EncodeSinf(s);
      SliceJoin(data, pos, pos + 4, q);
      SliceJoin(data, pos + 4, pos + 8, q);
      FromBE32Inverse(data[pos..pos + 4]);
      assert data[pos..pos + 4] == BE32(SinfSize(s));
      assert data[pos..q] == BE32(SinfSize(s)) + SINF + s.payload;
    }
  }

  /** ProtectionSchemeInfoBox::writeBox: appends the entry's bytes to the stream. */
  method WriteSinf(bs: BitStream, s: Sinf)
    requires bs.Valid() && Fits(s)
    modifies bs`data
    ensures bs.Valid() && bs.data == old(bs.data) + EncodeSinf(s)
  {
    bs.Write32(SinfSize(s));
    bs.Write(SINF);
    bs.Write(s.payload);
  }

  /** ProtectionSchemeInfoBox::parseBox: reads one entry at the cursor, bounded by `limit`. */
  method ParseSinf(bs: BitStream, limit: nat) returns (r: Result<Sinf>)
    requires bs.Valid() && bs.pos <= limit <= |bs.data|
    modifies bs`pos
    ensures bs.Valid()
    ensures r.Ok? ==> DecodeSinf(bs.data, old(bs.pos), limit) == Ok((r.value, bs.pos))
    ensures r.Err? ==> DecodeSinf(bs.data, old(bs.pos), limit) == Err(r.error)
  {
    var start := bs.pos;
    if limit - start < HeaderSize {
      return Err(Truncated(start));
    }
    var size := bs.Read32(limit);
    if size.value < HeaderSize {
      return Err(BadBoxSize(start));
    }
    if limit - start < size.value {
      return Err(Truncated(start));
    }
    var code := bs.Read(4, limit);
    if code.value != SINF {
      return Err(UnexpectedType(start, code.value));
    }
    var payload := bs.Read(size.value - HeaderSize, limit);
    r := Ok(Sinf(payload.value));
  }
}
