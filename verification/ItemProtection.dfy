/** The Item Protection box ('ipro', section 8.11.5 of ISO/IEC 14496-12):
    a full box (version, flags) holding a 16-bit count followed by exactly
    that many 'sinf' boxes, in order. Items refer to these entries by a
    1-based protection index, 0 meaning "not protected". */
module ItemProtection {
  import opened Bytes
  import opened Results
  import opened Stream
  import opened ProtectionSchemeInfo

  /** The four-character code 'ipro'. */
  const IPRO: seq<byte> := [0x69, 0x70, 0x72, 0x6f]

  /** The largest entry count the 16-bit protection_count field can hold. */
  const MaxCount: nat := 0xFFFF

  /** Full box header: size, code, version, flags. */
  const FullBoxHeaderSize: nat := 12

  /** Where the entries begin: after the header and the 16-bit count. */
  const EntriesOffset: nat := 14

  /** The box's content as values: its full-box fields and its entries in order. */
  datatype Ipro = Ipro(version: byte, flags: uint24, entries: seq<Sinf>)

  /** What the first 14 bytes of the box say: where the box ends (its start plus
      its declared size), its version and flags, and its entry count. */
  datatype Header = Header(end: nat, version: byte, flags: uint24, count: uint16)

  /** What an item's protection index designates. */
  datatype Protection = Unprotected | ProtectedBy(scheme: Sinf)

  /** Total byte length of a run of entries. */
  function EntriesSize(es: seq<Sinf>): nat
  {
    if es == [] then 0 else SinfSize(es[0]) + EntriesSize(es[1..])
  }

  function BoxSize(b: Ipro): nat
  {
    EntriesOffset + EntriesSize(b.entries)
  }

  /** Every entry of the run fits its own 32-bit size field. */
  predicate AllFit(es: seq<Sinf>)
  {
    es == [] || (Fits(es[0]) && AllFit(es[1..]))
  }

  /** A box that can be written: its count fits 16 bits and its size 32 bits. */
  predicate WellFormed(b: Ipro)
  {
    |b.entries| <= MaxCount && AllFit(b.entries) && BoxSize(b) < 0x1_0000_0000
  }

  function EncodeEntries(es: seq<Sinf>): (r: seq<byte>)
    requires AllFit(es)
    ensures |r| == EntriesSize(es)
  {
    if es == [] then [] else EncodeSinf(es[0]) + EncodeEntries(es[1..])
  }

  /** The ten bytes after the size field: code, version, flags and the 16-bit count. */
  function HeaderFields(version: byte, flags: uint24, count: uint16): (r: seq<byte>)
    ensures |r| == EntriesOffset - 4
  {
    IPRO + [version] + BE24(flags) + BE16(count)
  }

  /** ItemProtectionBox::writeBox as bytes: the header carrying the box's exact
      size, the 16-bit count, then every entry in stored order. */
  function EncodeBox(b: Ipro): (r: seq<byte>)
    requires WellFormed(b)
    ensures |r| == BoxSize(b)
  {
    BE32(BoxSize(b)) + HeaderFields(b.version, b.flags, |b.entries|) + EncodeEntries(b.entries)
  }

  /** Prepends decoded entries to a further decoding result. */
  function Prefixed(es: seq<Sinf>, r: Result<(seq<Sinf>, nat)>): Result<(seq<Sinf>, nat)>
  {
    match r
    case Ok((rest, q)) => Ok((es + rest, q))
    case Err(e) => Err(e)
  }

  /** Parses `n` consecutive 'sinf' boxes from `pos`, none reaching past `limit`. */
  function DecodeEntries(data: seq<byte>, pos: nat, limit: nat, n: nat): (r: Result<(seq<Sinf>, nat)>)
    requires pos <= limit <= |data|
    ensures r.Ok? ==> |r.value.0| == n && pos <= r.value.1 <= limit
    decreases n
  {
    if n == 0 then Ok(([], pos))
    else
      match DecodeSinf(data, pos, limit)
      case Err(e) => Err(e)
      case Ok((s, q)) => Prefixed([s], DecodeEntries(data, q, limit, n - 1))
  }

  /** The full-box header and the count of the box at `pos`: its size must cover
      at least those 14 bytes and fit the available data, and its code must be 'ipro'. */
  function DecodeHeader(data: seq<byte>, pos: nat): (r: Result<Header>)
    requires pos <= |data|
    ensures r.Ok? ==> pos + EntriesOffset <= r.value.end <= |data|
    ensures r.Err? ==> r.error.Truncated? || r.error.BadBoxSize? || r.error.UnexpectedType?
  {
    if |data| - pos < 4 then Err(Truncated(pos))
    else
      var size := FromBE32(data[pos..pos + 4]);
      if size < FullBoxHeaderSize then Err(BadBoxSize(pos))
      else if |data| - pos < size then Err(Truncated(pos))
      else if data[pos + 4..pos + 8] != IPRO then Err(UnexpectedType(pos, data[pos + 4..pos + 8]))
      else if size < EntriesOffset then Err(Truncated(pos + FullBoxHeaderSize))
      else Ok(Header(pos + size, data[pos + 8], FromBE24(data[pos + 9..pos + 12]),
                     FromBE16(data[pos + 12..pos + 14])))
  }

  /** ItemProtectionBox::parseBox as bytes: the header, then exactly `count`
      entries, which must end where the declared size says the box ends. */
  function DecodeBox(data: seq<byte>, pos: nat): (r: Result<(Ipro, nat)>)
    requires pos <= |data|
    ensures r.Ok? ==> pos + EntriesOffset <= r.value.1 <= |data|
  {
    match DecodeHeader(data, pos)
    case Err(e) => Err(e)
    case Ok(h) =>
      match DecodeEntries(data, pos + EntriesOffset, h.end, h.count)
      case Err(e) => Err(e)
      case Ok((es, q)) =>
        if q != h.end then Err(SizeMismatch(q)) else Ok((Ipro(h.version, h.flags, es), h.end))
  }

  /** One step of DecodeEntries: a first entry, then the rest from where it ends. */
  lemma DecodeEntriesCons(data: seq<byte>, pos: nat, limit: nat, n: nat, s: Sinf, q: nat)
    requires pos <= limit <= |data| && 0 < n
    requires DecodeSinf(data, pos, limit) == Ok((s, q))
    ensures q <= limit
    ensures DecodeEntries(data, pos, limit, n) == Prefixed([s], DecodeEntries(data, q, limit, n - 1))
  {
  }

  /** Bytes holding an encoded run hold its first entry, then the encoded rest. */
  lemma EncodeEntriesSplit(es: seq<Sinf>, data: seq<byte>, pos: nat)
    requires es != [] && AllFit(es)
    requires pos + EntriesSize(es) <= |data|
    requires data[pos..pos + EntriesSize(es)] == EncodeEntries(es)
    ensures AllFit(es[1..]) && Fits(es[0])
    ensures data[pos..pos + SinfSize(es[0])] == EncodeSinf(es[0])
    ensures data[pos + SinfSize(es[0])..pos + EntriesSize(es)] == EncodeEntries(es[1..])
  {
    var e := EncodeEntries(es);
    var s0 := SinfSize(es[0]);
    SliceOfSlice(data, pos, e, 0, s0);
    SliceOfSlice(data, pos, e, s0, |e|);
    assert e[..s0] == EncodeSinf(es[0]);
    assert e[s0..] == EncodeEntries(es[1..]);
  }

  /** Parsing the bytes EncodeEntries wrote gives the same entries back. */
  lemma {:induction false} EncodeDecodeEntries(es: seq<Sinf>, data: seq<byte>, pos: nat, limit: nat)
    requires AllFit(es)
    requires pos + EntriesSize(es) <= limit <= |data|
    requires data[pos..pos + EntriesSize(es)] == EncodeEntries(es)
    ensures DecodeEntries(data, pos, limit, |es|) == Ok((es, pos + EntriesSize(es)))
  {
    if es == [] {
      assert DecodeEntries(data, pos, limit, 0) == Ok(([], pos));
    } else {
      var q: nat := pos + SinfSize(es[0]);
      EncodeEntriesSplit(es, data, pos);
      EncodeDecodeSinf(es[0], data, pos, limit);
      EncodeDecodeEntries(es[1..], data, q, limit);
      DecodeEntriesCons(data, pos, limit, |es|, es[0], q);
      assert [es[0]] + es[1..] == es;
    }
  }

  /** Whatever DecodeEntries accepts is exactly the encoding of what it returns. */
  lemma {:induction false} DecodeEntriesInverse(data: seq<byte>, pos: nat, limit: nat, n: nat)
    requires pos <= limit <= |data|
    ensures DecodeEntries(data, pos, limit, n).Ok? ==>
      var (es, q) := DecodeEntries(data, pos, limit, n).value;
      AllFit(es) && data[pos..q] == EncodeEntries(es)
    decreases n
  {
    var r := DecodeEntries(data, pos, limit, n);
    if n > 0 && r.Ok? {
      var (s, q1) := DecodeSinf(data, pos, limit).value;
      DecodeSinfInverse(data, pos, limit);
      DecodeEntriesInverse(data, q1, limit, n - 1);
      var (rest, q) := DecodeEntries(data, q1, limit, n - 1).value;
      var es := r.value.0;
      assert es == [s] + rest;
      assert es[0] == s && es[1..] == rest;
      SliceJoin(data, pos, q1, q);
    }
  }

  /** Reading a header back from the bytes that hold its size and fields. */
  lemma EncodeDecodeHeader(h: Header, data: seq<byte>, pos: nat)
    requires pos + EntriesOffset <= h.end <= |data| && h.end - pos < 0x1_0000_0000
    requires data[pos..pos + 4] == BE32(h.end - pos)
    requires data[pos + 4..pos + EntriesOffset] == HeaderFields(h.version, h.flags, h.count)
    ensures DecodeHeader(data, pos) == Ok(h)
  {
    var fields := HeaderFields(h.version, h.flags, h.count);
    SliceOfSlice(data, pos + 4, fields, 0, 4);
    SliceOfSlice(data, pos + 4, fields, 5, 8);
    SliceOfSlice(data, pos + 4, fields, 8, 10);
    assert data[pos + 8] == fields[4];
    assert fields[5..8] == BE24(h.flags);
    assert fields[8..10] == BE16(h.count);
    BE32Inverse(h.end - pos);
    BE24Inverse(h.flags);
    BE16Inverse(h.count);
  }

  /** Whatever DecodeHeader accepts is exactly the encoding of what it returns. */
  lemma DecodeHeaderInverse(data: seq<byte>, pos: nat)
    requires pos <= |data|
    ensures DecodeHeader(data, pos).Ok? ==>
      var h := DecodeHeader(data, pos).value;
      h.end - pos < 0x1_0000_0000 &&
      data[pos..pos + 4] == BE32(h.end - pos) &&
      data[pos + 4..pos + EntriesOffset] == HeaderFields(h.version, h.flags, h.count)
  {
    if DecodeHeader(data, pos).Ok? {
      var h := DecodeHeader(data, pos).value;
      FromBE32Inverse(data[pos..pos + 4]);
      FromBE24Inverse(data[pos + 9..pos + 12]);
      FromBE16Inverse(data[pos + 12..pos + 14]);
      SliceJoin(data, pos + 4, pos + 8, pos + EntriesOffset);
      SliceJoin(data, pos + 8, pos + 9, pos + EntriesOffset);
      SliceJoin(data, pos + 9, pos + 12, pos + EntriesOffset);
      assert data[pos + 8..pos + 9] == [h.version];
    }
  }

  /** The three parts of an encoded box: size, header fields, entries. */
  lemma EncodeBoxSplit(b: Ipro, data: seq<byte>, pos: nat)
    requires WellFormed(b)
    requires pos + BoxSize(b) <= |data|
    requires data[pos..pos + BoxSize(b)] == EncodeBox(b)
    ensures data[pos..pos + 4] == BE32(BoxSize(b))
    ensures data[pos + 4..pos + EntriesOffset] == HeaderFields(b.version, b.flags, |b.entries|)
    ensures data[pos + EntriesOffset..pos + BoxSize(b)] == EncodeEntries(b.entries)
  {
    var e := EncodeBox(b);
    SliceOfSlice(data, pos, e, 0, 4);
    SliceOfSlice(data, pos, e, 4, EntriesOffset);
    SliceOfSlice(data, pos, e, EntriesOffset, |e|);
    assert e[..4] == BE32(BoxSize(b));
    assert e[4..EntriesOffset] == HeaderFields(b.version, b.flags, |b.entries|);
    assert e[EntriesOffset..] == EncodeEntries(b.entries);
  }

  /** DecodeBox succeeds when the header decodes and exactly its count of
      entries ends where the header says the box ends. */
  lemma DecodeBoxOfParts(data: seq<byte>, pos: nat, h: Header, es: seq<Sinf>)
    requires pos <= |data|
    requires DecodeHeader(data, pos) == Ok(h)
    requires DecodeEntries(data, pos + EntriesOffset, h.end, h.count) == Ok((es, h.end))
    ensures DecodeBox(data, pos) == Ok((Ipro(h.version, h.flags, es), h.end))
  {
  }

  /** The round trip from the three encoded parts of a box. */
  lemma EncodeDecodeBoxParts(b: Ipro, data: seq<byte>, pos: nat)
    requires WellFormed(b)
    requires pos + BoxSize(b) <= |data|
    requires data[pos..pos + 4] == BE32(BoxSize(b))
    requires data[pos + 4..pos + EntriesOffset] == HeaderFields(b.version, b.flags, |b.entries|)
    requires data[pos + EntriesOffset..pos + BoxSize(b)] == EncodeEntries(b.entries)
    ensures DecodeBox(data, pos) == Ok((b, pos + BoxSize(b)))
  {
    var end: nat := pos + BoxSize(b);
    var h := Header(end, b.version, b.flags, |b.entries|);
    EncodeDecodeHeader(h, data, pos);
    EncodeDecodeEntries(b.entries, data, pos + EntriesOffset, end);
    DecodeBoxOfParts(data, pos, h, b.entries);
  }

  /** Round trip: parsing a written box restores its version, flags and entry
      sequence, and consumes exactly the box's bytes. */
  lemma EncodeDecodeBox(b: Ipro, data: seq<byte>, pos: nat)
    requires WellFormed(b)
    requires pos + BoxSize(b) <= |data|
    requires data[pos..pos + BoxSize(b)] == EncodeBox(b)
    ensures DecodeBox(data, pos) == Ok((b, pos + BoxSize(b)))
  {
    EncodeBoxSplit(b, data, pos);
    EncodeDecodeBoxParts(b, data, pos);
  }

  /** Converse round trip: a box that parses is well formed, and writing what
      was parsed reproduces exactly the bytes that were read. */
  lemma DecodeBoxInverse(data: seq<byte>, pos: nat)
    requires pos <= |data|
    ensures DecodeBox(data, pos).Ok? ==>
      var (b, end) := DecodeBox(data, pos).value;
      WellFormed(b) && data[pos..end] == EncodeBox(b)
  {
    if DecodeBox(data, pos).Ok? {
      var (b, end) := DecodeBox(data, pos).value;
      var h := DecodeHeader(data, pos).value;
      DecodeHeaderInverse(data, pos);
      DecodeEntriesInverse(data, pos + EntriesOffset, end, h.count);
      var entries := data[pos + EntriesOffset..end];
      assert entries == EncodeEntries(b.entries);
      assert BoxSize(b) == end - pos;
      assert WellFormed(b);
      SliceJoin(data, pos, pos + 4, end);
      SliceJoin(data, pos + 4, pos + EntriesOffset, end);
      assert data[pos..end] == BE32(end - pos) + HeaderFields(h.version, h.flags, h.count) + entries;
    }
  }

  /** The bytes WriteBox has produced just before it patches the size field:
      patching in the total length gives exactly EncodeBox. */
  lemma PatchedBox(d0: seq<byte>, b: Ipro, written: seq<byte>)
    requires WellFormed(b)
    requires written == d0 + BE32(0) + IPRO + [b.version] + BE24(b.flags) + BE16(|b.entries|)
                        + EncodeEntries(b.entries)
    ensures |written| - |d0| == BoxSize(b)
    ensures written[..|d0|] + BE32(BoxSize(b)) + written[|d0| + 4..] == d0 + EncodeBox(b)
  {
    var tail := HeaderFields(b.version, b.flags, |b.entries|) + EncodeEntries(b.entries);
    assert written == d0 + BE32(0) + tail;
    PatchAfter(d0, BE32(0), BE32(BoxSize(b)), tail);
  }

  /** One step of writing a run: after the bytes `d` already written, appending
      entry `i` leaves exactly the encoding of the entries after it to write. */
  lemma WriteStep(es: seq<Sinf>, i: nat, d: seq<byte>, total: seq<byte>)
    requires i < |es| && AllFit(es[i..])
    requires d + EncodeEntries(es[i..]) == total
    ensures Fits(es[i]) && AllFit(es[i + 1..])
    ensures d + EncodeSinf(es[i]) + EncodeEntries(es[i + 1..]) == total
  {
    assert es[i..][1..] == es[i + 1..];
    assert EncodeEntries(es[i..]) == EncodeSinf(es[i]) + EncodeEntries(es[i + 1..]);
  }

  /** Appends every entry's bytes to the stream, in stored order. */
  method WriteEntries(bs: BitStream, es: seq<Sinf>)
    requires bs.Valid() && AllFit(es)
    modifies bs`data
    ensures bs.Valid() && bs.data == old(bs.data) + EncodeEntries(es)
  {
    ghost var total := bs.data + EncodeEntries(es);
    var i := 0;
    assert es[0..] == es;
    while i < |es|
      invariant 0 <= i <= |es|
      invariant bs.Valid() && AllFit(es[i..])
      invariant bs.data + EncodeEntries(es[i..]) == total
    {
      WriteStep(es, i, bs.data, total);
      WriteSinf(bs, es[i]);
      i := i + 1;
    }
    assert es[i..] == [];
  }

  /** FullBox::parseFullBoxHeader followed by the 16-bit count: reads the first
      14 bytes of the box at the cursor. */
  method ParseHeader(bs: BitStream) returns (r: Result<Header>)
    requires bs.Valid()
    modifies bs`pos
    ensures bs.Valid()
    ensures var d := DecodeHeader(bs.data, old(bs.pos));
      (d.Ok? ==> r == d && bs.pos == old(bs.pos) + EntriesOffset) && (d.Err? ==> r == d)
  {
    var start := bs.pos;
    var all := |bs.data|;
    var size := bs.Read32(all);
    if size.Err? {
      return Err(size.error);
    }
    if size.value < FullBoxHeaderSize {
      return Err(BadBoxSize(start));
    }
    if all - start < size.value {
      return Err(Truncated(start));
    }
    var end := start + size.value;
    var code := bs.Read(4, end);
    if code.value != IPRO {
      return Err(UnexpectedType(start, code.value));
    }
    var v := bs.Read8(end);
    var f := bs.Read24(end);
    var count := bs.Read16(end);
    if count.Err? {
      return Err(Truncated(start + FullBoxHeaderSize));
    }
    r := Ok(Header(end, v.value, f.value, count.value));
  }

  /** Reading one more entry after a decoded run extends the run by that entry. */
  lemma {:induction false} DecodeEntriesSnoc(data: seq<byte>, pos: nat, limit: nat, n: nat,
                                             es: seq<Sinf>, p: nat, s: Sinf, q: nat)
    requires pos <= limit <= |data|
    requires DecodeEntries(data, pos, limit, n) == Ok((es, p))
    requires DecodeSinf(data, p, limit) == Ok((s, q))
    ensures DecodeEntries(data, pos, limit, n + 1) == Ok((es + [s], q))
    decreases n
  {
    if n == 0 {
      DecodeEntriesCons(data, pos, limit, 1, s, q);
      assert DecodeEntries(data, q, limit, 0) == Ok(([], q));
      assert [s] + [] == es + [s];
    } else {
      var first := DecodeSinf(data, pos, limit).value;
      var s0, q0 := first.0, first.1;
      DecodeEntriesCons(data, pos, limit, n, s0, q0);
      var tail := DecodeEntries(data, q0, limit, n - 1);
      assert tail.Ok? && tail.value.1 == p;
      var rest := tail.value.0;
      DecodeEntriesSnoc(data, q0, limit, n - 1, rest, p, s, q);
      DecodeEntriesCons(data, pos, limit, n + 1, s0, q0);
      assert es == [s0] + rest;
      assert [s0] + (rest + [s]) == es + [s];
    }
  }

  /** An entry that fails to decode after `n` decoded ones fails any longer run. */
  lemma {:induction false} DecodeEntriesStops(data: seq<byte>, pos: nat, limit: nat, n: nat, m: nat,
                                              es: seq<Sinf>, p: nat)
    requires pos <= limit <= |data| && n < m
    requires DecodeEntries(data, pos, limit, n) == Ok((es, p))
    requires DecodeSinf(data, p, limit).Err?
    ensures DecodeEntries(data, pos, limit, m) == Err(DecodeSinf(data, p, limit).error)
    decreases n
  {
    if n > 0 {
      var first := DecodeSinf(data, pos, limit).value;
      var s0, q0 := first.0, first.1;
      DecodeEntriesCons(data, pos, limit, n, s0, q0);
      DecodeEntriesCons(data, pos, limit, m, s0, q0);
      var tail := DecodeEntries(data, q0, limit, n - 1);
      assert tail.Ok? && tail.value.1 == p;
      DecodeEntriesStops(data, q0, limit, n - 1, m - 1, tail.value.0, p);
    }
  }

  /** Reads `count` entries at the cursor, none reaching past `limit`. */
  method ParseEntries(bs: BitStream, limit: nat, count: nat) returns (r: Result<seq<Sinf>>)
    requires bs.Valid() && bs.pos <= limit <= |bs.data|
    modifies bs`pos
    ensures bs.Valid()
    ensures r.Ok? ==> DecodeEntries(bs.data, old(bs.pos), limit, count) == Ok((r.value, bs.pos))
    ensures r.Err? ==> DecodeEntries(bs.data, old(bs.pos), limit, count) == Err(r.error)
  {
    ghost var start := bs.pos;
    var es: seq<Sinf> := [];
    var i := 0;
    while i < count
      invariant 0 <= i <= count
      invariant bs.Valid() && bs.pos <= limit
      invariant DecodeEntries(bs.data, start, limit, i) == Ok((es, bs.pos))
    {
      ghost var before := bs.pos;
      var s := ParseSinf(bs, limit);
      if s.Err? {
        DecodeEntriesStops(bs.data, start, limit, i, count, es, before);
        return Err(s.error);
      }
      DecodeEntriesSnoc(bs.data, start, limit, i, es, before, s.value, bs.pos);
      es := es + [s.value];
      i := i + 1;
    }
    r := Ok(es);
  }

  /** The 'ipro' box object: the full-box fields and the stored 'sinf' entries
      (mProtectionInformation), which entries are appended to in place. */
  class ItemProtectionBox {
    var version: byte
    var flags: uint24
    var entries: seq<Sinf>

    /** The entry count always fits the 16-bit count field. */
    ghost predicate Valid()
      reads this
    {
      |entries| <= MaxCount
    }

    function Value(): Ipro
      reads this
    {
      Ipro(version, flags, entries)
    }

    /** A new box is version 0, flags 0, and holds no entries. */
    constructor ()
      ensures Valid() && version == 0 && flags == 0 && entries == []
    {
      version := 0;
      flags := 0;
      entries := [];
    }

    method GetProtectionCount() returns (count: uint16)
      requires Valid()
      ensures count == |entries|
    {
      count := |entries|;
    }

    /** The entry at a 0-based index; an index at or past the count is an error. */
    method GetEntry(index: uint16) returns (r: Result<Sinf>)
      ensures index < |entries| ==> r == Ok(entries[index])
      ensures |entries| <= index ==> r == Err(IndexOutOfRange(index))
    {
      if index < |entries| {
        r := Ok(entries[index]);
      } else {
        r := Err(IndexOutOfRange(index));
      }
    }

    /** Appends an entry and returns its 0-based index, the count before the call.
        Fails, changing nothing, when the 16-bit count is already full. */
    method AddEntry(sinf: Sinf) returns (r: Result<uint16>)
      requires Valid()
      modifies this`entries
      ensures Valid()
      ensures old(|entries|) < MaxCount ==>
        r == Ok(old(|entries|)) && entries == old(entries) + [sinf]
      ensures old(|entries|) == MaxCount ==> r == Err(CountOverflow) && entries == old(entries)
      ensures r.Ok? ==> |entries| == old(|entries|) + 1 && entries[r.value] == sinf
      ensures entries[..old(|entries|)] == old(entries)
    {
      if |entries| == MaxCount {
        return Err(CountOverflow);
      }
      r := Ok(|entries|);
      entries := entries + [sinf];
    }

    /** Resolves an item's 1-based protection index (section 8.11.6 of
        ISO/IEC 14496-12): 0 means unprotected, k designates entry k - 1. */
    method ProtectionFor(protectionIndex: uint16) returns (r: Result<Protection>)
      ensures protectionIndex == 0 ==> r == Ok(Unprotected)
      ensures 0 < protectionIndex <= |entries| ==> r == Ok(ProtectedBy(entries[protectionIndex - 1]))
      ensures |entries| < protectionIndex ==> r == Err(IndexOutOfRange(protectionIndex - 1))
    {
      if protectionIndex == 0 {
        return Ok(Unprotected);
      }
      var e := GetEntry(protectionIndex - 1);
      r := if e.Ok? then Ok(ProtectedBy(e.value)) else Err(e.error);
    }

    /** Appends the box to the stream: a full-box header with a placeholder size,
        the count, each entry in order, then the size patched to the exact length. */
    method WriteBox(bs: BitStream)
      requires WellFormed(Value()) && bs.Valid()
      modifies bs`data
      ensures bs.Valid() && bs.data == old(bs.data) + EncodeBox(Value())
    {
      var v, f, es := version, flags, entries;
      ghost var d0 := bs.data;
      var start := |bs.data|;
      bs.Write32(0);
      bs.Write(IPRO);
      bs.Write8(v);
      bs.Write24(f);
      bs.Write16(|es|);
      WriteEntries(bs, es);
      ghost var written := bs.data;
      var size := |bs.data| - start;
      PatchedBox(d0, Ipro(v, f, es), written);
      bs.Patch32(start, size);
    }

    /** Reads one 'ipro' box at the cursor and, when it is well formed, makes it
        this box's content; on any error the box is left as it was. */
    method ParseBox(bs: BitStream) returns (r: Result<()>)
      requires bs.Valid()
      modifies this, bs`pos
      ensures bs.Valid()
      ensures var d := DecodeBox(bs.data, old(bs.pos));
        (d.Ok? ==> r == Ok(()) && Value() == d.value.0 && bs.pos == d.value.1 && Valid()) &&
        (d.Err? ==> r == Err(d.error) && Value() == old(Value()))
    {
      var h := ParseHeader(bs);
      if h.Err? {
        return Err(h.error);
      }
      var es := ParseEntries(bs, h.value.end, h.value.count);
      if es.Err? {
        return Err(es.error);
      }
      if bs.pos != h.value.end {
        return Err(SizeMismatch(bs.pos));
      }
      version, flags, entries := h.value.version, h.value.flags, es.value;
      r := Ok(());
    }
  }
}
