# Item Protection box ('ipro') of the HEIF library

This project models `ItemProtectionBox` of the Nokia HEIF library
(`srcs/common/itemprotectionbox.hpp`). The class is the 'ipro' box of section
8.11.5 of ISO/IEC 14496-12. It is a full box, so it carries a version and flags.
It holds an ordered list of Protection Scheme Info ('sinf') boxes in its field
`mProtectionInformation`. Items name an entry by a 1-based protection index.

The wire layout in the model:

| offset | bytes | field |
|---|---|---|
| 0 | 4 | box size, big-endian, covering the whole box |
| 4 | 4 | 'ipro' |
| 8 | 1 | version |
| 9 | 3 | flags |
| 12 | 2 | `protection_count` |
| 14 | ... | exactly `protection_count` 'sinf' boxes, in order |

Modules:

- `Bytes`: byte and fixed-width unsigned types, big-endian encoders and
  decoders, and their inverse lemmas.
- `Results`: the error kinds and a `Result` type, used where parsing fails
  or an index or count is out of range.
- `Stream`: the bit stream the box is written to and read from. It is a
  class holding a byte sequence and a read cursor. Writes append or patch.
  Reads are bounded by a limit and fail with `Truncated` past it.
- `ProtectionSchemeInfo`: a 'sinf' entry kept opaque. It is a size-prefixed
  box (32-bit size, the code 'sinf', then payload bytes). It comes with its
  encoder, decoder and round-trip lemmas.
- `ItemProtection`: the 'ipro' box.
  - Its byte-level specification: `EncodeBox` and `DecodeBox`, with round
    trips in both directions.
  - The class `ItemProtectionBox`, whose methods update the entry sequence in
    place and read and write the stream with loops. WriteBox and ParseBox are
    proved against the byte-level specification. The other methods state
    their result and the new state in terms of the stored entries.

## Model

| member | source | states |
|---|---|---|
| ItemProtection.ItemProtectionBox.constructor | srcs/common/itemprotectionbox.hpp:26 | A new box is valid, has version 0 and flags 0, and holds no entries, so its count is 0 |
| ItemProtection.ItemProtectionBox.GetProtectionCount | srcs/common/itemprotectionbox.hpp:29-30 | The 16-bit count is exactly the number of stored entries. The class invariant `Valid` keeps that number within a uint16, so nothing is truncated |
| ItemProtection.ItemProtectionBox.GetEntry | srcs/common/itemprotectionbox.hpp:32-34 | For a 0-based index below the count, returns the stored entry at that index. Otherwise returns `IndexOutOfRange`. It changes no state (no modifies clause) |
| ItemProtection.ItemProtectionBox.AddEntry | srcs/common/itemprotectionbox.hpp:36-39 | Below 65535 entries: appends the entry and returns the count before the call, which is the new entry's 0-based index. The count grows by one and the entry at the returned index is the added one. At 65535: returns `CountOverflow` and leaves the entries unchanged. Every earlier entry keeps its index and value. The 16-bit invariant is preserved |
| ItemProtection.ItemProtectionBox.ProtectionFor | srcs/common/itemprotectionbox.hpp:32-34 | The 1-based item_protection_index of section 8.11.6 of ISO/IEC 14496-12. 0 means unprotected. k in 1..count designates entry k-1, as read by GetEntry. A larger k is `IndexOutOfRange(k-1)` |
| ItemProtection.ItemProtectionBox.WriteBox | srcs/common/itemprotectionbox.hpp:41-43 | Appends exactly `EncodeBox` of the box's version, flags and entries to the stream. The size field is written as a placeholder and then patched to the exact length |
| ItemProtection.ItemProtectionBox.ParseBox | srcs/common/itemprotectionbox.hpp:45-47 | On success the box's content is what `DecodeBox` decodes at the cursor, the cursor ends at the end of the box, and the 16-bit invariant holds. On failure the error is `DecodeBox`'s and the box is left as it was |
| ItemProtection.WriteEntries | srcs/common/itemprotectionbox.hpp:41-43 | The writing loop appends exactly the encoding of every entry, in stored order |
| ItemProtection.ParseEntries | srcs/common/itemprotectionbox.hpp:45-47 | The reading loop over `protection_count` entries succeeds exactly when `DecodeEntries` does, with the same entries and end position. Otherwise it fails with the same error |
| ItemProtection.ParseHeader | srcs/common/itemprotectionbox.hpp:45-47 | Reading the full-box header and the count from the stream gives the same result as `DecodeHeader`. On success the cursor sits on the first entry |
| ItemProtection.EncodeBox | srcs/common/itemprotectionbox.hpp:41-43 | The written box is exactly as long as its declared size |
| ItemProtection.EncodeBoxSplit | srcs/common/itemprotectionbox.hpp:41-43 | A written box is its exact size, then 'ipro', version, flags and the 16-bit count of entries, then the encoded entries in stored order |
| ItemProtection.PatchedBox | srcs/common/itemprotectionbox.hpp:41-43 | The bytes written with a zero size placeholder become exactly the encoded box once the total length is patched into the size field |
| ItemProtection.WriteStep | srcs/common/itemprotectionbox.hpp:41-43 | Writing one more entry leaves exactly the encoding of the entries after it still to write |
| ItemProtection.DecodeHeader | srcs/common/itemprotectionbox.hpp:45-47 | A decoded header's box end lies at least 14 bytes past its start and within the data. Every failure is a truncation, a bad box size or an unexpected box type |
| ItemProtection.DecodeEntries | srcs/common/itemprotectionbox.hpp:45-47 | Decoding n entries yields exactly n entries and never reads past the limit |
| ItemProtection.DecodeBox | srcs/common/itemprotectionbox.hpp:45-47 | A decoded box ends at least 14 bytes past its start and within the data |
| ItemProtection.EncodeDecodeHeader | srcs/common/itemprotectionbox.hpp:41-47 | The size and header fields as written are decoded back to the same end, version, flags and count |
| ItemProtection.DecodeHeaderInverse | srcs/common/itemprotectionbox.hpp:41-47 | An accepted header is byte for byte the encoding of its decoded size, version, flags and count |
| ItemProtection.EncodeDecodeEntries | srcs/common/itemprotectionbox.hpp:41-47 | Parsing the bytes of written entries restores the same entry sequence and stops right after it |
| ItemProtection.DecodeEntriesInverse | srcs/common/itemprotectionbox.hpp:41-47 | Entries that parse are each writable, and writing them reproduces exactly the bytes that were read |
| ItemProtection.DecodeEntriesSnoc | srcs/common/itemprotectionbox.hpp:45-47 | Parsing one more entry after n decoded entries gives those n entries followed by the new one |
| ItemProtection.DecodeEntriesStops | srcs/common/itemprotectionbox.hpp:45-47 | If the entry after n decoded ones fails to parse, parsing any larger count fails with that entry's error |
| ItemProtection.EncodeDecodeBoxParts | srcs/common/itemprotectionbox.hpp:41-47 | Bytes holding the size, the header fields and the entries of a box decode back to that box |
| ItemProtection.EncodeDecodeBox | srcs/common/itemprotectionbox.hpp:41-47 | Round trip: parsing a written box restores the same version, flags and entry sequence in order, and consumes exactly the box's bytes |
| ItemProtection.DecodeBoxInverse | srcs/common/itemprotectionbox.hpp:41-47 | Converse round trip: a box that parses is writable (count within 16 bits, size within 32 bits), and writing it reproduces exactly the bytes that were read |
| ProtectionSchemeInfo.EncodeSinf | srcs/common/itemprotectionbox.hpp:50 | A written 'sinf' entry is exactly as long as its declared size |
| ProtectionSchemeInfo.DecodeSinf | srcs/common/itemprotectionbox.hpp:50 | An accepted entry's size fits 32 bits and it ends within the limit, exactly its size after its start. Every failure is a truncation, a bad box size or an unexpected box type |
| ProtectionSchemeInfo.EncodeDecodeSinf | srcs/common/itemprotectionbox.hpp:50 | Parsing a written 'sinf' entry restores it and ends right after it |
| ProtectionSchemeInfo.DecodeSinfInverse | srcs/common/itemprotectionbox.hpp:50 | An accepted 'sinf' entry is byte for byte the encoding of what was decoded |
| ProtectionSchemeInfo.WriteSinf | srcs/common/itemprotectionbox.hpp:50 | Appends exactly the entry's encoding to the stream |
| ProtectionSchemeInfo.ParseSinf | srcs/common/itemprotectionbox.hpp:50 | Reading an entry from the stream agrees with `DecodeSinf`: the same entry and end position, or the same error |

## Left out

- The body of `ItemProtectionBox` (its .cpp) is not part of this model. The
  behaviour of writeBox and parseBox follows the declared interface and the
  box layout of section 8.11.5 of ISO/IEC 14496-12.
- ProtectionSchemeInfoBox is not part of this model. A 'sinf' entry is an
  opaque payload behind a 32-bit size and the 'sinf' code. Its inner boxes
  (original format, scheme type, scheme information) are not decoded.
- FullBox and Box header handling is not part of this model. Only the 32-bit
  size, the type code, version and flags are modelled. The 64-bit
  `largesize` form and 'uuid' extended types are not.
- ISOBMFF::BitStream is not part of this model. It is represented by a byte
  sequence with a read cursor, reduced to the big-endian fixed-width fields
  this box uses.
- The custom allocator behind `Vector` is not modelled. Memory exhaustion is
  not modelled either.
- ItemProtection.ItemProtectionBox.GetEntry: the header does not say what an
  out-of-range index does. The model returns `IndexOutOfRange` instead of
  leaving it undefined.
- ItemProtection.ItemProtectionBox.AddEntry: the header does not say what
  happens once the 16-bit count is full. The model refuses the 65536th entry
  with `CountOverflow`, so the returned index and the count stay within
  uint16.
- ItemProtection.ItemProtectionBox.WriteBox: requires the whole box to fit a
  32-bit size field (`WellFormed`). Larger boxes would need `largesize`.
- ItemProtection.ItemProtectionBox.ParseBox: replaces the stored entries as a
  whole on success. It does not append to entries the box already held. On
  any error the box is unchanged. Errors are returned as values rather than
  thrown. The stream cursor after a failed parse is not specified. It is
  stricter than the header states in two ways, both taken from the layout
  in section 8.11.5 of ISO/IEC 14496-12. It rejects a box whose declared size
  runs past its last counted entry (`SizeMismatch`). It rejects any child box
  whose type code is not 'sinf' (`UnexpectedType`).
- The Java binding (AVCImageItem.java), the JNI shim (JPEGDecoderConfigJNI.cpp),
  the thumbnail example (thumb_extractor.cpp) and the file opener
  (heifstreamgeneric.hpp) are left out. They are foreign-call bridges and
  file I/O with no logic of this box.
