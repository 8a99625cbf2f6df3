# TSDuck descriptor and MJD codecs in Dafny

This project models the byte-exact codec layer of TSDuck, an MPEG transport
stream toolkit, and proves properties about it. There are two parts.

- **Descriptor payload codecs.** A descriptor is a one-byte tag, a one-byte
  length and a payload of at most 255 bytes. Each concrete descriptor packs
  its fields into the payload and unpacks them again. The model covers four
  of them:
  - HD_simulcast_logical_channel_descriptor, modelled line by line from its
    implementation.
  - parental_rating_descriptor (ETSI EN 300 468, section 6.2.28).
  - mosaic_descriptor (ETSI EN 300 468, section 6.2.21).
  - target_IP_source_slash_descriptor (ETSI EN 301 192, section 8.4.5.10).
  For the last three only the headers are available: they declare the
  fields and the codec methods but not their bodies. Their wire layouts
  follow the standards named, with reserved bits written as ones.
- **MJD/BCD time codec.** This converts an absolute time in milliseconds to
  and from the 2 to 5 byte "Modified Julian Date + BCD hh:mm:ss" form of
  ETSI EN 300 468, Annex C.

Files:

- `bytes.dfy` (modules `Bytes` and `Options`): bytes and 16/32-bit words
  as bounded integers, big-endian `GetUInt16`/`PutUInt16` and the 32-bit
  pair, two-digit BCD, and `Option`.
- `records.dfy` (module `Records`): lists of fixed-size records. A list is
  the concatenation of its encoded records, and is read back chunk by chunk.
  The HD, parental rating and target-IP codecs all use it.
- `descriptor.dfy` (module `Descriptors`): the raw descriptor block and
  its validity rule. The length byte must equal the payload size.
- `hd_simulcast_lcn.dfy`, `parental_rating.dfy`, `mosaic.dfy` and
  `target_ip_source_slash.dfy`: one module per descriptor.
- `registry.dfy` (module `Registry`): which codec a descriptor is handed
  to. This depends on the enclosing table and the private data specifier,
  not on the tag alone.
- `mjd.dfy` (module `MJD`): `DecodeMJD`, `EncodeMJD` and their round
  trips.

Serializers are total functions. The HD serializer casts the payload size
to 8 bits for the length byte, so a payload over 255 bytes gives a block
that is not `Valid()`. The other three serializers are modelled with the
same cast. Deserializers report failure through
an `Option`. The HD descriptor is the exception: it keeps TSDuck's
validity flag and clears its entry list on failure.

`Time::Epoch` and `Time::JulianEpochOffset` are parameters (`MJD.TimeBase`),
and every MJD property holds for either sign of the offset.

## Model

| member | source | states |
|---|---|---|
| Bytes.PutUInt16 | src/libtsduck/tsMJD.cpp:98 | the two bytes written read back, big-endian, as the 16-bit value |
| Bytes.GetPutUInt16 | src/libtsduck/tsMJD.cpp:52 | writing back the 16-bit value read at an offset reproduces those two bytes |
| Bytes.GetUInt32 | src/libtsduck/tsTargetIPSourceSlashDescriptor.h:59-61 | four bytes read as a 32-bit value, most significant first; its high and low halves are the two 16-bit words |
| Bytes.PutUInt32 | src/libtsduck/tsTargetIPSourceSlashDescriptor.h:59-61 | the four bytes written read back, big-endian, as the 32-bit value |
| Bytes.EncodeBCD | src/libtsduck/tsMJD.cpp:100-106 | the byte is two valid BCD digits and decodes to the value modulo 100 |
| Bytes.EncodeDecodeBCD | src/libtsduck/tsMJD.cpp:55-61 | a byte re-encodes to itself after BCD decoding exactly when both of its nibbles are decimal digits |
| Records.Concat | src/libtsduck/tsHDSimulcastLogicalChannelDescriptor.cpp:97-100 | encoding n-byte records one after another gives n bytes per record |
| Records.ConcatChunk | src/libtsduck/tsHDSimulcastLogicalChannelDescriptor.cpp:97-100 | record i occupies bytes n*i to n*i+n of the concatenation |
| Records.Split | src/libtsduck/tsHDSimulcastLogicalChannelDescriptor.cpp:120-125 | reading n bytes at a time while n remain gives floor(size/n) records |
| Records.SplitChunk | src/libtsduck/tsHDSimulcastLogicalChannelDescriptor.cpp:121-124 | record i is decoded from bytes n*i to n*i+n |
| Records.SplitConcat | src/libtsduck/tsHDSimulcastLogicalChannelDescriptor.cpp:92-127 | reading back a concatenation gives one record per input, each the decoding of its own encoding |
| Records.ConcatSplit | src/libtsduck/tsHDSimulcastLogicalChannelDescriptor.cpp:92-127 | re-encoding what was read reproduces the bytes exactly when every chunk is a fixed point of decode-then-encode |
| Records.AllChunksFixed | src/libtsduck/tsHDSimulcastLogicalChannelDescriptor.cpp:120-125 | when every n-byte input is a fixed point of decode-then-encode, so is every chunk of any payload |
| Descriptors.Build | src/libtsduck/tsHDSimulcastLogicalChannelDescriptor.cpp:102-105 | the block is the tag, the payload size cast to a byte, then the payload; it is valid exactly when the payload is at most 255 bytes |
| Descriptors.BuildFromParts | src/libtsduck/tsHDSimulcastLogicalChannelDescriptor.cpp:102-105 | a valid block is rebuilt exactly from its tag and payload |
| HDSimulcastLCN.Serialize | src/libtsduck/tsHDSimulcastLogicalChannelDescriptor.cpp:92-106 | tag first, 4 bytes per entry, and valid exactly when there are at most 63 entries |
| HDSimulcastLCN.Deserialize | src/libtsduck/tsHDSimulcastLogicalChannelDescriptor.cpp:113-127 | valid exactly when the input is valid, has this tag and has a payload that is a multiple of 4; invalid leaves no entries; valid gives one entry per 4 bytes |
| HDSimulcastLCN.ReadEntries | src/libtsduck/tsHDSimulcastLogicalChannelDescriptor.cpp:119-125 | TSDuck's loop, consuming 4 bytes per entry while 4 remain, yields the chunk-wise decoding of the payload |
| HDSimulcastLCN.DeserializeLoop | src/libtsduck/tsHDSimulcastLogicalChannelDescriptor.cpp:113-127 | clearing the list and then running the loop only on acceptable input computes the same object as the functional definition |
| HDSimulcastLCN.EncodeEntry | src/libtsduck/tsHDSimulcastLogicalChannelDescriptor.cpp:98-99 | an entry is 4 bytes: the first word reads back as service_id; bit 7 of the third byte is set exactly when visible; bits 14..10 of the second word are ones; its low 10 bits are those of lcn |
| HDSimulcastLCN.DecodeEntry | src/libtsduck/tsHDSimulcastLogicalChannelDescriptor.cpp:121 | a decoded entry already has a 10-bit lcn; from 4 bytes, service_id writes back as the first two, visible is the top bit of the third, lcn is the low 2 bits of the third byte then the fourth |
| HDSimulcastLCN.SerializeLayout | src/libtsduck/tsHDSimulcastLogicalChannelDescriptor.cpp:97-103 | entry i sits at payload offset 4i with service_id, visible bit, reserved ones and masked lcn |
| HDSimulcastLCN.DeserializeLayout | src/libtsduck/tsHDSimulcastLogicalChannelDescriptor.cpp:119-125 | entry i is read from payload offset 4i: service_id, bit 7 of byte 4i+2 as visible, low 10 bits of the second word as lcn |
| HDSimulcastLCN.EntryBytes | src/libtsduck/tsHDSimulcastLogicalChannelDescriptor.cpp:97-100 | entry i is encoded at bytes 2+4i to 2+4i+4 of the descriptor |
| HDSimulcastLCN.DecodeEncodeEntry | src/libtsduck/tsHDSimulcastLogicalChannelDescriptor.cpp:98-99 | an entry comes back from its 4 bytes with lcn cut to 10 bits |
| HDSimulcastLCN.SecondWordKept | src/libtsduck/tsHDSimulcastLogicalChannelDescriptor.cpp:99 | the second word of a re-encoded chunk is unchanged exactly when its reserved bits are ones |
| HDSimulcastLCN.EncodeDecodeEntry | src/libtsduck/tsHDSimulcastLogicalChannelDescriptor.cpp:99 | 4 bytes re-encode to themselves after decoding exactly when bits 14..10 of the second word are ones |
| HDSimulcastLCN.RoundTrip | src/libtsduck/tsHDSimulcastLogicalChannelDescriptor.cpp:92-127 | deserialize after serialize is valid exactly when there are at most 63 entries, and then gives back every entry in order with lcn masked to 10 bits |
| HDSimulcastLCN.ChunksFixedIffReserved | src/libtsduck/tsHDSimulcastLogicalChannelDescriptor.cpp:99 | a whole number of entries re-encodes chunk by chunk exactly when every entry has its reserved bits set |
| HDSimulcastLCN.ReserializeIff | src/libtsduck/tsHDSimulcastLogicalChannelDescriptor.cpp:92-127 | serializing a valid deserialization reproduces the input descriptor exactly when all reserved bits are ones |
| HDSimulcastLCN.DefaultRoundTrip | src/libtsduck/tsHDSimulcastLogicalChannelDescriptor.cpp:43-48 | the default object serializes to the empty descriptor, which deserializes back to it |
| HDSimulcastLCN.Default | src/libtsduck/tsHDSimulcastLogicalChannelDescriptor.cpp:43-48 | the default object is valid with no entries, and serializes to a valid descriptor with an empty payload |
| HDSimulcastLCN.ArgEntries | src/libtsduck/tsHDSimulcastLogicalChannelDescriptor.cpp:78-84 | at most one entry per two arguments, and every entry is visible |
| HDSimulcastLCN.FromList | src/libtsduck/tsHDSimulcastLogicalChannelDescriptor.cpp:71-85 | the object is valid, its first entry is the first pair cast to 16 bits, and every entry is visible |
| HDSimulcastLCN.ArgEntriesOfPairs | src/libtsduck/tsHDSimulcastLogicalChannelDescriptor.cpp:76-84 | pairs closed by -1 give one visible entry per pair, in order |
| ParentalRating.WithOneEntry | src/libtsduck/tsParentalRatingDescriptor.h:96-101 | exactly one entry, holding the given code and rating |
| ParentalRating.EncodeEntry | src/libtsduck/tsParentalRatingDescriptor.h:50-54 | an entry is 4 bytes, and with a 3-byte code it is exactly the code followed by the rating |
| ParentalRating.DecodeEntry | src/libtsduck/tsParentalRatingDescriptor.h:50-54 | from 4 bytes, the entry has a 3-byte code and encodes back to those 4 bytes |
| ParentalRating.MaxEntriesIsLargestFit | src/libtsduck/tsParentalRatingDescriptor.h:76-79 | 63 entries of 4 bytes fit in 255 bytes and 64 do not |
| ParentalRating.SerializePayload | src/libtsduck/tsParentalRatingDescriptor.h:50-54 | fails exactly when a country code is not 3 bytes, otherwise 4 bytes per entry |
| ParentalRating.DeserializePayload | src/libtsduck/tsParentalRatingDescriptor.h:50-54 | succeeds exactly on a multiple of 4 bytes, giving one entry per 4 bytes, each with a 3-byte code |
| ParentalRating.Serialize | src/libtsduck/tsParentalRatingDescriptor.h:104 | valid exactly when every code is 3 bytes and there are at most 63 entries |
| ParentalRating.Deserialize | src/libtsduck/tsParentalRatingDescriptor.h:105 | succeeds exactly on a valid block with tag 0x55 and a payload that is a multiple of 4; what it yields has 3-byte codes and at most 63 entries |
| ParentalRating.DefaultEntryRejected | src/libtsduck/tsParentalRatingDescriptor.h:61 | a descriptor holding a default entry, whose country code is empty, does not serialize to a valid block |
| ParentalRating.SerializeLayout | src/libtsduck/tsParentalRatingDescriptor.h:50-54 | entry i is its code at payload offset 4i followed by its rating |
| ParentalRating.PayloadRoundTrip | src/libtsduck/tsParentalRatingDescriptor.h:74-82 | decoding an encoded payload gives every entry back in order |
| ParentalRating.RoundTrip | src/libtsduck/tsParentalRatingDescriptor.h:104-105 | deserialize after serialize gives the descriptor back exactly when every code is 3 bytes and there are at most 63 entries |
| ParentalRating.ReserializeExact | src/libtsduck/tsParentalRatingDescriptor.h:104-105 | serialize after a successful deserialize reproduces the input |
| TargetIPSourceSlash.MaxEntriesIsLargestFit | src/libtsduck/tsTargetIPSourceSlashDescriptor.h:77-80 | 25 entries of 10 bytes fit in 255 bytes and 26 do not |
| TargetIPSourceSlash.EncodeAddress | src/libtsduck/tsTargetIPSourceSlashDescriptor.h:59-62 | an address is 10 bytes: the source address big-endian at 0, its mask at 4, the destination address big-endian at 5, its mask at 9 |
| TargetIPSourceSlash.DecodeAddress | src/libtsduck/tsTargetIPSourceSlashDescriptor.h:59-62 | from 10 bytes, each address writes back as the four bytes it was read from, and each mask is the byte after its address |
| TargetIPSourceSlash.DecodeEncodeAddress | src/libtsduck/tsTargetIPSourceSlashDescriptor.h:59-62 | an address entry comes back unchanged from its 10 bytes |
| TargetIPSourceSlash.EncodeDecodeAddress | src/libtsduck/tsTargetIPSourceSlashDescriptor.h:59-62 | every 10-byte chunk re-encodes to itself |
| TargetIPSourceSlash.DeserializePayload | src/libtsduck/tsTargetIPSourceSlashDescriptor.h:96 | succeeds exactly on a multiple of 10 bytes, one address per 10 bytes |
| TargetIPSourceSlash.Serialize | src/libtsduck/tsTargetIPSourceSlashDescriptor.h:95 | valid exactly when there are at most 25 addresses |
| TargetIPSourceSlash.Deserialize | src/libtsduck/tsTargetIPSourceSlashDescriptor.h:96 | succeeds exactly on a valid block with tag 0x0F and a payload that is a multiple of 10; what it yields has at most 25 addresses |
| TargetIPSourceSlash.DefaultAddressBytes | src/libtsduck/tsTargetIPSourceSlashDescriptor.h:71 | the default address (null addresses, zero masks) is ten zero bytes on the wire, and ten zero bytes decode back to it |
| TargetIPSourceSlash.SerializePayload | src/libtsduck/tsTargetIPSourceSlashDescriptor.h:95 | 10 bytes per address, address i being the encoding at payload bytes 10i to 10i+10 |
| TargetIPSourceSlash.SerializeLayout | src/libtsduck/tsTargetIPSourceSlashDescriptor.h:59-62 | address i is source, source mask, destination, destination mask at payload offset 10i |
| TargetIPSourceSlash.PayloadRoundTrip | src/libtsduck/tsTargetIPSourceSlashDescriptor.h:75 | decoding an encoded payload gives every address back in order |
| TargetIPSourceSlash.RoundTrip | src/libtsduck/tsTargetIPSourceSlashDescriptor.h:95-96 | deserialize after serialize gives the descriptor back exactly when there are at most 25 addresses |
| TargetIPSourceSlash.ReserializeExact | src/libtsduck/tsTargetIPSourceSlashDescriptor.h:95-96 | serialize after a successful deserialize reproduces the input |
| Registry.Interpret | src/libtsduck/tsTargetIPSourceSlashDescriptor.h:44-45 | tag 0x0F goes to target_IP_source_slash only inside an INT; tag 0x88 goes to the HD codec only under the EACEM specifier; anything unclaimed passes through unchanged |
| Registry.TableDecides | src/libtsduck/tsTargetIPSourceSlashDescriptor.h:44-45 | the same serialized block is decoded back to the descriptor in an INT and passed through as raw bytes elsewhere |
| Registry.SpecifierDecides | src/libtsduck/tsHDSimulcastLogicalChannelDescriptor.cpp:31 | the same serialized HD block is decoded under the EACEM specifier and passed through under any other |
| Mosaic.HorizontalCellCount | src/libtsduck/dtv/descriptors/tsMosaicDescriptor.h:71 | for a 3-bit stored field, the actual count is that field plus one, so 1..8 |
| Mosaic.VerticalCellCount | src/libtsduck/dtv/descriptors/tsMosaicDescriptor.h:72 | for a 3-bit stored field, the actual count is that field plus one, so 1..8 |
| Mosaic.EncodeLinkageFields | src/libtsduck/dtv/descriptors/tsMosaicDescriptor.h:56-61 | the fields written after cell_linkage_info take 2, 6, 8 or 0 bytes as it is 0x01, 0x02 or 0x03, 0x04, or other |
| Mosaic.EncodeElementaryCellIds | src/libtsduck/dtv/descriptors/tsMosaicDescriptor.h:55 | one byte per elementary cell id, two reserved ones over the id's low 6 bits |
| Mosaic.EncodeCell | src/libtsduck/dtv/descriptors/tsMosaicDescriptor.h:52-61 | a cell is logical_cell_id in the top 6 bits of byte 0 over two reserved ones, 5 reserved ones over presentation info in byte 1, the count byte, the elementary cell ids, cell_linkage_info, then its linkage fields |
| Mosaic.EncodeCells | src/libtsduck/dtv/descriptors/tsMosaicDescriptor.h:67 | the cells take exactly the sum of their sizes, each fixed by its elementary cell count and linkage info |
| Mosaic.EncodeCellsAppend | src/libtsduck/dtv/descriptors/tsMosaicDescriptor.h:67 | encoding a list of cells is encoding any split of it part by part, one after the other |
| Mosaic.EncodeHeader | src/libtsduck/dtv/descriptors/tsMosaicDescriptor.h:70-72 | mosaic_entry_point is bit 7, the horizontal count bits 6..4, bit 3 a reserved one, the vertical count bits 2..0 |
| Mosaic.SerializePayload | src/libtsduck/dtv/descriptors/tsMosaicDescriptor.h:93 | the payload is a header byte followed by every cell, with the size each cell's linkage info dictates |
| Mosaic.Serialize | src/libtsduck/dtv/descriptors/tsMosaicDescriptor.h:93 | valid exactly when the payload is at most 255 bytes |
| Mosaic.DecodeLinkageFields | src/libtsduck/dtv/descriptors/tsMosaicDescriptor.h:57-61 | bouquet_id is read only for 0x01; network, stream and service ids only for 0x02..0x04; event_id only for 0x04; the rest are zero |
| Mosaic.DecodeCell | src/libtsduck/dtv/descriptors/tsMosaicDescriptor.h:53-61 | a decoded cell has 6-bit ids and a 3-bit presentation info, and consumes exactly its encoded size |
| Mosaic.DecodeCells | src/libtsduck/dtv/descriptors/tsMosaicDescriptor.h:67 | decoded cells are well formed and account for every payload byte |
| Mosaic.DeserializePayload | src/libtsduck/dtv/descriptors/tsMosaicDescriptor.h:94 | a decoded descriptor is well formed and re-encodes to the same number of bytes |
| Mosaic.Deserialize | src/libtsduck/dtv/descriptors/tsMosaicDescriptor.h:94 | success needs a valid block with tag 0x51 and gives well-formed content |
| Mosaic.LinkageLayout | src/libtsduck/dtv/descriptors/tsMosaicDescriptor.h:53-61 | where each cell field sits in the cell's bytes, the optional ids big-endian after cell_linkage_info |
| Mosaic.DecodeEncodeLinkageFields | src/libtsduck/dtv/descriptors/tsMosaicDescriptor.h:56-61 | the linkage fields present for a cell_linkage_info value are read back unchanged |
| Mosaic.DecodeCellHeader | src/libtsduck/dtv/descriptors/tsMosaicDescriptor.h:53-56 | the cell id, presentation info, elementary cell ids and cell_linkage_info of an encoded well-formed cell are read back |
| Mosaic.DecodeEncodeCell | src/libtsduck/dtv/descriptors/tsMosaicDescriptor.h:50-62 | a well-formed cell is read back unchanged, leaving the bytes that follow it |
| Mosaic.DecodeEncodeCells | src/libtsduck/dtv/descriptors/tsMosaicDescriptor.h:67 | a list of well-formed cells comes back in order |
| Mosaic.DecodeEncodeHeader | src/libtsduck/dtv/descriptors/tsMosaicDescriptor.h:70-72 | the entry point flag and both 3-bit counts are read back from the header byte |
| Mosaic.PayloadRoundTrip | src/libtsduck/dtv/descriptors/tsMosaicDescriptor.h:92-94 | decoding an encoded payload gives the descriptor back exactly when its fields fit their widths and absent linkage fields are zero |
| Mosaic.RoundTrip | src/libtsduck/dtv/descriptors/tsMosaicDescriptor.h:92-94 | deserialize after serialize gives the descriptor back exactly when it is well formed and fits 255 bytes |
| Mosaic.OtherLinkageKept | src/libtsduck/dtv/descriptors/tsMosaicDescriptor.h:56-61 | a cell_linkage_info outside 0x01..0x04 adds no fields and is itself preserved |
| MJD.DecodeMJD | src/libtsduck/tsMJD.cpp:44-75 | fails exactly on a size outside 2..5, leaving the time untouched; otherwise the time is the epoch plus offset plus the field milliseconds, clamped to the time origin |
| MJD.MjdMilliseconds | src/libtsduck/tsMJD.cpp:51-62 | the milliseconds an MJD holds start at its day number times a day, and stay within that day when the BCD fields are in range |
| MJD.EncodeMJD | src/libtsduck/tsMJD.cpp:81-109 | fails on a bad size without writing, or on a time before the MJD epoch after zeroing 5 bytes; otherwise writes the 16-bit-truncated day count and BCD hours, minutes and seconds of the elapsed seconds, leaving later bytes unchanged |
| MJD.WriteFields | src/libtsduck/tsMJD.cpp:98-106 | the day number reads back from bytes 0-1; hours, minutes and seconds are BCD in bytes 2, 3 and 4 for the sizes that hold them; bytes from the size on are unchanged |
| MJD.EncodeMJDClearsPastSize | src/libtsduck/tsMJD.cpp:92-95 | a time one second before the MJD epoch encoded as a 2-byte MJD clears the three bytes that follow it |
| MJD.EncodeMJDClearsPast | src/libtsduck/tsMJD.cpp:92-95 | for any size below 5 and any time before the MJD epoch, the bytes from the size up to 5 are cleared |
| MJD.EncodeMJDInBuffer | src/libtsduck/tsMJD.cpp:81-109 | never writes past the size; clears the size bytes before the MJD epoch; otherwise succeeds and writes exactly what EncodeMJD writes |
| MJD.DecodeEncode | src/libtsduck/tsMJD.cpp:44-109 | with a day count below 65536, decoding an encoded time gives it rounded down to the finest field present, or the time origin if that is earlier |
| MJD.RoundDown | src/libtsduck/tsMJD.cpp:97-107 | the largest multiple of the size's resolution (a day, hour, minute or second) not above the second count |
| MJD.SplitSeconds | src/libtsduck/tsMJD.cpp:97-106 | a second count is 24 hours per day plus the hour field, 60 minutes per hour plus the minute field, 60 seconds per minute plus the second field |
| MJD.FieldsMilliseconds | src/libtsduck/tsMJD.cpp:52-62 | the day, hour, minute and second fields of a second count, cut to the size, add up to that count rounded down to the size's resolution |
| MJD.EncodedMilliseconds | src/libtsduck/tsMJD.cpp:52-62 | the milliseconds an encoded buffer denotes are the elapsed seconds rounded down to the size's resolution |
| MJD.FieldsSeconds | src/libtsduck/tsMJD.cpp:97-106 | in-range day, hour, minute and second values are recovered by the encoder's divisions |
| MJD.EncodeOfFields | src/libtsduck/tsMJD.cpp:97-107 | encoding a time whose elapsed seconds split into given fields writes exactly those fields |
| MJD.BufferSeconds | src/libtsduck/tsMJD.cpp:52-62 | the buffer's milliseconds are a whole number of seconds |
| MJD.DecodedSeconds | src/libtsduck/tsMJD.cpp:65-68 | an unclamped decoded time lies the buffer's whole seconds after the MJD epoch |
| MJD.SameFields | src/libtsduck/tsMJD.cpp:98-106 | two buffers with the same day number and the same BCD field values agree on their first bytes |
| MJD.EncodeDecode | src/libtsduck/tsMJD.cpp:44-109 | re-encoding the decoded time of a buffer with in-range fields reproduces the buffer, unless decoding clamped |

## Left out

- The Descriptor class, `ByteBlock` and `PSIBuffer` are not part of this model. A descriptor is its raw bytes, valid when its length byte matches.
- XML conversion (`buildXML`, `fromXML`, `analyzeXML`) and the display routines are left out. They rest on an XML DOM and text formatting.
- `DuckContext` character-set conversion is left out. Parental rating country codes are raw bytes.
- The variadic list constructor of the HD descriptor takes an explicit argument sequence. Running off the end of the argument list without the -1 terminator has no meaning in the model: a list shorter than two values simply ends.
- `Time` arithmetic is integer milliseconds, with `Time::Epoch` and `Time::JulianEpochOffset` as parameters. Clocks and the `Time` class are not modelled.
- The 64-bit width of `MilliSecond` and `uint64_t` is not modelled; only the explicit 16-bit day truncation is.
- MJD.EncodeMJD: requires a 5-byte buffer for times before the MJD epoch and a `size`-byte buffer otherwise, because TSDuck writes that many bytes unchecked (see "## Findings").
- MJD.DecodeEncode: the round trip is proved for a day count below 65536. Above that the encoder truncates the day count.
- Mosaic.RoundTrip: only the decode-after-encode direction is proved. Encode-after-decode would also need the reserved bits of the wire form to be ones.
- The payload layouts of the parental rating, mosaic and target-IP descriptors follow the standards named above. Their implementation files are not part of this model; only their headers are.
- ParentalRating.SerializePayload: rejecting a country code that is not 3 bytes is assumed, not read from the code. The header only documents the code as 3 characters, and the standard gives it a fixed 3-byte field; the implementation file is not part of this model.
- ParentalRating.DefaultEntryRejected: rests on the same assumed rejection of a country code that is not 3 bytes.
- The overflow behaviour of the parental rating, mosaic and target-IP serializers is assumed, not read from their code: like the HD serializer, they are modelled as casting an oversized payload length to 8 bits, which gives a block that is not `Valid()`. The real mosaic serializer writes through `PSIBuffer`, whose overflow handling is not part of this model.
- The other files of the repository are out of scope: tuner parameters, TDES, TLV messages, audio attributes, argument holders and the ITT.

## Findings

| source | as written | input that shows it | evidently intended | confidence | as-written member | corrected member |
|---|---|---|---|---|---|---|
| src/libtsduck/tsMJD.cpp:92-95 | a time before the MJD epoch clears 5 bytes with `Zero (mjd, 5)` whatever `mjd_size` is | `mjd_size` 2 and a time one second before the MJD epoch: bytes 2 to 4, past the 2-byte MJD, are cleared | clear only the `mjd_size` bytes of the MJD | high; not executed | MJD.EncodeMJDClearsPastSize | MJD.EncodeMJDInBuffer |

`MJD.EncodeMJD` keeps the code as written, with a precondition that the
buffer holds 5 bytes on that path. `MJD.EncodeMJDInBuffer` needs only
`size` bytes and agrees with `MJD.EncodeMJD` whenever encoding succeeds.
So the round trips `MJD.DecodeEncode` and `MJD.EncodeDecode`, which are
about successful encodings, hold for both.
