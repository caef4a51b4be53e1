# Metadata: JPEG, IPTC and EXIF in Dafny

A model of the metadata core of the PHP library `diderich/metadata`. The core covers five parts:

- `Jpeg` reads a JPEG file into header segments and scan data, and writes it back.
- `Iptc` decodes and re-encodes Photoshop image resource blocks (IRB) and the IPTC DataSets inside them.
- `Exif` decodes the TIFF/IFD structures of EXIF segments. Its encoder zero-fills the editable tags.
- `Metadata` keeps a store of typed fields and exports those fields to IPTC.
- XMP packets are treated as opaque bytes.

Strings of bytes are `seq<byte>` (`Common.Bytes`). A PHP exception is an `Err` of `Common.Error`, carrying the exception code of `src/Metadata/Exception.php`. File I/O is replaced by the file's bytes.

Modules, one per file:

- `Common` (common.dfy): bytes, errors, and PHP's `trim`, `strpos`, `dechex` and `pack("n"/"N")`.
- `Utf8` (utf8.dfy): the strict UTF-8 check and `utf8_encode`.
- `TiffValue` (tiff_value.dfy): byte order, TIFF value types, value decoding and printing, block names and tag keys.
- `Exif` (exif.dfy): `Exif::decode`, `decodeSegment`, `decodeIFDBlock` and `encode`. Each method is proved equal to a specification function.
- `Iptc` (iptc.dfy): `unpackSegmentToIRB`, `decodeIRBToIPTC`, `decode`, `encode` and `isEditable`.
- `JpegFraming` (jpeg.dfy): the byte-level grammar `Jpeg::read` accepts and `Jpeg::write` emits.
- `JpegSegments` (segments.dfy): what the `Jpeg` setters do to the list of header segments.
- `MetadataArrays` (arrays.dfy): the PHP arrays that `getIptcData` and `getExifData` return.
- `JpegFile` (jpeg_file.dfy): the class `Jpeg`. Its fields are updated in place, and its loops are methods proved against the functions above.
- `MetadataStore` (metadata.dfy): the class `Metadata`, covering the field store, `stringToArray`, `arrayToString` and `exportIptc`.

## Model

| member | source | states |
|---|---|---|
| Common.TrimProperties | src/Metadata/Iptc.php:198 | trim() gives the infix of its input that starts after the stripped leading bytes; every byte it drops is a strippable one, the result is trimmed, and a trimmed string stays unchanged |
| Common.BE16RoundTrip | src/Metadata/Iptc.php:137 | a 16-bit length written with pack("n") reads back as the length modulo 2^16 |
| Common.BE32RoundTrip | src/Metadata/Iptc.php:164 | a 32-bit length written with pack("N") reads back as the length modulo 2^32 |
| Utf8.Latin1ToUtf8IsUtf8 | src/Metadata/Iptc.php:264-269 | the output of utf8_encode always passes the strict UTF-8 check |
| Utf8.Latin1RoundTrip | src/Metadata/Iptc.php:264-269 | utf8_encode loses nothing: decoding its output gives the Latin-1 input back |
| Utf8.AsciiUnchanged | src/Metadata/Iptc.php:264-269 | ASCII data is already valid UTF-8 and is left as it is |
| TiffValue.ByteAlign | src/Metadata/Exif.php:194-204 | "II" is little-endian, "MM" is big-endian, anything else is DATA_FORMAT_ERROR |
| TiffValue.TypeSize | src/Metadata/Exif.php:319-341 | a size exists exactly for type codes 1..12; other codes are DATA_FORMAT_ERROR |
| TiffValue.TypeSizeValues | src/Metadata/Exif.php:319-341 | sizes 1, 2, 4 and 8 for the byte, short, long and rational/double types |
| TiffValue.UShort | src/Metadata/Exif.php:360-364 | a USHORT read in either byte order is below 65536 |
| TiffValue.DecodeIfdData | src/Metadata/Exif.php:352-413 | decoding succeeds exactly for types 1..12; only types 5 and 10 give rationals |
| TiffValue.DecodeIfdDataValues | src/Metadata/Exif.php:352-413 | unsigned integers and rationals as read; signed integers and both halves of a signed rational congruent to the unsigned reading and within the signed range; ASCII and the raw types as their bytes |
| TiffValue.UShortMirror | src/Metadata/Exif.php:360-364 | the little-endian reading of two bytes is the big-endian reading of the swapped bytes |
| TiffValue.ULongCollision | src/Metadata/Exif.php:372-376 | with the 1677216 weight, two different ULONG fields decode to one number |
| TiffValue.HexDumpGroups | src/Metadata/Exif.php:476-484 | bin2hex gives one two-digit group per byte, in order, separated by single spaces |
| TiffValue.Bin2Hex | src/Metadata/Exif.php:476-484 | the loop computes the hex dump HexDump |
| TiffValue.GetIfdString | src/Metadata/Exif.php:423-445 | unknown types are DATA_FORMAT_ERROR; known types print any matching value |
| TiffValue.GetIfdStringValues | src/Metadata/Exif.php:423-445 | integers print in decimal, rationals as "num/denom", and a non-rational given for a rational type as "N/A" |
| TiffValue.BlockName | src/Metadata/Exif.php:454-467 | a block name exists exactly for the seven IFD pointer tags |
| TiffValue.Hex4Value | src/Metadata/Exif.php:182-185 | the four hex digits of the key recompose the tag |
| TiffValue.TagInjective | src/Metadata/Exif.php:182-185 | distinct (block, tag) pairs get distinct "BLOCK:hhhh" keys |
| Exif.ReadUShort | src/Metadata/Exif.php:257-258 | a USHORT read succeeds exactly when it lies inside the segment |
| Exif.ReadULong | src/Metadata/Exif.php:304-305 | a ULONG read succeeds exactly when it lies inside the segment |
| Exif.DecodeTag | src/Metadata/Exif.php:264-300 | a decoded entry carries its block and tag, and its data range lies inside the segment |
| Exif.DecodeTagLocation | src/Metadata/Exif.php:281-300 | data longer than 4 bytes is read at the offset field and recorded with its size; shorter data is the value field read as a ULONG, recorded at block_pos + 12·index with size 4 as written |
| Exif.Chain | src/Metadata/Exif.php:248-310 | every entry of an IFD chain, including sub-IFDs, is well formed for the segment |
| Exif.ReadBlock | src/Metadata/Exif.php:253-306 | the next-IFD offset of one IFD is non-zero and inside the segment |
| Exif.TagEntries | src/Metadata/Exif.php:275-280 | a pointer tag contributes the entries of its sub-IFD chain |
| Exif.DecodeIfdBlock | src/Metadata/Exif.php:248-310 | the do-while walk computes Chain |
| Exif.ChainFuel | src/Metadata/Exif.php:248-310 | once a chain walk ends without running out of fuel, more fuel gives the same entries or the same error |
| Exif.ReadBlockFuel | src/Metadata/Exif.php:253-307 | one IFD read is the same for every larger fuel unless the fuel ran out |
| Exif.TagEntriesFuel | src/Metadata/Exif.php:273-278 | a sub-IFD pointer's entries are the same for every larger fuel unless the fuel ran out |
| Exif.TagsFuel | src/Metadata/Exif.php:263-300 | the tag loop's entries are the same for every larger fuel unless the fuel ran out |
| Exif.SegmentEntriesFuel | src/Metadata/Exif.php:213-234 | decodeSegment gives the same outcome for every larger fuel unless the fuel ran out |
| Exif.DecodeAllFuel | src/Metadata/Exif.php:112-123 | the per-segment decode gives the same outcome for every larger fuel unless the fuel ran out |
| Exif.DecodingFuel | src/Metadata/Exif.php:112-123 | decode gives the same outcome for every larger fuel unless the fuel ran out |
| Exif.SelfLinkedChain | src/Metadata/Exif.php:253-308 | an IFD whose next-IFD offset is its own position never ends the walk: LOOP_LIMIT for every fuel |
| Exif.DecodeTable | src/Metadata/Exif.php:262-301 | the loop over the tags of one IFD computes Tags |
| Exif.DecodeSegment | src/Metadata/Exif.php:213-235 | a short segment, a bad byte-order mark, a magic number other than 42 and an out-of-range first offset are each DATA_FORMAT_ERROR |
| Exif.DecodeAll | src/Metadata/Exif.php:112-123 | one decoded table per segment, indexed like the segment |
| Exif.Decode | src/Metadata/Exif.php:112-123 | no segments give false, the first failing segment gives its error, and all-empty tables give false |
| Exif.DecodeAllPrefixError | src/Metadata/Exif.php:117-121 | a failing segment makes the whole decode fail with its error |
| Exif.DecodeAllAligned | src/Metadata/Exif.php:112-123 | every decoded data range lies inside its segment, as encode needs |
| Exif.InlineAsciiExample | src/Metadata/Exif.php:287-289 | an inline two-byte ASCII value "AB" decodes to the number 16961 |
| Exif.ExampleChain | src/Metadata/Exif.php:248-310 | a one-tag IFD0 decodes to that single entry |
| Exif.ZeroRange | src/Metadata/Exif.php:164-166 | only bytes ptr .. ptr+size-1 become zero |
| Exif.ZeroEntriesBytes | src/Metadata/Exif.php:156-170 | a byte becomes zero exactly when a targeted entry's range covers it |
| Exif.EncodeBytes | src/Metadata/Exif.php:137-172 | encode fails with INVALID_FIELD_WRITE exactly when an edit names a read-only tag; otherwise lengths are kept and exactly the targeted ranges are zeroed |
| Exif.EncodeIdempotent | src/Metadata/Exif.php:137-172 | encoding the encoded segments again changes nothing |
| Exif.ZeroBytes | src/Metadata/Exif.php:164-166 | the byte loop computes ZeroRange |
| Exif.ZeroRangeTwice | src/Metadata/Exif.php:164-166 | zeroing a range twice is zeroing it once |
| Exif.Encode | src/Metadata/Exif.php:137-172 | the loops compute EncodeSpec |
| Iptc.TagString | src/Metadata/Iptc.php:240 | sprintf("%01d:%03d") has a colon before a three-digit dataset number |
| Iptc.TagStringInjective | src/Metadata/Iptc.php:240 | distinct (record, dataset) pairs print to distinct tags |
| Iptc.EditableTags | src/Metadata/Iptc.php:280-310 | a tag is editable exactly when it is in record 2 among the 23 listed datasets; 1:090, 2:055 and 2:060 are not editable |
| Iptc.EditableCount | src/Metadata/Iptc.php:280-310 | the 23 editable datasets are distinct |
| Iptc.ReadIrb | src/Metadata/Iptc.php:187-211 | a resource block is read or FILE_CORRUPT, and reading advances past the header |
| Iptc.ReadIrbFields | src/Metadata/Iptc.php:187-211 | the id is 16-bit, and the name and data fields have even padded lengths |
| Iptc.PascalNameTrimmed | src/Metadata/Iptc.php:193-197 | a resource name is trimmed and shorter than 256 bytes |
| Iptc.UnpackStep | src/Metadata/Iptc.php:185-213 | each step reads the block after the next "8BIM" and continues after it |
| Iptc.UnpackSegmentToIrb | src/Metadata/Iptc.php:181-215 | the signature loop computes Unpack |
| Iptc.LastEncoding | src/Metadata/Iptc.php:252-257 | an encoding is found exactly when some 1:090 DataSet exists |
| Iptc.FinishProperties | src/Metadata/Iptc.php:252-269 | NOT_IMPLEMENTED exactly for a 1:090 value other than ESC % G; without 1:090, editable data ends up valid UTF-8; everything else is kept |
| Iptc.ReadDataSets | src/Metadata/Iptc.php:232-249 | the DataSet loop computes DataSets |
| Iptc.DecodeIrbToIptc | src/Metadata/Iptc.php:225-271 | the decoder computes DecodedIrbs |
| Iptc.Decode | src/Metadata/Iptc.php:66-73 | the decoder computes Decoded |
| Iptc.KeptMembers | src/Metadata/Iptc.php:90-99 | encode keeps exactly the original non-editable DataSets other than 1:090 |
| Iptc.EditableMembers | src/Metadata/Iptc.php:104-114 | encode takes exactly the caller's DataSets with editable tags |
| Iptc.NewEntriesHead | src/Metadata/Iptc.php:116-125 | NOT_IMPLEMENTED exactly for a foreign encoding; otherwise the first DataSet is 1:090 = ESC % G |
| Iptc.NewEntriesKept | src/Metadata/Iptc.php:87-125 | after the encoding DataSet come the kept originals in order, then only editable DataSets |
| Iptc.NewEntriesSupplied | src/Metadata/Iptc.php:128-131 | caption, copyright and author are always present in the encoded DataSets |
| Iptc.DataSetBytes | src/Metadata/Iptc.php:134-138 | a DataSet is 0x1C, record, dataset, a 16-bit size and the data |
| Iptc.DataSetsShortTail | src/Metadata/Iptc.php:235 | fewer than five trailing bytes hold no DataSet |
| Iptc.DataSetsRoundTrip | src/Metadata/Iptc.php:134-138 | the DataSet block written by encode decodes back to the same DataSets |
| Iptc.LastResource | src/Metadata/Iptc.php:141-144 | the position of the last 0x0404 block, or -1 when there is none |
| Iptc.Placed | src/Metadata/Iptc.php:141-146 | the new IPTC block replaces the last 0x0404 block or is appended; the other blocks are unchanged |
| Iptc.NameField | src/Metadata/Iptc.php:159-161 | a name field is padded to an odd length |
| Iptc.PaddedData | src/Metadata/Iptc.php:164-166 | resource data is padded to an even length |
| Iptc.IrbSignature | src/Metadata/Iptc.php:156 | every packed block starts with "8BIM" |
| Iptc.PackRoundTrip | src/Metadata/Iptc.php:148-167 | unpacking packed blocks gives them back with trimmed names and padded data, and without the empty ones |
| Iptc.Encode | src/Metadata/Iptc.php:83-170 | the encoder computes Encoded |
| Iptc.AssembleEntries | src/Metadata/Iptc.php:87-131 | the entry loops compute NewEntries |
| Iptc.KeepNonEditable | src/Metadata/Iptc.php:90-99 | the loop computes the kept DataSets and the last encoding |
| Iptc.AddEditable | src/Metadata/Iptc.php:104-114 | the loop appends the editable DataSets and flags caption, copyright and author exactly when supplied |
| Iptc.BuildBlock | src/Metadata/Iptc.php:134-138 | the loop computes the DataSet block |
| Iptc.FindLastResource | src/Metadata/Iptc.php:141-144 | the loop finds the last 0x0404 block |
| Iptc.PackIrbs | src/Metadata/Iptc.php:148-167 | the loop computes Pack |
| JpegFraming.SegmentNameApp | src/Metadata/Jpeg.php:443-447 | a name starts with "APP" exactly for markers E0..EF |
| JpegFraming.AppName | src/Metadata/Jpeg.php:443-447 | APPn for E0..E9, and "APP1" plus a digit for EA..EF |
| JpegFraming.SegmentNameKnown | src/Metadata/Jpeg.php:443-447 | APP0, APP1 and APP13 name exactly one marker each |
| JpegFraming.Take | src/Metadata/Jpeg.php:427-434 | dataRead gives the next n bytes, fewer at the end of the file |
| JpegFraming.FindEoi | src/Metadata/Jpeg.php:104 | strpos finds the first FF D9 pair |
| JpegFraming.ParseFramed | src/Metadata/Jpeg.php:52-135 | every header that read accepts fits the segment length fields and has an EOI-free scan |
| JpegFraming.ParseErrors | src/Metadata/Jpeg.php:63-74 | a missing SOI is FILE_TYPE_ERROR; a missing FF after SOI is FILE_CORRUPT |
| JpegFraming.ParseCutAfterMarker | src/Metadata/Jpeg.php:76-121 | a file cut right after a marker still records that segment with empty data; the loop goes on (and the next marker read fails) unless it is a read-only SOS |
| JpegFraming.ParseEmptyImage | src/Metadata/Jpeg.php:52-135 | SOI followed by EOI reads as no segments and an empty scan |
| JpegFraming.SegmentBytes | src/Metadata/Jpeg.php:167-171 | an emitted segment is FF, the marker, the length and the data |
| JpegFraming.SegmentReadBack | src/Metadata/Jpeg.php:82-89 | a written segment reads back with the same marker and data |
| JpegFraming.WriteReadRoundTrip | src/Metadata/Jpeg.php:143-180 | reading what write emits gives the same segments and scan |
| JpegFraming.EmittedStart | src/Metadata/Jpeg.php:162-178 | write emits SOI, the segments, the scan and EOI |
| JpegSegments.IptcPart | src/Metadata/Jpeg.php:198-209 | an APP13 Photoshop segment contributes its data after the header; other segments contribute nothing |
| JpegSegments.IptcPayloadAppend | src/Metadata/Jpeg.php:198-209 | gathering IPTC payloads distributes over concatenation |
| JpegSegments.DropIptcKeeps | src/Metadata/Jpeg.php:254-259 | the delete loop never removes a non-IPTC segment |
| JpegSegments.DropIptcAll | src/Metadata/Jpeg.php:254-259 | without two adjacent IPTC segments, the delete loop removes every IPTC segment |
| JpegSegments.DropIptcSkipsNeighbour | src/Metadata/Jpeg.php:254-259 | of two adjacent IPTC segments the second survives the delete loop |
| JpegSegments.ChunkSegmentsPayload | src/Metadata/Jpeg.php:267-275 | the IPTC payloads of the chunk segments, in order, give back exactly the packed data |
| JpegSegments.ChunkSegmentsShape | src/Metadata/Jpeg.php:267-275 | every chunk is an APP13 segment with the Photoshop header and at most 32000 bytes of packed data |
| JpegSegments.LastAnchor | src/Metadata/Jpeg.php:262-265 | the insertion anchor is the last APP0..APP13 segment, or -1 |
| JpegSegments.IptcReplacedPayload | src/Metadata/Jpeg.php:254-275 | after setIptcData the IPTC payload is exactly the packed data |
| JpegSegments.IptcReplacedFramed | src/Metadata/Jpeg.php:254-275 | setIptcData keeps the header writable and the scan segment last |
| JpegSegments.IptcUpdatedFramed | src/Metadata/Jpeg.php:235-277 | setIptcData keeps the header framed |
| JpegSegments.IptcUpdatedPayload | src/Metadata/Jpeg.php:251-275 | without adjacent IPTC segments, the IPTC payload after setIptcData is exactly what Iptc encode produced |
| JpegSegments.FirstXmp | src/Metadata/Jpeg.php:285-295 | the first XMP segment, or none |
| JpegSegments.XmpSlot | src/Metadata/Jpeg.php:340-345 | a new XMP segment goes after the leading APP0/APP1 segments |
| JpegSegments.XmpRoundTrip | src/Metadata/Jpeg.php:316-348 | after setXmpData with a packet, getXmpSegment gives that packet back |
| JpegSegments.XmpUnsetRemoves | src/Metadata/Jpeg.php:326-336 | unsetting removes the first XMP segment and only it, keeping the others in order (keys renumbered, see Left out) |
| JpegSegments.XmpUnsetAdds | src/Metadata/Jpeg.php:340-347 | unsetting when there is no XMP segment adds an empty one |
| JpegSegments.WithXmpFramed | src/Metadata/Jpeg.php:316-348 | setXmpData keeps the header framed |
| JpegSegments.ExifSegmentsSound | src/Metadata/Jpeg.php:353-365 | each selected payload is the data after the header of an EXIF segment |
| JpegSegments.ExifSegmentsComplete | src/Metadata/Jpeg.php:353-365 | every EXIF segment is selected |
| JpegSegments.ExifRewritten | src/Metadata/Jpeg.php:408-412 | rewriting EXIF payloads keeps every marker and name |
| JpegSegments.ExifRewrittenSegments | src/Metadata/Jpeg.php:408-412 | after rewriting, getExifSegments selects exactly the encoded payloads |
| JpegSegments.ExifUpdatedKeeps | src/Metadata/Jpeg.php:395-413 | setExifData keeps the markers, the framing and the decoded ranges valid |
| MetadataArrays.KeyIndex | src/Metadata/Jpeg.php:225 | the position of a tag among the array's keys, or the end |
| MetadataArrays.AddEntryAt | src/Metadata/Jpeg.php:225 | `$output[$tag][] = $data` appends to the tag's list, or adds a new key at the end |
| MetadataArrays.GroupedValues | src/Metadata/Jpeg.php:217-227 | getIptcData's list for a tag is exactly that tag's data in DataSet order |
| MetadataArrays.GroupedDistinct | src/Metadata/Jpeg.php:217-227 | getIptcData's array has no key twice |
| MetadataArrays.TagDataPresent | src/Metadata/Jpeg.php:217-227 | a tag has data exactly when some DataSet has that tag |
| MetadataArrays.GroupedFlattened | src/Metadata/Jpeg.php:240-248 | flattening an array and grouping it again gives the array back |
| MetadataArrays.ExifMapSnoc | src/Metadata/Jpeg.php:383 | each entry sets or overwrites its own key |
| MetadataArrays.ExifMapKeys | src/Metadata/Jpeg.php:373-387 | getExifData's keys are exactly the keys of the decoded entries |
| MetadataArrays.ExifMapLast | src/Metadata/Jpeg.php:373-387 | a key holds the data of the last entry with that key |
| JpegFile.ReadSegments | src/Metadata/Jpeg.php:63-121 | the reading loop computes Parse, stopping at EOI or once a marker read comes back short (where feof first turns true) |
| JpegFile.SegmentsFit | src/Metadata/Jpeg.php:151-154 | the check passes exactly when every segment fits its 16-bit length |
| JpegFile.EmitSegments | src/Metadata/Jpeg.php:165-172 | the emitting loop computes the header bytes |
| JpegFile.GetIptcSegment | src/Metadata/Jpeg.php:198-209 | the loop computes the concatenated IPTC payload |
| JpegFile.GetXmpSegment | src/Metadata/Jpeg.php:285-295 | the loop finds the first XMP payload |
| JpegFile.GetExifSegments | src/Metadata/Jpeg.php:353-365 | the loop computes ExifSegments |
| JpegFile.GroupEntries | src/Metadata/Jpeg.php:224-226 | the loop computes getIptcData's array |
| JpegFile.FlattenGroups | src/Metadata/Jpeg.php:240-248 | the loop computes the flattened DataSets |
| JpegFile.DeleteIptc | src/Metadata/Jpeg.php:254-259 | the delete loop, as written, computes DropIptc |
| JpegFile.FindAnchor | src/Metadata/Jpeg.php:262-265 | the loop finds the last APP0..APP13 segment |
| JpegFile.InsertIptc | src/Metadata/Jpeg.php:266-275 | the chunks go right after the anchor, in order |
| JpegFile.IptcOf | src/Metadata/Jpeg.php:240-250 | an empty or false array stands for no IPTC data; otherwise its flattened DataSets |
| JpegFile.PlaceXmp | src/Metadata/Jpeg.php:321-347 | the loops compute WithXmp |
| JpegFile.ExifOutput | src/Metadata/Jpeg.php:373-387 | the loops compute getExifData's array |
| JpegFile.UpdateExif | src/Metadata/Jpeg.php:404-412 | encoding and rewriting compute ExifUpdated |
| JpegFile.Jpeg.constructor | src/Metadata/Jpeg.php:30-38 | everything is empty and no data has been read |
| JpegFile.Jpeg.Read | src/Metadata/Jpeg.php:52-135 | a framing error leaves everything empty; otherwise the header and scan are Parse's, the IPTC, XMP and EXIF data are decoded from them, and data counts as read exactly when every decode succeeds |
| JpegFile.Jpeg.Write | src/Metadata/Jpeg.php:143-180 | DATA_NOT_FOUND without data or when read-only, DATA_FORMAT_ERROR for an oversized segment, otherwise the emitted file, which reads back as the same header and scan |
| JpegFile.Jpeg.GetIptcData | src/Metadata/Jpeg.php:217-227 | DATA_NOT_FOUND before a read, false without IPTC, otherwise the grouped DataSets |
| JpegFile.Jpeg.SetIptcData | src/Metadata/Jpeg.php:235-277 | DATA_NOT_FOUND before a read; otherwise the stored DataSets and header are the Iptc-encoded update, and nothing else changes |
| JpegFile.Jpeg.GetXmpData | src/Metadata/Jpeg.php:303-308 | DATA_NOT_FOUND before a read, otherwise the stored XMP packet |
| JpegFile.Jpeg.SetXmpData | src/Metadata/Jpeg.php:316-348 | DATA_NOT_FOUND before a read; otherwise the packet is stored and the header gets WithXmp (removal renumbers, see Left out) |
| JpegFile.Jpeg.GetExifData | src/Metadata/Jpeg.php:373-387 | DATA_NOT_FOUND before a read, false without EXIF, otherwise the key-to-string array |
| JpegFile.Jpeg.SetExifData | src/Metadata/Jpeg.php:395-413 | without EXIF data nothing changes; otherwise the header is the EXIF update or the error is returned |
| MetadataStore.FieldTypeRanges | src/Metadata.php:370-440 | valid ids are 1-4, 101-132, 201 and 301-322; array fields are writable; the writable integer fields are exactly priority and rating |
| MetadataStore.FromValuesIndexed | src/Metadata.php:290-293 | appending values to an unset field keys them 0, 1, 2, … |
| MetadataStore.AppendWellKeyed | src/Metadata.php:286 | `[] =` appends the value under the next key |
| MetadataStore.UnsetWellKeyed | src/Metadata.php:338 | unset keeps the keys of a list increasing |
| MetadataStore.KeyOfSpec | src/Metadata.php:337 | array_search finds the key of the first equal value, or false exactly when there is none |
| MetadataStore.UnsetFound | src/Metadata.php:337-339 | unsetting a found value removes its first occurrence |
| MetadataStore.InvalidIdRefused | src/Metadata.php:230-362 | get, setRW, drop and isSet refuse an invalid id with INVALID_FIELD_ID |
| MetadataStore.SetReadOnlyRefused | src/Metadata.php:271-272 | set refuses a read-only field, with INVALID_FIELD_WRITE when the type check passes |
| MetadataStore.SetWrongTypeRefused | src/Metadata.php:267-270 | a string or integer field refuses a value of another type |
| MetadataStore.SetFalseRemoves | src/Metadata.php:276-279 | setting false drops the field |
| MetadataStore.SetScalarOverwrites | src/Metadata.php:296-298 | a scalar field is overwritten and no other field changes |
| MetadataStore.SetAddsOnce | src/Metadata.php:283-287 | a scalar added to a set array field is appended only when absent, keeps the values distinct, and is then reported by isSet |
| MetadataStore.SetArrayReplaces | src/Metadata.php:288-294 | an array value replaces the field's list, and an empty array leaves the field unset |
| MetadataStore.SetScalarOnUnsetArray | src/Metadata.php:288-294 | a scalar given to an unset array field leaves the store as it is |
| MetadataStore.DropRules | src/Metadata.php:326-343 | dropping a value from a non-array field is INVALID_FIELD_ID; dropping a field unsets it |
| MetadataStore.DropValue | src/Metadata.php:336-339 | dropping a present value removes its first occurrence; dropping an absent one removes key 0 |
| MetadataStore.DropAbsentLosesFirst | src/Metadata.php:337-339 | dropping an absent value from a list loses the list's first element |
| MetadataStore.AddThenDrop | src/Metadata.php:283-339 | adding a new string and dropping it again gives back the original values |
| MetadataStore.OperationsKeepTyped | src/Metadata.php:261-344 | set and drop keep every stored value of its field's type |
| MetadataStore.LastComma | src/Metadata.php:474 | the position of the last comma, or none when there is no comma |
| MetadataStore.ExplodeImplode | src/Metadata.php:474 | explode gives comma-free pieces, and joining them with commas gives the input back |
| MetadataStore.StringToArray | src/Metadata.php:470-480 | the loop computes StringArray |
| MetadataStore.CollectShape | src/Metadata.php:474-479 | the result holds distinct, trimmed, comma-free strings, exactly the trimmed pieces |
| MetadataStore.ArrayToString | src/Metadata.php:488-497 | the loop computes ArrayString |
| MetadataStore.ArrayJoinImplode | src/Metadata.php:491-495 | when the first value is not empty(), the result is the values joined by ", " |
| MetadataStore.ArrayJoinAfterZero | src/Metadata.php:493 | a leading "0" counts as empty(), so no separator follows it |
| MetadataStore.StringArrayRoundTrip | src/Metadata.php:470-497 | stringToArray(arrayToString(ts)) gives back distinct, trimmed, comma-free strings ts |
| MetadataStore.ExportRulesConsistent | src/Metadata.php:635-656 | no IPTC tag gets two different fields, and none writes the supplemental category or the transfer reference |
| MetadataStore.ExportedTag | src/Metadata.php:635-656 | each exported tag holds its field's value exactly when the field is set |
| MetadataStore.ExportedTransfer | src/Metadata.php:667 | the transfer reference is exported exactly when set |
| MetadataStore.SuppSlotsPlaced | src/Metadata.php:657-666 | category A, B and C sit at positions 0, 1 and 2 of the supplemental category |
| MetadataStore.ExportedSupp | src/Metadata.php:657-666 | with the corrected Supp, the exported supplemental category is SuppSlots: each category at its own position |
| MetadataStore.SuppAsWrittenShiftsC | src/Metadata.php:661-666 | as written, category C alone is exported as ["", C] |
| MetadataStore.ExportNothing | src/Metadata.php:669 | setIptcData gets false exactly when no exported field is set |
| MetadataStore.Metadata.constructor | src/Metadata.php:122-127 | an empty store and a Jpeg with no data read |
| MetadataStore.Metadata.Get | src/Metadata.php:230-238 | the method computes GetField |
| MetadataStore.Metadata.IsSet | src/Metadata.php:353-362 | the method computes IsSetField |
| MetadataStore.Metadata.DropAll | src/Metadata.php:313-316 | the store becomes empty |
| MetadataStore.Metadata.Drop | src/Metadata.php:326-343 | the store becomes DropField's result, or is unchanged on error |
| MetadataStore.Metadata.SetRW | src/Metadata.php:261-299 | the store becomes SetField's result, or is unchanged on error |
| MetadataStore.Metadata.Set | src/Metadata.php:247-250 | setRW with the write check |
| MetadataStore.Metadata.ExportIptc | src/Metadata.php:631-669 | the Jpeg gets setIptcData of the exported array (supplemental categories corrected, see Findings); the image data, XMP, EXIF and the read flags stay as they were |

## Left out

- File I/O (`fopen`, `fread`, `feof`, `fwrite`) and file names: read and write take and return the file's bytes. End of file is the end of those bytes; `feof` is true once a read has come back short, as in PHP. FILE_NOT_FOUND and FILE_ERROR from failing `fopen` calls cannot arise.
- `Xmp::decode`/`Xmp::encode` and `XmpDocument` are not part of this model. An XMP packet is opaque bytes, stored as read and written as given.
- `Metadata::read`, `write`, `paste`, `importIptc`, `importXmp`, `exportXmp`, `importExif` and the field lists beyond the store are not part of this model.
- The gettext message texts are left out; only exception codes are modelled.
- Reads past the end of a segment give `Err(FILE_CORRUPT)` or `Err(DATA_FORMAT_ERROR)`. PHP would read `''`/`0` with a warning. Integers inside a value read zeros past its end, as `ord('')` does.
- Exif.Chain: a cycle of IFD offsets would loop forever in the source. The model bounds the walk with a fuel parameter and returns `LOOP_LIMIT` when the fuel runs out. On a long acyclic chain too little fuel gives `LOOP_LIMIT` where the source finishes. Exif.ChainFuel and Exif.DecodingFuel show that every other outcome is the source's, and Exif.SelfLinkedChain shows a self-linked IFD never finishes.
- JpegFile.Jpeg.Read: takes the fuel of the IFD walk as a parameter. With too little fuel it reports `LOOP_LIMIT` where the source would decode the EXIF data (fuel 0 gives `LOOP_LIMIT` for every file with an EXIF segment whose TIFF header is valid). Exif.DecodingFuel shows every other outcome is the same for all larger fuel.
- The ULONG weight 1677216 (for 2^24 = 16777216) is kept as written, because the decoded values depend on it. TiffValue.ULongCollision shows its effect.
- IfdEntry stores the decoded value and its type. The source stores the printed string, which the model gives as `Data()` (TiffValue.GetIfdString).
- JpegFile.Jpeg.SetExifData requires the decoded EXIF ranges to still match the header's EXIF segments. After setIptcData, or setXmpData adding a segment, moves segments, the source writes through stale segment indices. After setXmpData(false) the source's indices stay valid (the removed key is left as a hole), but the model has renumbered the header, so the model does not cover setExifData there.
- JpegSegments.WithXmp: removing the XMP segment closes the gap and renumbers the later segments. The source's `unset` leaves a hole in the header's keys. Writing right after the removal gives the same bytes, because write walks the header with `foreach`. Later `count`-based loops (getIptcSegment, the IPTC deletion loop, getXmpSegment, getExifSegments) stop one key short and read the hole as null. The IPTC insertion point counted from `count - 1` then lands one place earlier. Example: APP0, XMP, APP1 (EXIF), DQT, SOS, then setXmpData(false) and setIptcData. The source gives APP0, APP1, DQT, APP13, SOS; the model gives APP0, APP1, APP13, DQT, SOS.
- JpegFile.Jpeg.SetXmpData and JpegFile.PlaceXmp: removal is modelled as in JpegSegments.WithXmp, so the hole the source's `unset` leaves is not captured.
- The EXIF edit keys (`"BLOCK:hhhh"` parsed by `explode`/`hexdec`) are given as (block, tag) pairs. The artist's `implode` of an array value is not modelled, because encode only zero-fills.
- JpegSegments.ChunkSegments: IPTC data over 32000 bytes is split into consecutive 32000-byte APP13 segments after the anchor. The source's `array_splice` there receives the segment's fields as a plain array, so it inserts three separate values instead of one segment; the model inserts the segment. The single-chunk path is modelled as written.
- Iptc.PackRoundTrip: names longer than 255 bytes and data longer than 2^32-1 bytes (truncated by `pack`) are excluded.
- DataSets longer than 65535 bytes are excluded from Iptc.DataSetsRoundTrip, because `pack("n")` truncates their size.
- IPTC tags are (record, dataset) pairs. The "r:ddd" string is Iptc.TagString, proved injective.
- MetadataStore.Metadata.ExportIptc: the supplemental categories are exported through the corrected Supp (see Findings). With only SUPP_CATEGORY_C set, the source writes ['', C] (MetadataStore.SuppAsWrittenShiftsC); the model writes ['', '', C].
- MetadataStore.Metadata.IsSet and Drop take the value to look for as a string only. Array field elements are strings or integers.
- Calling isSet or drop with a value on an unset field passes `null` to `array_search`. The model returns `Err(TYPE_ERROR)`.
- `in_array(..., strict: true)` and `array_search(..., strict: true)` compare by type and value, as the model's Scalar equality does.

## Findings

| source | as written | input that shows it | evidently intended | confidence | as-written member | corrected member |
|---|---|---|---|---|---|---|
| src/Metadata.php:657-666 | With only SUPP_CATEGORY_C set, the supplemental category array is {1: '', 2: C}. No placeholder goes at 0, so setIptcData writes the DataSets ['', C] and C reads back as category B. | only SUPP_CATEGORY_C set | each category at its own position: ['', '', C] | not executed | MetadataStore.SuppAsWrittenShiftsC | MetadataStore.ExportedSupp |
