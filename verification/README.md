# Download list serializer and self-referential header

A Dafny model of the part of NintendoChannel's `dllist` package that turns a
populated download `List` into the bytes of `dllist.bin`:

- `List.Write` / `List.WriteAll`: the header, then twelve tables in a fixed
  order, each emitted by `binary.Write` in big-endian with nothing between
  them. Two of the tables are `uint32` index tables.
- `List.GetCurrentSize`: the serialized length plus the accumulated image
  buffer, truncated to `uint32`.
- The three-pass write inside `MakeDownloadList`. Pass one learns the length
  and stores it in `Header.Filesize`. Pass two is checksummed with
  CRC-32/IEEE, and the checksum goes into `Header.CRC32`. Pass three gives
  the published bytes.

Modules, one file each:

| module | file | models |
|---|---|---|
| `Wrappers` | wrappers.dfy | `Option` with failure propagation |
| `BigEndian` | big_endian.dfy | bytes, `uint32`, the big-endian 4-byte field codec, overwriting one field in place |
| `Layout` | layout.dfy | `Schema`: the byte width of each record type and the header offsets of `Filesize` and `CRC32` |
| `Header` | header.dfy | the header as its two self-referential fields plus the opaque bytes of all other fields |
| `Tables` | tables.dfy | fixed-width record tables and `uint32` index tables, with their readers |
| `DownloadList` | dllist.dfy | the `List` struct, `WriteAll`, `GetCurrentSize`, and a reader that inverts `WriteAll` |
| `Crc32` | crc32.dfy | bitwise CRC-32 with the IEEE 802.3 polynomial |
| `SelfReference` | protocol.dfy | the three-pass write and what it guarantees to a consumer |

The Go struct definitions of `Header` and of the table record types are not
part of this model. So record contents are opaque byte strings, and every
result holds for every `Schema` whose two header fields lie inside the header
without overlapping. The protocol lemmas take the checksum as a parameter
`crc: Bytes -> uint32`, so they hold for any checksum function. `Build`
instantiates that parameter with the bitwise CRC-32/IEEE of ITU-T V.42
section 8.1.1.6.2 (reflected polynomial 0xEDB88320, register preset to all
ones, final register inverted). Its standard check value is proved.

The build state of a `List` (region, rating group, language, the
recommendation working map and the image buffer) is carried in `State`.
`WriteAll` never emits it.

## Model

| member | source | states |
|---|---|---|
| BigEndian.ToUint32 | dllist/dllist.go:131 | Go's `uint32(n)` of a length keeps it when it is below 2^32 and otherwise differs from it by a multiple of 2^32, never exceeding it |
| BigEndian.EncodeU32 | dllist/dllist.go:161 | `binary.Write` of a `uint32` in big-endian emits four bytes; `DecodeEncodeU32` and `EncodeDecodeU32` pin them to the value |
| BigEndian.DecodeEncodeU32 | dllist/dllist.go:160-163 | reading back the four big-endian bytes `binary.Write` emits for a `uint32` gives the value |
| BigEndian.EncodeDecodeU32 | dllist/dllist.go:160-163 | every four bytes are the big-endian encoding of exactly one `uint32`, so the codec is a bijection |
| BigEndian.StampRestores | dllist/dllist.go:137-140 | overwriting a 4-byte header field and then writing its old value back restores the original bytes |
| Tables.EncodeRecords | dllist/dllist.go:160-163 | a table of fixed-width records encodes to count times width bytes |
| Tables.TakeEncodedRecords | dllist/dllist.go:160-163 | the records of a table are read back from its encoding in slice order, whatever bytes follow |
| Tables.TakeRecordsSplits | dllist/dllist.go:160-163 | whenever a reader takes n records from some bytes, those bytes are the encoding of those records followed by the unread rest |
| Tables.EncodeIndex | dllist/dllist.go:30 | a `uint32` index table takes four bytes per entry |
| Tables.TakeEncodedIndex | dllist/dllist.go:30 | a `uint32` index table (`NewTitleTable`, `RecommendationTable`) is recovered entry by entry from its big-endian encoding |
| Tables.TakeIndexSplits | dllist/dllist.go:34 | bytes from which n index entries are read are those entries' encoding followed by the rest |
| Header.Encode | dllist/dllist.go:166 | the header encodes to a fixed number of bytes, with `Filesize` and `CRC32` big-endian at their offsets and every other header byte taken from the other fields |
| Header.DecodeEncode | dllist/dllist.go:166 | a header whose unused slot bytes are zero is recovered from its encoding |
| Header.EncodeDecode | dllist/dllist.go:166 | every header-sized byte string is the encoding of the header decoded from it |
| Header.EncodeWithCrc | dllist/dllist.go:137 | setting `CRC32` changes the encoded header only in the four `CRC32` bytes |
| Header.EncodeWithFilesize | dllist/dllist.go:131 | setting `Filesize` changes the encoded header only in the four `Filesize` bytes |
| DownloadList.WriteAll | dllist/dllist.go:165-179 | the output is as long as the header plus, per table, count times record width, and it starts with the encoded header |
| DownloadList.ParseWriteAll | dllist/dllist.go:165-179 | reading the output of `WriteAll` back, header first and then the twelve tables in their write order, gives back every field of the list, with no padding or separators; only the build state is lost |
| DownloadList.WriteAllParse | dllist/dllist.go:165-179 | any bytes the reader accepts are exactly what `WriteAll` emits for the list it reads, so `WriteAll` and the reader are inverse |
| DownloadList.WriteAllIgnoresState | dllist/dllist.go:165-186 | the build state, the image buffer included, never reaches `WriteAll`'s output; only `GetCurrentSize` adds the image bytes |
| DownloadList.CurrentSize | dllist/dllist.go:183-189 | `GetCurrentSize` is the serialized length plus the image-buffer length, reduced modulo 2^32, and exact below 2^32 |
| DownloadList.Parse | dllist/dllist.go:23-46 | a list read from bytes has every record at its type's width, a canonical header, the requested table counts and no build state |
| SelfReference.Run | dllist/dllist.go:129-140 | pass one serializes the input list, all three passes have the same length, the final bytes are the serialization of the resulting list, and the list differs from its input only in `Filesize` and `CRC32` |
| SelfReference.Build | dllist/dllist.go:135-140 | with CRC-32/IEEE, a list whose `CRC32` starts at zero and whose serialized length is below 2^32 is published in a form a consumer accepts |
| SelfReference.HeaderFieldsOfWriteAll | dllist/dllist.go:165-166 | the `Filesize` and `CRC32` fields read from the serialized bytes are the header's values |
| SelfReference.WriteAllWithCrc | dllist/dllist.go:137-140 | serializing after a `CRC32` change gives the earlier bytes with only the `CRC32` field overwritten |
| SelfReference.WriteAllWithFilesize | dllist/dllist.go:131-133 | serializing after a `Filesize` change gives the earlier bytes with only the `Filesize` field overwritten |
| SelfReference.PassesDifferByOneField | dllist/dllist.go:129-140 | pass two is pass one with `Filesize` stamped; the final pass is pass two with `CRC32` stamped, so all table bytes and other header bytes agree |
| SelfReference.FilesizeMatchesFinal | dllist/dllist.go:131-140 | when the serialized length is below 2^32, the published `Filesize`, in the list and in the bytes, is the exact length of the published bytes |
| SelfReference.FilesizeWraps | dllist/dllist.go:131 | the published `Filesize` is the length modulo 2^32, and differs from the length once the list reaches 4 GiB |
| SelfReference.ChecksumOverSecondPass | dllist/dllist.go:133-140 | the published `CRC32` is the checksum of pass two, which is the published bytes with `CRC32` restored to its value before the protocol |
| SelfReference.ReaderAccepts | dllist/dllist.go:129-140 | a list whose `CRC32` starts at zero and whose serialized length is below 2^32 passes the consumer's length and checksum check |
| SelfReference.AcceptsExactly | dllist/dllist.go:129-140 | when the serialized length is below 2^32, the consumer accepts the published bytes if and only if checksumming them with `CRC32` zeroed gives the checksum of pass two |
| SelfReference.StaleChecksumRejected | dllist/dllist.go:129-140 | if `CRC32` was not zero before the protocol and the checksum tells that value from zero, the consumer's check rejects the published bytes, at any length (from 4 GiB on the wrapped `Filesize` already fails it) |
| SelfReference.RerunIsStable | dllist/dllist.go:129-140 | for a list whose `CRC32` starts at zero, rerunning the protocol on its own result, with `CRC32` cleared, gives the same second pass, published bytes and list |
| Crc32.Ieee | dllist/dllist.go:135-136 | the CRC-32/IEEE of the empty input is zero, the preset and the final inversion cancelling; its value on the standard check string is `CheckValue` |
| Crc32.UpdateAppend | dllist/dllist.go:135-136 | a property of the CRC definition: feeding `a + b` through the register equals feeding `a` and then continuing from that register over `b`, so the register is the whole state between bytes |
| Crc32.CheckValue | dllist/dllist.go:135-136 | CRC-32/IEEE of the ASCII string "123456789" is 0xCBF43926, the standard check value |

## Left out

- Worker orchestration (goroutines, the channel semaphore, `sync.WaitGroup`): concurrency; the model handles one region and language at a time.
- The database pool, `gametdb.PrepareGameTDB` and `info.GetTimePlayed`: external services; the model starts from a populated `List`.
- The table builders (`MakeHeader`, `MakeRatingsTable`, … `WriteRatingImages`, `QueryRecommendations`): their code is not part of this model, so their output is the input `List`.
- Record field layouts of `Header` and the table types: their code is not part of this model; records are opaque fixed-width bytes and `Schema` gives the widths and the two header offsets.
- Whether index-table entries point at valid offsets in their target tables: the builders decide that, and the serializer writes the values as given.
- `lz10.Compress` and `os.WriteFile`: a foreign library and file I/O.
- `checkError`, `log.Fatalf` and console output: process termination and I/O. `binary.Write` fails only for types that are not fixed-size, and a `bytes.Buffer` never refuses a write, so no error path is modelled for `Write`.
- Go's table-driven `hash/crc32` (`MakeTable`, `Checksum`): the model uses the bitwise definition of the same CRC instead.
- The recommendation working map is carried in `State` but not interpreted: only the table builders use it.
- SelfReference.ReaderAccepts: requires `CRC32` to be zero before the protocol. `MakeDownloadList` builds the list with a zero-valued `Header` (dllist/dllist.go:104-110), so `CRC32` is zero unless `MakeHeader` (dllist/dllist.go:114), whose code is not part of this model, writes it; nothing clears it before the first pass. `StaleChecksumRejected` shows what happens otherwise.
- SelfReference.FilesizeMatchesFinal: requires the serialized length (the image buffer is not part of it) to stay below 2^32, because `uint32(temp.Len())` wraps; `FilesizeWraps` covers the other case.
