# hldsinfo A2S_INFO decoder, in Dafny

hldsinfo queries a Half-Life / Source dedicated server with the Valve
A2S_INFO request and decodes the single-packet reply into an `Info` record.
This project models the part of `hldsinfo/hldsinfo.go` that works on bytes:

- **the request**: the 25-byte `a2sInfo` datagram (`HldsInfo.A2SInfo`).
- **the byte cursor**: `buffer` with `readByte`, `readChar`, `readUInt16`,
  `readUInt32`, `readUInt64` and `readString`. `Cursor.Buffer` is a class
  over the receive array, with the received length `n` and a mutable
  `offset`. Each read method follows the Go code, including the counted
  loop of `readUInt16/32/64` and the loop of `readString` that runs until a
  NUL, and is proved equal to a pure function of the received bytes (`ByteAt`, `CharAt`,
  `UIntAt`, `StringAt`).
- **the decode part of `Get`**: this starts once `conn.Read` has filled the
  buffer. `HldsInfo.Decode` runs the reads through the cursor in the order
  `Get` does: the marker check, the header check, the fifteen base fields,
  then the optional fields EDF (extra data flag) selects, in the order 0x80,
  0x10, 0x40, 0x20, 0x01. It is proved equal to the function
  `HldsInfo.Parse`, which is built from `Response`, `BaseAt` and `ExtraAt`.
- **the records**: `Info` and `InfoExtra` are datatypes. Go's byte is
  `Wire.Byte` (0..255). `uint16`, `uint32` and `uint64` are bounded
  newtypes. Go strings are byte sequences.

`Codec` adds a reference encoder. `Encode` lays out a record the way a
server would, as a list of fields (`BaseFields`, `ExtraFields`, `Layout`).
`Codec` then proves these properties of the decoder:

- It decodes every well-formed record from its encoding (`RoundTrip`).
- A successful decode consumed exactly the encoding of what it returned
  (`ReEncode`).
- Trailing bytes are ignored.
- A truncated reply fails with `EOF`.
- A wrong marker or header fails with `UnexpectedResponse`, and this is the
  only way to get that error.
- An optional field whose EDF bit is clear stays zero.

## Model

| member | source | states |
|---|---|---|
| Wire.LeBytesDecodes | hldsinfo/hldsinfo.go:81-125 | any value that fits in `w` bytes comes back from its `w`-byte little-endian layout (byte i carries bits 8i..8i+7) |
| Wire.LittleEndianEncodes | hldsinfo/hldsinfo.go:81-125 | any byte sequence is the little-endian layout of the value the shift-and-or combination gives, so no two layouts of one width decode to the same value |
| Wire.CharString | hldsinfo/hldsinfo.go:76 | Go's `string(byte)` is a one- or two-byte UTF-8 string that encodes the byte back |
| Wire.CharStringOnto | hldsinfo/hldsinfo.go:76 | every one- or two-byte UTF-8 string of a code point below 0x100 is `string(b)` for the byte it encodes |
| Cursor.UIntAt | hldsinfo/hldsinfo.go:81-125 | an integer read of `w` bytes succeeds exactly when `w` bytes remain; it then advances the offset by `w` and yields a value below 256^w; otherwise it fails with EOF |
| Cursor.StringAtSpec | hldsinfo/hldsinfo.go:127-140 | a string read succeeds exactly when a NUL follows the offset; it returns the NUL-free bytes before the first NUL and stops just past that NUL |
| Cursor.StringFromWindow | hldsinfo/hldsinfo.go:127-140 | a NUL-free string followed by a NUL is read back exactly, and the offset ends past the NUL |
| Cursor.StringTruncated | hldsinfo/hldsinfo.go:130-133 | a string whose terminating NUL is cut off fails with EOF |
| Cursor.UIntAtLayout | hldsinfo/hldsinfo.go:81-125 | the value of a successful integer read is the one whose little-endian layout is the bytes consumed |
| Cursor.Buffer.constructor | hldsinfo/hldsinfo.go:162-170 | the cursor starts at offset 0 over the first `n` received bytes (`buf.data[:n]`) |
| Cursor.Buffer.ReadByte | hldsinfo/hldsinfo.go:63-70 | returns the byte at the offset and advances by one; at the end it fails with EOF and the offset does not move |
| Cursor.Buffer.ReadChar | hldsinfo/hldsinfo.go:72-79 | returns `string(b)` of the byte at the offset and advances by one; at the end it fails with EOF and the offset does not move |
| Cursor.Buffer.ReadLittleEndian | hldsinfo/hldsinfo.go:81-125 | the shared loop of the integer reads: the result agrees with `UIntAt`; on EOF the bytes read so far stay consumed, so the offset is at the end |
| Cursor.Buffer.ReadUInt16 | hldsinfo/hldsinfo.go:81-92 | agrees with the 2-byte little-endian read; on EOF the offset is at the end |
| Cursor.Buffer.ReadUInt32 | hldsinfo/hldsinfo.go:93-106 | agrees with the 4-byte little-endian read; on EOF the offset is at the end |
| Cursor.Buffer.ReadUInt64 | hldsinfo/hldsinfo.go:108-125 | agrees with the 8-byte little-endian read; on EOF the offset is at the end |
| Cursor.Buffer.ReadString | hldsinfo/hldsinfo.go:127-140 | the loop agrees with `StringAt`: the bytes before the first NUL, with the offset past the NUL; EOF with the offset at the end when no NUL remains |
| HldsInfo.MarkerValue | hldsinfo/hldsinfo.go:177 | the four 0xFF bytes read as a little-endian uint32 are `^uint32(0)` |
| HldsInfo.RequestPayload | hldsinfo/hldsinfo.go:44 | the request is 25 bytes: the all-ones marker, then "TSource Engine Query" ending in its NUL at the last byte |
| HldsInfo.Decode | hldsinfo/hldsinfo.go:170-303 | the cursor-driven decode of the received bytes equals `Parse` of `received[..n]`, on success and on each error |
| HldsInfo.DecodeBase | hldsinfo/hldsinfo.go:189-262 | the fifteen base-field reads through the cursor agree with `BaseAt`, including where the offset ends |
| HldsInfo.DecodeExtra | hldsinfo/hldsinfo.go:264-301 | the EDF-guarded reads agree with `ExtraAt`: a block runs only when its bit is set, and an absent field keeps its zero value |
| Codec.BaseOrder | hldsinfo/hldsinfo.go:189-262 | a successful base decode read protocol, name, map, folder, game, id, players, max players, bots, server type, environment, visibility, VAC, version and EDF in that order, each starting where the previous one stopped |
| Codec.BaseFromWindow | hldsinfo/hldsinfo.go:189-262 | base fields laid out at an offset are decoded to exactly that record, and decoding stops at the end of the layout |
| Codec.BaseToWindow | hldsinfo/hldsinfo.go:189-262 | a successful base decode consumed exactly the layout of the fields it returned |
| Codec.ExtraFromWindow | hldsinfo/hldsinfo.go:264-301 | the optional fields EDF selects, laid out in the order 0x80, 0x10, 0x40, 0x20, 0x01, are decoded back exactly |
| Codec.ExtraToWindow | hldsinfo/hldsinfo.go:264-301 | a successful optional-field decode consumed exactly the layout of the fields EDF selects, and a field whose bit is clear is zero |
| Codec.MarkerLayout | hldsinfo/hldsinfo.go:177 | the little-endian layout of `^uint32(0)` is the four 0xFF bytes |
| Codec.MarkerCheck | hldsinfo/hldsinfo.go:172-179 | given four bytes, the marker read succeeds, and it passes the all-ones test exactly when those bytes are 0xFF 0xFF 0xFF 0xFF |
| Codec.HeaderVerdict | hldsinfo/hldsinfo.go:172-187 | a decode fails with UnexpectedResponse exactly when the marker or the header byte 0x49 is wrong; every other failure is EOF; a success began with the marker and 0x49 |
| Codec.RoundTrip | hldsinfo/hldsinfo.go:170-303 | every well-formed record is decoded from any datagram that begins with its encoding, and decoding stops at the end of the encoding |
| Codec.ReEncode | hldsinfo/hldsinfo.go:170-303 | a successful decode returns a well-formed record whose encoding is exactly the prefix it consumed |
| Codec.TrailingIgnored | hldsinfo/hldsinfo.go:170-303 | appending bytes to a decodable reply does not change the decoded record |
| Codec.PrefixDecodes | hldsinfo/hldsinfo.go:170-303 | if a prefix of a datagram decodes, the whole datagram decodes to the same record |
| Codec.TruncatedFails | hldsinfo/hldsinfo.go:170-303 | cutting a decodable reply anywhere before the end of what it consumed makes the decode fail with EOF, never with a partial record |
| Codec.AbsentStaysZero | hldsinfo/hldsinfo.go:264-301 | in every decoded record, each optional field whose EDF bit is clear is zero or empty |
| Codec.PortOnly | hldsinfo/hldsinfo.go:264-269 | EDF 0x80 followed by the bytes 88 69 decodes to port 27016 and no other optional field |
| Codec.ClearUnusedKeepsFlags | hldsinfo/hldsinfo.go:264-301 | clearing EDF bits 0x02, 0x04 and 0x08 leaves each of the five tests `edf&0x80`, `edf&0x10`, `edf&0x40`, `edf&0x20`, `edf&0x01` unchanged |
| Codec.UnusedBitsIgnored | hldsinfo/hldsinfo.go:264-301 | the EDF bits 0x02, 0x04 and 0x08 select no field: the optional-field decode, and where it stops, are the same with them cleared |

## Left out

- Network I/O in `Get` (hldsinfo/hldsinfo.go:143-169): dialling, deadlines, writing the request and `conn.Read` are outside the model. `Decode` takes the receive array and the byte count `n` that `conn.Read` returned as parameters. The Go socket error values are not modelled.
- `writeAllDeadline` (hldsinfo/hldsinfo.go:51-61) writes to a socket and is not modelled. Its loop bound uses `len(a2sInfo)` rather than `len(data)`; with its only caller the two are equal.
- `fetcher.go` and `cmd/main.go` are not part of this model. They handle concurrent fetching, command-line handling and JSON output.
- The JSON tags and `omitempty` on `Info` and `InfoExtra` affect output only, and are not modelled.
- HldsInfo.Decode: the 1024-byte receive buffer of `Get` is modelled as any array, with `n` at most its length.
- HldsInfo.Decode: Go fills one `new(Info)` field by field. The model builds the record value once all the reads have succeeded. On an error Go returns `nil` and discards the partial record, so the result is the same.
- HldsInfo.Has: Go's `edf&bit != 0` is written as an arithmetic test of the one bit of `edf` that `bit` selects. This is the same for the single-bit masks 0x80, 0x10, 0x40, 0x20 and 0x01 the decoder uses.
- Wire.CharString: Go's `string(byte)` is written out as its UTF-8 encoding with arithmetic in place of shifts. Strings read by `readString` are raw bytes, with no UTF-8 validation, exactly as Go keeps them.
- Port 27016 is laid out little-endian as `88 69`; the bytes `28 69` would read as 26920 (`Codec.PortOnly`).
