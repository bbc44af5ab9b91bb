# libpafe core in Dafny

A model of the core of libpafe, a Rust library that talks to Sony PaSoRi
readers (RC-S310, RC-S320, RC-S330) and to the FeliCa cards on them. The
model covers:

- **Byte and checksum layer** (`Bytes`, `Checksum`, `Parser`): `u8`/`u16`,
  the length and data checksums, and the bounds-checked little-endian
  readers that every decoder uses.
- **Wire frame** (`Frame`): `Frame::encode` / `Frame::decode` of the frame
  `00 00 FF | LEN | LCS | payload | DCS | 00`, with every error the
  decoder can report.
- **Identifiers and hex** (`Types`, `Hex`): IDm, PMm, system codes,
  service codes, block elements and block data, and the hex helpers
  (`bytes_to_hex`, `bytes_to_hex_spaced` and `parse_hex`).
- **FeliCa commands and responses** (`Commands`, `Responses`, `Codec`):
  the encoders of Polling, Read/Write Without Encryption, Request Service,
  Request Response and Search Service Code, the matching response
  decoders, and the response-code dispatch of `Response::decode`.
- **Reply extraction for the RC-S330** (`Scan`, `Pn533`, `Rcs956`,
  `S330`): the heuristics that dig FeliCa frames out of a PN533 reply
  (`extract_felica_frame`, `extract_all_felica_frames`), the variant kept
  under `rcs956/`, and the S330 wrapper around an `InCommunicateThru`.
- **Mock transport and handshakes** (`Mock`, `S310Model`, `S320Model`):
  the mock transport as an immutable state, and the retry loops of the
  S310 and S320 `initialize`, stated against it.
- **Cards** (`Cards`, `CardOperations`, `CardApi`): the `Card` record and
  its accessors, the card operations (read, write, service listing,
  service versions, response mode, system codes) and the type guard on
  `Card`. `Device::execute` is a parameter `exec` mapping a command to a
  decoded response or an error. Each operation reports the command it
  handed to `exec`, if any, together with its result.

Every operation is a pure function, or a method whose loop is proved.
Each is paired with a partner, proved over all inputs. The partners are
the inverse codec, a reference definition of what the heuristic finds,
or the state the mock must be left in.

Where the library's own description and its code differ, the model
follows the code:

- `Frame::encode` rejects a payload longer than 255 bytes. There is no
  extended-length frame form.
- A command's payload has no leading length byte.
- The response decoders do not check a response's IDm against the
  request's. Only the service-version, response-mode and system-code
  operations check it, and they report a mismatch as
  `UnexpectedResponse`. The service listing does not check it: an
  answer that carries another card's IDm is accepted.
- A block element is always three bytes: the service index, the access
  mode and the low byte of the block number. There is no two-byte form,
  and the high byte of the block number is dropped.

## Model

| member | source | states |
|---|---|---|
| Bytes.LeRoundTrip | libpafe/src/types.rs:87-92 | reading back the two little-endian bytes of a 16-bit value gives the value |
| Bytes.LeRoundTripBytes | libpafe/src/types.rs:87-92 | the little-endian bytes of the value read from two bytes are those two bytes |
| Bytes.ToLeInjective | libpafe/src/types.rs:87-88 | distinct 16-bit values have distinct little-endian encodings |
| Checksum.Lcs | libpafe/src/protocol/checksum.rs:5-7 | the length checksum cancels the length modulo 256, and is 0 exactly for length 0 |
| Checksum.WrappingSumIsSumMod | libpafe/src/protocol/checksum.rs:11-14 | the byte-wise wrapping fold of the payload is its full sum modulo 256 |
| Checksum.Dcs | libpafe/src/protocol/checksum.rs:11-14 | the data checksum cancels the payload's byte sum modulo 256 |
| Checksum.ChecksumUnique | libpafe/src/protocol/checksum.rs:5-14 | a checksum byte is determined by what it cancels: two bytes that cancel the same total are equal |
| Checksum.DcsPermutation | libpafe/src/protocol/checksum.rs:11-14 | the data checksum does not depend on the order of the payload bytes |
| Checksum.ChecksumVectors | libpafe/src/protocol/checksum.rs:20-31 | the unit-test values of both checksums |
| Frame.Encode | libpafe/src/protocol/frame.rs:16-33 | a payload over 255 bytes is `InvalidLength(255, n)`; any other payload gives a valid frame whose payload slot holds it |
| Frame.Decode | libpafe/src/protocol/frame.rs:36-88 | the first failing check, in the source's order, names the error: under 7 bytes `InvalidLength(7, n)`, a wrong preamble `FrameFormat("invalid preamble")`, a wrong LCS `ChecksumMismatch(lcs(LEN), LCS)`, a length other than 7 + LEN `InvalidLength(7 + LEN, n)`, a wrong DCS `ChecksumMismatch(dcs(payload), DCS)`, a wrong postamble `FrameFormat("invalid postamble")`; success returns the payload slot, as long as the length byte says |
| Frame.DecodeAcceptsValidFrames | libpafe/src/protocol/frame.rs:36-88 | decoding succeeds exactly on frames with preamble, matching length, LEN+LCS and payload+DCS summing to 0 modulo 256, and postamble |
| Frame.RoundTrip | libpafe/src/protocol/frame.rs:96-111 | decoding the encoding of any payload of at most 255 bytes gives the payload back |
| Frame.DecodeIffEncode | libpafe/src/protocol/frame.rs:16-88 | a frame decodes to a payload exactly when it is that payload's encoding: every payload has one frame |
| Frame.SingleByteCorruptionRejected | libpafe/src/protocol/frame.rs:36-88 | changing any one byte of an encoded frame makes decoding fail: a preamble byte with `FrameFormat("invalid preamble")`, LEN, LCS, a payload byte or DCS with `ChecksumMismatch`, the postamble with `FrameFormat("invalid postamble")` |
| Frame.CorruptedFrameInvalid | libpafe/src/protocol/frame.rs:45-85 | a valid frame with any one byte changed is no longer valid |
| Frame.DataByteCorrupted | libpafe/src/protocol/frame.rs:74-81 | changing a payload or DCS byte breaks the data checksum |
| Frame.AckRejected | libpafe/src/protocol/frame.rs:38-43 | the six-byte ACK is rejected as too short for a frame |
| Frame.FrameVectors | libpafe/src/protocol/frame.rs:114-154 | the unit-test frames: an encoding, an LCS and a DCS mismatch, an invalid preamble |
| Parser.EnsureLen | libpafe/src/protocol/parser.rs:7-15 | succeeds exactly when the data has the minimum length, else `InvalidLength(min, len)` |
| Parser.LeU16At | libpafe/src/protocol/parser.rs:18-21 | succeeds exactly when two bytes are there, with the value whose little-endian bytes they are; else `InvalidLength(i + 2, len)` |
| Parser.SliceAt | libpafe/src/protocol/parser.rs:24-27 | succeeds exactly when the slice fits, returning exactly those bytes; else `InvalidLength(i + len, len)` |
| Parser.IdmAt | libpafe/src/protocol/parser.rs:30-33 | succeeds exactly when eight bytes are there, and the IDm holds them |
| Parser.PmmAt | libpafe/src/protocol/parser.rs:38-41 | succeeds exactly when eight bytes are there, and the PMm holds them |
| Parser.ByteAt | libpafe/src/protocol/parser.rs:44-47 | succeeds exactly inside the data, with the byte there; else `InvalidLength(i + 1, len)` |
| Parser.ExpectResponseCode | libpafe/src/protocol/parser.rs:51-59 | succeeds exactly when the first byte is the expected code; empty data is `InvalidLength(1, 0)`, another code `UnexpectedResponse(expected, actual)` |
| Types.IdmFrom | libpafe/src/types.rs:24-38 | accepts exactly an 8-byte slice and keeps its bytes; any other length is `InvalidLength(8, n)` |
| Types.PmmFrom | libpafe/src/types.rs:54-68 | the same rule for the PMm |
| Types.SystemCodeFromLe | libpafe/src/types.rs:91-93 | the system code read from two bytes writes back to those two bytes |
| Types.SystemCodeRoundTrip | libpafe/src/types.rs:87-93 | reading back a system code's little-endian bytes gives the system code |
| Types.ToAsciiSafe | libpafe/src/types.rs:129-140 | sixteen printable characters: a byte from 0x20 to 0x7E shows as itself, exactly those do, and every other byte shows as `'.'` |
| Types.FromProductId | libpafe/src/types.rs:152-159 | a model is found only for its own product id, and none exactly when no model has that id |
| Types.ProductIdRoundTrip | libpafe/src/types.rs:152-159 | every model is found from its own product id |
| Types.AccessModeByteInjective | libpafe/src/types.rs:172-176 | two access modes have the same byte value exactly when they are the same mode |
| Types.BlockElementEncodeIff | libpafe/src/types.rs:196-202 | two block elements encode alike exactly when service index, access mode and the low byte of the block number agree: the high byte is dropped |
| Types.TypesVectors | libpafe/src/types.rs:223-265 | the unit-test values: element encodings, product ids, system and service code bytes |
| Hex.BytesToHexLayout | libpafe/src/utils/hex.rs:10-18 | each byte becomes its two lower-case hex digits, high nibble first, in order |
| Hex.BytesToHexSpaced | libpafe/src/utils/hex.rs:24-34 | no bytes give the empty string; otherwise three characters per byte, less one |
| Hex.BytesToHexSpacedLayout | libpafe/src/utils/hex.rs:24-34 | each byte's two digits at every third position, with one space between neighbours |
| Hex.RemoveWhitespaceMeaning | libpafe/src/utils/hex.rs:42-47 | the cleaned string has no whitespace, and cleaning changes a string exactly when it has some |
| Hex.Utf8Char | libpafe/src/utils/hex.rs:49 | a character takes one to four UTF-8 bytes, one exactly when it is ASCII, and an ASCII character is its own byte |
| Hex.DigitValue | libpafe/src/utils/hex.rs:58-59 | exactly `0-9`, `a-f` and `A-F` have a value, below 16, and its lower-case digit is the given digit in lower case |
| Hex.PairValue | libpafe/src/utils/hex.rs:53-58 | two hex digits parse as 16 × high + low; a `'+'` sign before one digit gives that digit's value; anything else does not parse |
| Hex.ParsePairsMeaning | libpafe/src/utils/hex.rs:53-63 | the pair loop succeeds exactly when every pair parses, byte `k` being the value of pair `k`; otherwise it fails with `InvalidPair` at the first pair that does not parse |
| Hex.ParseHex | libpafe/src/utils/hex.rs:40-51 | the odd-length error occurs exactly when the cleaned string has an odd number of UTF-8 bytes; a success has one byte per two of them |
| Hex.ParseHexMeaning | libpafe/src/utils/hex.rs:40-66 | over the UTF-8 bytes of the cleaned string: odd count is `OddLength`; otherwise success exactly when every pair parses, with byte `k` the value of pair `k`, else `InvalidPair` at the first bad pair |
| Hex.WhitespaceIgnored | libpafe/src/utils/hex.rs:42-47 | a space anywhere in the input does not change the result |
| Hex.ParseIgnoresWhitespace | libpafe/src/utils/hex.rs:42-47 | parsing the cleaned string gives the same result as parsing the string |
| Hex.HexRoundTrip | libpafe/src/utils/hex.rs:10-66 | parsing the compact hex of any byte string gives the bytes back |
| Hex.SpacedCleansToCompact | libpafe/src/utils/hex.rs:24-47 | removing the spaces from the spaced form gives the compact form |
| Hex.HexSpacedRoundTrip | libpafe/src/utils/hex.rs:24-66 | parsing the spaced hex of any byte string gives the bytes back |
| Hex.FormatVectors | libpafe/src/utils/hex.rs:73-89 | the unit-test strings of both formats and of parsing them |
| Hex.ParseErrorVectors | libpafe/src/utils/hex.rs:92-95 | `"abc"` fails for odd length and `"zz"` at its pair |
| Hex.UpperCaseVector | libpafe/src/utils/hex.rs:53-58 | upper-case digits are accepted: `"Ab"` parses as 0xAB |
| Hex.SignVectors | libpafe/src/utils/hex.rs:53-58 | `"+f"` parses to 0x0F while `"-f"` is an invalid pair |
| Commands.CommandCode | libpafe/src/protocol/commands/mod.rs:62-73 | every FeliCa command code is even and at most 0x0C, one per command kind, with both write forms sharing 0x08 |
| Commands.EncodePolling | libpafe/src/protocol/commands/polling.rs:7-14 | the polling payload is five bytes: code 0x00, the system code little-endian, the request code, the time slot |
| Commands.EncodeRead | libpafe/src/protocol/commands/read.rs:6-22 | a read payload is 11 + 2·services + 3·blocks bytes long and starts with 0x06 |
| Commands.EncodeWriteMulti | libpafe/src/protocol/commands/write.rs:25-53 | a write payload starts with 0x08, has 11 + 2·services + 3·blocks + 16·data bytes, and ends with the data blocks in order |
| Commands.EncodeWrite | libpafe/src/protocol/commands/write.rs:8-16 | a single-block write payload is 32 bytes, starts with 0x08 and ends with the 16 data bytes |
| Commands.EncodeRequestService | libpafe/src/protocol/commands/service.rs:7-16 | the request-service payload is 10 + 2·nodes bytes and starts with 0x02 |
| Commands.EncodeRequestResponse | libpafe/src/protocol/commands/service.rs:20-25 | the request-response payload is 0x04 followed by exactly the IDm |
| Commands.EncodeSearchServiceCode | libpafe/src/protocol/commands/search.rs:7-13 | the search payload is 0x0A, the IDm, then the index little-endian (11 bytes) |
| Commands.Encode | libpafe/src/protocol/commands/mod.rs:76-107 | every command but request-system-code is at least 5 bytes and starts with its command code; request-system-code is whatever its encoder gives |
| Commands.BlockListLayout | libpafe/src/protocol/commands/read.rs:16-19 | the j-th three bytes of the block list are the j-th block element's encoding |
| Commands.DataListLayout | libpafe/src/protocol/commands/write.rs:47-50 | the j-th sixteen bytes of the data list are the j-th data block |
| Commands.WriteIsSingletonMulti | libpafe/src/protocol/commands/write.rs:8-16 | a single-block write encodes exactly as the multi-block write of one service, one element and one block |
| Commands.CodesRoundTrip | libpafe/src/types.rs:108-110 | the service codes are recovered from their raw values |
| Commands.ReadCommandRoundTrip | libpafe/src/protocol/commands/read.rs:6-22 | for fewer than 256 services and blocks, parsing a read payload gives back its code, IDm, services and block encodings, with nothing left over |
| Commands.WriteCommandRoundTrip | libpafe/src/protocol/commands/write.rs:25-53 | for fewer than 256 services and blocks, parsing a write payload gives back its code, IDm, services, block encodings and the data bytes |
| Commands.RequestServiceRoundTrip | libpafe/src/protocol/commands/service.rs:7-16 | for fewer than 256 node codes, parsing the payload gives back 0x02, the IDm and the node codes |
| Commands.FirstByteIsCommandCode | libpafe/src/protocol/commands/mod.rs:62-107 | the first byte of every encoded command (bar request-system-code) is its `command_code` |
| Commands.ServiceCountWraps | libpafe/src/protocol/commands/read.rs:10 | the service count byte is the count truncated to 8 bits: 256 services are announced as 0 |
| Commands.PollingVector | libpafe/src/protocol/commands/mod.rs:116-125 | the polling test vector for system code 0x1234 |
| Commands.ReadVector | libpafe/src/protocol/commands/read.rs:30-45 | the read test vector |
| Commands.ServiceVectors | libpafe/src/protocol/commands/service.rs:33-52 | the request-service test vector (two node codes, count 2) and the request-response test vector; the search test vector of search.rs is stated alongside |
| Commands.WriteVector | libpafe/src/protocol/commands/write.rs:61-78 | the single-block write test vector with sixteen 0x5A bytes |
| Responses.DecodePolling | libpafe/src/protocol/responses/polling.rs:9-22 | fewer than 19 bytes is `InvalidLength(19, n)`, a first byte other than 0x01 is `UnexpectedResponse`, and otherwise IDm, PMm and system code are bytes 1-8, 9-16 and 17-18 |
| Responses.DecodeRead | libpafe/src/protocol/responses/read.rs:9-47 | each error in order (short, wrong code, non-zero status pair, too few block bytes) and, on success, the IDm, a zero status and `d[11]` blocks taken sixteen bytes apiece from byte 12 |
| Responses.DecodeWrite | libpafe/src/protocol/responses/write.rs:12-59 | short or odd-length payloads are `InvalidLength(11, n)`; success iff every status pair is (0,0); a failing single pair is `FelicaStatus`, a failing pair among several is `FelicaBlockStatus` with the index of the first failing pair |
| Responses.DecodeRequestService | libpafe/src/protocol/responses/service.rs:9-37 | short and wrong-code errors, success iff `d[9]` versions fit, and the versions read little-endian from byte 10 |
| Responses.DecodeRequestResponse | libpafe/src/protocol/responses/service.rs:41-49 | success iff at least 10 bytes starting with 0x05; the mode is byte 9 |
| Responses.DecodeRequestSystemCode | libpafe/src/protocol/responses/system.rs:9-38 | short and wrong-code errors, success iff `d[9]` codes fit, and the codes read little-endian from byte 10 |
| Responses.DecodeSearchServiceCode | libpafe/src/protocol/responses/search.rs:9-23 | a zero flag byte means no code; a non-zero flag needs 12 bytes and the code is bytes 10-11 little-endian |
| Responses.ResponseCode | libpafe/src/protocol/responses/mod.rs:124-134 | every response code is odd and at most 0x0D |
| Responses.DecodeKnown | libpafe/src/protocol/responses/mod.rs:66-108 | for each known command the decoded response carries the response code one above the command's |
| Responses.Decode | libpafe/src/protocol/responses/mod.rs:56-119 | an empty payload is `InvalidLength(1, 0)`; a first byte other than the (wrapping) command + 1 is `UnexpectedResponse`; an unknown command never decodes; a success answers a known command with code command + 1 |
| Responses.CheckedAddU8 | libpafe/src/protocol/responses/mod.rs:114 | the 8-bit `+` of a build with overflow checks: defined iff the sum fits in a byte |
| Responses.DecodeAsWrittenOverflows | libpafe/src/protocol/responses/mod.rs:63-116 | the dispatcher as written overflows exactly for command 0xFF with a payload starting 0x00, and agrees with `Decode` otherwise |
| Responses.OverflowWitness | libpafe/src/protocol/responses/mod.rs:114 | command 0xFF with payload `[0x00]` reaches the unchecked `expected_cmd + 1`; the corrected dispatcher reports `UnexpectedResponse(0x00, 0x00)` |
| Responses.Payload | libpafe/src/protocol/responses/mod.rs:124-134 | a response's wire form starts with its response code followed by its IDm |
| Responses.DecodePayloadRoundTrip | libpafe/src/protocol/responses/mod.rs:56-119 | decoding a well-formed response's wire form (plus any trailing bytes, except for a write reply, where every byte is a status) for the command it answers gives the response back |
| Responses.ReadReadsBack | libpafe/src/protocol/responses/read.rs:9-47 | a decoded read reply re-encodes to the decoded prefix of the payload |
| Responses.WriteReadsBack | libpafe/src/protocol/responses/write.rs:12-59 | a decoded write reply re-encodes to exactly the payload |
| Responses.PayloadOfDecoded | libpafe/src/protocol/responses/mod.rs:56-119 | every successful decode (search with a flag of 0 or 1) re-encodes to the payload's consumed prefix, and a write reply to the whole payload |
| Responses.PollingResponseVector | libpafe/src/protocol/responses/mod.rs:144-162 | the polling decode test vector |
| Responses.ShortPollingVector | libpafe/src/protocol/responses/polling.rs:44-53 | a one-byte polling reply is `InvalidLength(19, 1)` to the polling decoder, and the dispatcher rejects its code first |
| Responses.StatusVectors | libpafe/src/protocol/responses/read.rs:84-98 | a read reply with status 0xA4 00 is `FelicaStatus(0xA4, 0)`, as is the one-pair write reply; a request-service reply with code 0x00 is `UnexpectedResponse(0x03, 0x00)` |
| Responses.BlockStatusVector | libpafe/src/protocol/responses/write.rs:41-55 | a write reply whose second of two pairs fails is `FelicaBlockStatus(1, 0xA4, 0x01)` |
| Codec.EncodeCommandFrame | libpafe/src/protocol/codec.rs:10-13 | a command is framed exactly when its payload fits in a frame, and the frame decodes back to the command's payload, whose first byte is the command code |
| Codec.DecodeResponseFrame | libpafe/src/protocol/codec.rs:17-20 | a frame error is returned before any payload check; a decoded response comes from a valid frame and carries code command + 1 |
| Codec.ResponseFrameRoundTrip | libpafe/src/protocol/codec.rs:29-51 | framing a well-formed response's wire form and decoding it for the command it answers gives the response back (the polling round trip of the tests, for every response) |
| Codec.DecodedFrameIsEncoding | libpafe/src/protocol/codec.rs:17-20 | every frame that decodes to a response is the frame of that response's wire form followed by the payload bytes the decoder ignored |
| Codec.RequestServiceFrameVector | libpafe/src/protocol/codec.rs:54-72 | the request-service round-trip test vector |
| Codec.RequestResponseFrameVector | libpafe/src/protocol/codec.rs:75-90 | the request-response round-trip test vector |
| Scan.FindPreamble | libpafe/src/device/models/s330/pn533.rs:38-43 | the first index at or after the start where `00 00 FF` begins, or none when it occurs nowhere |
| Scan.FindByte | libpafe/src/device/models/s330/pn533.rs:53 | the first index at or after the start holding the byte, or none |
| Scan.FrameFrom | libpafe/src/device/models/s330/pn533.rs:53-58 | defined iff the byte occurs and the suffix from it fits in a frame; the result is that suffix framed |
| Scan.D5Fallback | libpafe/src/device/models/s330/pn533.rs:48-61 | only a reply longer than 3 bytes that starts with 0xD5 is searched, from index 3, and the suffix from the first expected response code is framed |
| Scan.D5RegionsPartition | libpafe/src/device/models/s330/pn533.rs:113-138 | the regions, concatenated, are the input from its first 0xD5 on, and each starts with 0xD5 and holds no other |
| Scan.SingleRegion | libpafe/src/device/models/s330/pn533.rs:113-138 | a single region is split into itself |
| Scan.PairOfRegions | libpafe/src/device/models/s330/pn533.rs:113-138 | two regions back to back are split into the two |
| Scan.Partition | libpafe/src/device/models/s330/pn533.rs:196-243 | zero targets split only the empty remainder; one target takes the whole remainder iff it is admissible (non-empty, led by the expected code, at most 255 bytes); a split has one part per target |
| Scan.PartitionSound | libpafe/src/device/models/s330/pn533.rs:196-243 | every split found has one part per target, concatenates back to the remainder, and has only admissible parts |
| Scan.PartitionComplete | libpafe/src/device/models/s330/pn533.rs:196-243 | whenever some valid split exists, the search finds one |
| Scan.TryLensLongest | libpafe/src/device/models/s330/pn533.rs:222-240 | the length loop succeeds iff some length up to its start admits a split, and then takes the longest |
| Scan.PartitionLongestFirst | libpafe/src/device/models/s330/pn533.rs:222-240 | the first part is the longest admissible prefix whose remainder splits among the other targets |
| Scan.TwoPartsSplit | libpafe/src/device/models/s330/pn533.rs:196-243 | two admissible payloads, the second holding the expected code only at its start, are split back into the two |
| Scan.EmbeddedOffsets | libpafe/src/device/models/s330/pn533.rs:143-176 | the frames taken inside a region start at its first preamble and sit at preambles whose frames fit |
| Scan.EmbeddedInOrder | libpafe/src/device/models/s330/pn533.rs:151-176 | the frames taken inside a region do not overlap and come in order |
| Scan.EncodeEachAdmissible | libpafe/src/device/models/s330/pn533.rs:249-253 | parts short enough to frame are each framed, in order, none dropped, and each frame decodes to its part |
| Scan.LastResortLongestSuffix | libpafe/src/device/models/s330/pn533.rs:295-302 | the last resort frames the longest suffix from index 3 that fits in a frame |
| Scan.Unframed | libpafe/src/device/models/s330/pn533.rs:184-302 | every frame the unframed-payload heuristics emit is a well-formed frame |
| Scan.UnframedInListSplit | libpafe/src/device/models/s330/pn533.rs:245-255 | an InListPassiveTarget region whose remainder splits yields one frame per target, and the frames decode to parts that concatenate to the remainder |
| Pn533.BuildInListPassiveTarget | libpafe/src/device/models/s330/pn533.rs:24-26 | the command is four bytes, `D4 4A` then the target count and the bit rate |
| Pn533.ExtractFelica | libpafe/src/device/models/s330/pn533.rs:33-64 | with a preamble anywhere the result is the input from its first preamble on, unchecked; without one it is the 0xD5 fallback, which is always a valid frame |
| Pn533.ExtractAll | libpafe/src/device/models/s330/pn533.rs:70-307 | every emitted frame has a preamble and the length its length byte announces; when phase 1 finds a frame, its frames are the whole answer |
| Pn533.ScanFramesOfFrames | libpafe/src/device/models/s330/pn533.rs:76-98 | phase 1 over back-to-back frames returns exactly those frames |
| Pn533.ExtractAllFrames | libpafe/src/device/models/s330/pn533.rs:70-98 | a header without 0x00 followed by back-to-back frames yields exactly those frames |
| Pn533.ExtractFelicaAfterHeader | libpafe/src/device/models/s330/pn533.rs:38-43 | after a header without 0x00, the single-frame extractor returns the frame |
| Pn533.ExtractFelicaUnframed | libpafe/src/device/models/s330/pn533.rs:48-61 | an InListPassiveTarget reply without a preamble whose payload starts with the expected code yields that payload framed |
| Pn533.AckHidesFrame | libpafe/src/device/models/s330/pn533.rs:76-98 | on an ACK followed by a frame, phase 1 emits the ACK plus one byte, which does not decode, and never the frame itself |
| Pn533.NoFramesWithoutDoubleZero | libpafe/src/device/models/s330/pn533.rs:76-98 | a reply without two consecutive zero bytes has no preamble and phase 1 emits nothing |
| Pn533.TwoRegionsOf | libpafe/src/device/models/s330/pn533.rs:106-302 | two one-target 0xD5 regions, with or without a zero byte between them, give one frame each: the first keeps the zero byte, since a region runs up to the next 0xD5, and the second is framed by the last resort |
| Pn533.TwoRegionsVector | libpafe/src/device/models/s330/pn533.rs:389-416 | on the unit test's two regions with a `00` separator, the code yields two frames, but the first is the encoding of the first payload plus `00`, not the frame the test expects |
| Pn533.AdjacentRegionsVector | libpafe/src/device/models/s330/pn533.rs:389-416 | the same two regions without the separator yield exactly the two frames the test expects |
| Pn533.InListReply | libpafe/src/device/models/s330/pn533.rs:184-255 | an InListPassiveTarget reply without preambles whose remainder splits yields the framed parts |
| Pn533.TwoTargetsOf | libpafe/src/device/models/s330/pn533.rs:196-255 | a two-target unframed reply yields the frames of its two payloads |
| Pn533.TwoTargetsVector | libpafe/src/device/models/s330/pn533.rs:419-442 | the unframed two-target test vector yields the two expected frames |
| Rcs956.Unwrap | libpafe/src/device/models/s330/rcs956/multi_frame.rs:36-50 | a candidate that does not decode is dropped; a FeliCa payload keeps its frame as it is; a reader reply is replaced by the frame of its payload from the first expected code after the 0xD5 |
| Rcs956.UnwrapFrame | libpafe/src/device/models/s330/rcs956/extractor.rs:53-57 | the frame of a FeliCa payload is kept unchanged |
| Rcs956.UnwrapReaderReply | libpafe/src/device/models/s330/rcs956/extractor.rs:45-52 | a framed reader reply `D5 h q` unwraps to the frame of `q`, where `q` starts at the first expected code |
| Rcs956.FirstCandidate | libpafe/src/device/models/s330/rcs956/extractor.rs:18-38 | the candidate is the first preamble with a non-zero length byte whose frame fits; every preamble before it is an ACK |
| Rcs956.Extract | libpafe/src/device/models/s330/rcs956/extractor.rs:10-82 | every result of the single-frame extractor is a well-formed frame |
| Rcs956.ExtractAll | libpafe/src/device/models/s330/rcs956/multi_frame.rs:9-200 | every emitted frame is well formed, and when phase 1 keeps a frame its frames are the whole answer |
| Rcs956.ScanCandidatesOfFrames | libpafe/src/device/models/s330/rcs956/multi_frame.rs:18-58 | phase 1 over back-to-back frames examines exactly those frames |
| Rcs956.ExtractAllFrames | libpafe/src/device/models/s330/rcs956/multi_frame.rs:9-58 | a header without 0x00 followed by frames of FeliCa payloads yields exactly those frames |
| Rcs956.AckSkipped | libpafe/src/device/models/s330/rcs956/multi_frame.rs:25-30 | on an ACK followed by a frame, the ACK is skipped and the frame is the only one emitted |
| Rcs956.AckSkippedFirst | libpafe/src/device/models/s330/rcs956/extractor.rs:29-34 | the single-frame extractor steps over the ACK and returns the frame after it |
| Rcs956.ExtractAfterHeader | libpafe/src/device/models/s330/rcs956/extractor.rs:18-57 | after a header without 0x00, the single-frame extractor returns the frame of a FeliCa payload |
| S330.ReadyPacketForwarded | libpafe/src/device/models/s330/mod.rs:38-42 | a packet that already starts with 0xD4 goes out unchanged whatever the payload, and when it is an envelope it is the one its own payload would be wrapped in |
| S330.WrapCommand | libpafe/src/device/models/s330/mod.rs:38-63 | every envelope starts with 0xD4, and a packet that already starts with 0xD4 is forwarded unchanged |
| S330.WrapOpens | libpafe/src/device/models/s330/mod.rs:44-62 | unless a ready packet is forwarded, the envelope carries exactly the payload: a Polling payload behind `D4 4A 01 01`, anything else behind `D4 42` and a length byte of payload length + 1 modulo 256 |
| S330.OpenedWraps | libpafe/src/device/models/s330/mod.rs:44-62 | every envelope that opens is what wrapping its payload builds |
| S330.ThruLengthWraps | libpafe/src/device/models/s330/mod.rs:60 | a 255-byte payload gets the length byte 0x00 |
| S330.UnwrapResponse | libpafe/src/device/models/s330/mod.rs:65-77 | never an error: exactly what the PN533 single-frame extractor returns when it finds something (which starts with a preamble), otherwise the reply unchanged |
| S330.UnwrapMeaning | libpafe/src/device/models/s330/mod.rs:65-77 | for every reply: one holding a preamble unwraps to its suffix from the first preamble; one without unwraps to a well-formed frame (the 0xD5 fallback) or to itself |
| S330.UnwrapFramedAnswer | libpafe/src/device/models/s330/mod.rs:65-77 | a framed answer after a header without 0x00 is unwrapped to the frame, which decodes to its payload |
| S330.UnwrapPassesThrough | libpafe/src/device/models/s330/mod.rs:65-77 | a reply with no preamble and no leading 0xD5 is returned unchanged |
| S330.InListPassiveTargetCommand | libpafe/src/device/models/s330/mod.rs:88-90 | the discovery command is `D4 4A <max targets> 00` followed by a Polling payload with request code and time slot 0 |
| S330.InListCommandForwarded | libpafe/src/device/models/s330/mod.rs:38-42 | the discovery command carries the system code little-endian and is forwarded unchanged by the envelope |
| S330.WrappedPollingIsInList | libpafe/src/device/models/s330/mod.rs:46-54 | a wrapped Polling payload is the one-target FeliCa InListPassiveTarget, differing from the discovery command in the bit-rate byte |
| S330.ConfigCommandsForwarded | libpafe/src/device/models/s330/config.rs:8-18 | the RF-on, GetVersion and Deselect packets are forwarded unchanged |
| Mock.New | libpafe/src/transport/mock.rs:22-31 | a new mock has sent nothing, queues nothing, has no pending failures and no vendor logs |
| Mock.PushResponse | libpafe/src/transport/mock.rs:38-40 | the reply joins the back of the queue and nothing else changes |
| Mock.SetControlFailures | libpafe/src/transport/mock.rs:34-36 | only the failure counter changes |
| Mock.PopSent | libpafe/src/transport/mock.rs:42-44 | the most recent write comes off the log, or nothing when it is empty; the rest of the mock is unchanged |
| Mock.Send | libpafe/src/transport/mock.rs:48-51 | always succeeds and only appends the data to the write log |
| Mock.ControlWrite | libpafe/src/transport/mock.rs:73-78 | behaves exactly as `send` |
| Mock.Receive | libpafe/src/transport/mock.rs:53-59 | `Timeout` iff the queue is empty, leaving the mock unchanged; otherwise the front reply, removed from the queue and nothing else changed |
| Mock.DeviceTypeOf | libpafe/src/transport/mock.rs:61-63 | the device type given at construction |
| Mock.Reset | libpafe/src/transport/mock.rs:65-71 | the write log is emptied and the queue and everything else kept |
| Mock.VendorControlWrite | libpafe/src/transport/mock.rs:80-93 | always succeeds, records the parameters and the data, and logs the data as sent |
| Mock.ControlRead | libpafe/src/transport/mock.rs:95-103 | while failures are pending one is used up and the read times out with the queue untouched; afterwards it is `receive` |
| Mock.VendorControlRead | libpafe/src/transport/mock.rs:105-115 | records the parameters and is otherwise `receive`, regardless of pending failures |
| Mock.ReceiveInOrder | libpafe/src/transport/mock.rs:53-59 | n receives return the queued replies in order, then `Timeout`, and only the queue changes |
| Mock.PushedComeBack | libpafe/src/transport/mock.rs:146-158 | replies pushed onto a fresh mock come back in push order and one more receive times out |
| Mock.ResetKeepsQueue | libpafe/src/transport/mock.rs:65-71 | after a reset the queued replies are still received |
| Mock.ControlFailureThenRecovery | libpafe/src/transport/mock.rs:95-103 | with one pending failure the first control read times out and the second returns the front reply |
| S310Model.WriteThenRead | libpafe/src/device/models/s310/mod.rs:22-34 | one attempt writes the init command, records both transfers and takes the next queued reply, or times out on an empty queue |
| S310Model.Initialize | libpafe/src/device/models/s310/mod.rs:16-50 | succeeds iff one of the first two queued replies is non-empty; every failure is `Timeout`; one write and one read per attempt up to the first non-empty reply, and nothing else changes |
| S310Model.SeededInit | libpafe/src/device/models/s310/mod.rs:63-70 | with a seeded reply one attempt is made, one init command (0x54) is sent, and the later reply stays queued |
| S310Model.EmptyInit | libpafe/src/device/models/s310/mod.rs:73-80 | with nothing queued both attempts are made and the result is `Timeout` |
| S320Model.Attempt | libpafe/src/device/models/s320/mod.rs:23-57 | one attempt takes one reply when the vendor read's is non-empty, else up to two; it ends replied iff one of them is non-empty, and fails only when the fallback receive finds the queue empty |
| S320Model.AfterAttempt | libpafe/src/device/models/s320/mod.rs:17-58 | an attempt replies exactly when one of its two replies is the first non-empty one queued, and otherwise leaves the replies so far all empty |
| S320Model.TryAttempts | libpafe/src/device/models/s320/mod.rs:17-58 | the loop finds a reply iff one of the first six queued is non-empty, in the attempt numbered by its position halved, with the replies up to it used up |
| S320Model.Initialize | libpafe/src/device/models/s320/mod.rs:15-72 | succeeds iff one of the first six queued replies is non-empty; every failure is `Timeout`; the second init command is written only on success |
| S320Model.SeededInit | libpafe/src/device/models/s320/mod.rs:83-91 | with one reply queued, `5C 01` then `5C 02` are sent |
| S320Model.EmptyInit | libpafe/src/device/models/s320/mod.rs:119-126 | with nothing queued three attempts are made, the result is `Timeout`, and `5C 02` is never sent |
| S320Model.ControlFailureIgnored | libpafe/src/device/models/s320/mod.rs:129-140 | a pending control failure does not affect the vendor read: the handshake succeeds on the first attempt |
| Cards.NewTypeF | libpafe/src/card/mod.rs:32-47 | `new` and `new_type_f` build a FeliCa card whose accessors return the given IDm, PMm and system code |
| Cards.NewTypeA | libpafe/src/card/mod.rs:50-52 | a Type A card reports its UID and no ATQB |
| Cards.NewTypeB | libpafe/src/card/mod.rs:55-57 | a Type B card reports its UID and ATQB |
| Cards.Kind | libpafe/src/card/mod.rs:60-66 | the card type names the variant, one for one |
| Cards.IdmOf | libpafe/src/card/mod.rs:69-74 | present iff the card is FeliCa, and then its IDm |
| Cards.PmmOf | libpafe/src/card/mod.rs:77-82 | present iff the card is FeliCa, and then its PMm |
| Cards.SystemCodeOf | libpafe/src/card/mod.rs:85-90 | present iff the card is FeliCa, and then its system code |
| Cards.UidOf | libpafe/src/card/mod.rs:93-98 | present iff the card is Type A or Type B, and then its UID |
| Cards.AtqbOf | libpafe/src/card/mod.rs:101-106 | present iff the card is Type B, and then its ATQB |
| Cards.FelicaFromAccessors | libpafe/src/card/mod.rs:41-90 | a card with an IDm is rebuilt from its three FeliCa accessors |
| Cards.IsoFromAccessors | libpafe/src/card/mod.rs:50-106 | a card with a UID has no FeliCa fields and is rebuilt from its UID and ATQB |
| CardOperations.SingleElement | libpafe/src/card/operations/read.rs:38-47 | the element of a one-block access: first service, direct access, the given block |
| CardOperations.ReadBlocks | libpafe/src/card/operations/read.rs:7-29 | a card without IDm gets `UnsupportedOperation` and nothing is sent; otherwise the read command for the card's IDm, services and blocks is sent; success iff the answer is a read response, with its blocks; device errors pass through; any other answer is `PollingFailed` |
| CardOperations.ReadSingle | libpafe/src/card/operations/read.rs:32-50 | sends what reading one service and one direct-access element sends, and returns the first block, or `PollingFailed` when there is none |
| CardOperations.WriteStatus | libpafe/src/card/operations/write.rs:25-43 | success iff the answer is a write response whose first of at least one status pair is (0,0); no pairs is `InvalidLength(11, 0)`, a failing first pair is `FelicaStatus`, another answer is `PollingFailed`, a device error passes through |
| CardOperations.WriteSingle | libpafe/src/card/operations/write.rs:10-45 | sends the single-block write command and judges its answer by the write status |
| CardOperations.SplitZips | libpafe/src/card/operations/write.rs:58-67 | splitting the pairs into elements and data and zipping them back is the identity, both ways |
| CardOperations.WriteBlocks | libpafe/src/card/operations/write.rs:48-91 | an empty list succeeds with nothing sent; otherwise one multi-block write for `[service]` with the elements and data split from the pairs in order, judged by the write status |
| CardOperations.WriteSingleIsOnePair | libpafe/src/card/operations/write.rs:10-67 | a single-block write puts the same bytes on the wire as writing the one pair |
| CardOperations.RequireFelica | libpafe/src/card/operations/service.rs:108-112 | the IDm of a FeliCa card, otherwise `UnsupportedOperation` |
| CardOperations.RequestServiceVersions | libpafe/src/card/operations/service.rs:33-58 | non-FeliCa cards are refused before sending; the versions are returned only for a request-service answer from the same IDm; another IDm is `UnexpectedResponse(0x03, 0x03)`, another answer `UnexpectedResponse(0x03, its code)` |
| CardOperations.RequestResponseMode | libpafe/src/card/operations/service.rs:61-82 | as above for the mode, with expected code 0x05 |
| CardOperations.RequestSystemCodes | libpafe/src/card/operations/service.rs:85-106 | as above for the system codes, with expected code 0x0D |
| CardOperations.NewIterator | libpafe/src/card/operations/service.rs:19-29 | a new iterator starts at index 0, unfinished, on the card |
| CardOperations.SaturatingInc | libpafe/src/card/operations/service.rs:143 | the index steps up by one and stays at 0xFFFF |
| CardOperations.Next | libpafe/src/card/operations/service.rs:117-167 | a finished iterator yields nothing and sends nothing; without IDm it yields the refusal and finishes; otherwise it searches at the current index: a code advances the index, no code finishes quietly, an error or a wrong answer is yielded once and finishes |
| CardOperations.FinishedStaysDone | libpafe/src/card/operations/service.rs:118-120 | once finished the iterator yields `None` forever and sends nothing |
| CardOperations.NothingAfterEnd | libpafe/src/card/operations/service.rs:117-167 | after the first non-code item every item is `None`, so at most one error is ever yielded |
| CardOperations.SearchesInOrder | libpafe/src/card/operations/service.rs:132-145 | while codes are found, the k-th search asks for index start + k (saturating) |
| CardOperations.SaturatedRepeats | libpafe/src/card/operations/service.rs:138-145 | at index 0xFFFF a card that answers with a code makes the iterator yield that code forever |
| CardOperations.ReadFromCard | libpafe/src/card/operations/read.rs:23-28 | a read reply on the wire yields its blocks |
| CardOperations.ReadStatusFromCard | libpafe/src/card/operations/read.rs:23-28 | a read reply with a non-zero status is reported as that `FelicaStatus` |
| CardOperations.WriteStatusOfDecoded | libpafe/src/card/operations/write.rs:25-43 | for a decoded wire reply the write status is success exactly when decoding succeeded, and otherwise the decoder's error: the empty-statuses and status branches are not reachable from the wire |
| CardOperations.WriteToCard | libpafe/src/card/operations/write.rs:10-91 | a well-formed write reply on the wire makes both writes succeed |
| CardOperations.RequestServiceFromCard | libpafe/src/card/operations/service.rs:33-58 | a request-service reply on the wire yields its versions when its IDm is the card's, else `UnexpectedResponse(0x03, 0x03)` |
| CardOperations.RequestResponseFromCard | libpafe/src/card/operations/service.rs:61-82 | a request-response reply on the wire yields its mode when its IDm is the card's, else `UnexpectedResponse(0x05, 0x05)` |
| CardOperations.RequestSystemCodesFromCard | libpafe/src/card/operations/service.rs:85-106 | a system-code reply on the wire yields its codes when its IDm is the card's, else `UnexpectedResponse(0x0D, 0x0D)` |
| CardOperations.SearchUnexpectedOnlyFromDecoder | libpafe/src/card/operations/service.rs:154-161 | from the wire, the iterator's `UnexpectedResponse(0x0B, 0x00)` comes only from a reply whose first byte is 0x00 |
| CardOperations.CollectsServiceCodes | libpafe/src/card/mod.rs:259-296 | a card answering one code then none yields the code, then nothing, after two searches |
| CardApi.CardReadBlocks | libpafe/src/card/mod.rs:109-121 | a non-FeliCa card is refused with the operation's name before anything is sent; a FeliCa card is read |
| CardApi.CardReadSingle | libpafe/src/card/mod.rs:124-136 | as above, for one block |
| CardApi.CardWriteSingle | libpafe/src/card/mod.rs:139-153 | refused for a non-FeliCa card; otherwise the single write with the first-service direct-access element for the block |
| CardApi.CardWriteBlocks | libpafe/src/card/mod.rs:156-168 | refused for a non-FeliCa card; otherwise the multi-block write |
| CardApi.CardServices | libpafe/src/card/mod.rs:171-176 | listing services starts a fresh iterator, without a guard |
| CardApi.CardRequestServiceVersions | libpafe/src/card/mod.rs:179-190 | refused for a non-FeliCa card; otherwise the request |
| CardApi.CardRequestResponseMode | libpafe/src/card/mod.rs:193-203 | refused for a non-FeliCa card; otherwise the request |
| CardApi.CardRequestSystemCodes | libpafe/src/card/mod.rs:206-216 | refused for a non-FeliCa card; otherwise the request |
| CardApi.NonFelicaUntouched | libpafe/src/card/mod.rs:115-214 | on a non-FeliCa card no guarded operation sends a command, whatever the device would answer, and the seven refusals are pairwise distinct, each naming its operation |
| CardApi.InnerRefusalsUnreachable | libpafe/src/card/mod.rs:109-216 | whenever a card operation sends nothing the result is the card's own refusal (or success for an empty write list) |
| CardApi.NonFelicaServices | libpafe/src/card/operations/service.rs:122-130 | listing the services of a card without IDm yields one `UnsupportedOperation`, then nothing, with nothing sent |
| CardApi.ReadSingleVector | libpafe/src/card/mod.rs:226-256 | the read-single test: a reply with one block of 0x99 bytes reads that block back |

## Left out

- USB transport (`libpafe/src/transport/usb/`): real USB I/O, sleeps, back-off and endpoint discovery. It is I/O; the mock transport's state stands in for a transport.
- Transport traits (`libpafe/src/transport/traits.rs`): interface defaults that only delegate. They add no behaviour.
- Device handle (`libpafe/src/device/handle.rs`): dynamic-dispatch glue and a typestate marker. `Device::execute` is the `exec` parameter of the card operations. It is a pure function of the command, so a device whose answers depend on earlier exchanges, and timeouts, are outside the model. The `timeout_ms` arguments are dropped.
- Model factory and no-op model (`libpafe/src/device/models/mod.rs`, `noop.rs`): trait defaults and dynamic dispatch.
- S330 `initialize` and the transport-driven part of `list_passive_targets` (`libpafe/src/device/models/s330/mod.rs:18-36,95-175`): best-effort vendor I/O. The signature of `list_passive_targets` in the S330 model differs from the one its trait declares, so the code does not compile as shown. Only the pure wrap and unwrap steps are modelled.
- Device builder, card builder and `CardInfo` (`libpafe/src/device/builder.rs`, `libpafe/src/card/builder.rs`, `libpafe/src/card/info.rs`): trivial constructors and records.
- Constant tables (`constants.rs`, the `config.rs` files, `s330/commands.rs`, `rcs956/builders.rs`, `rcs956/mod.rs`): their values appear as constants where they are used, and are not modelled as separate members.
- `encode_request_system_code`: `commands/system.rs` is not part of this model. `Commands.Encode` takes the encoder of that one command as a parameter, and the system-code properties are stated for any such encoder.
- S310 and S320 init commands: `s310/commands.rs` and `s320/commands.rs` are not part of this model. Their values are taken from `s310/config.rs` (`[0x54]`) and `s320/config.rs` (`5C 01`, `5C 02`).
- Writes through a `Card`: `card/operations/write.rs:18,63` read `card.idm` from the `Card` enum, which does not compile. The model follows the evident intent, the IDm of a FeliCa card: `CardApi` passes that IDm and the write operations take it directly.
- `Uid` and `Atqb` are kept as plain byte sequences. Their definitions are not part of this model.
- The `rcs956` extractor is not compiled into the crate: `s330/mod.rs:3-5` uses the PN533 one. It is modelled on its own, in `Rcs956`, and the S330 wrapper uses `Pn533`.
- Error `Display` strings, `utils/timeout.rs` (durations), the test-support files and the examples: text formatting and test scaffolding. Fixtures appear only as concrete vectors.
- Extended-length PN532 frames, NACK frames and error frames: the code does not implement them.
- Bytes are an `int` subtype in 0..255 rather than `bv8`. Arithmetic that wraps in the source is written out with `% 0x100`.

## Findings

| source | as written | input that shows it | evidently intended | confidence | as-written member | corrected member |
|---|---|---|---|---|---|---|
| libpafe/src/device/models/s330/pn533.rs:76-98 | phase 1 of `extract_all_felica_frames_from_pn532_response` takes every `00 00 FF` as a frame start, including the reader's ACK, whose length byte is 0; it emits the ACK plus one byte and resumes inside the next frame | an ACK `00 00 FF 00 FF 00` followed by any well-formed frame: `00 00 FF 00 FF 00 00`, which `Frame::decode` rejects, is the first output, and the frame itself is never emitted | skip zero-length preambles, as the variant kept under `rcs956/multi_frame.rs` does, so the frame after the ACK is returned | high (not executed) | Pn533.AckHidesFrame | Rcs956.AckSkipped |
| libpafe/src/protocol/responses/mod.rs:114 | the unknown-command branch of `Response::decode` reports `expected_cmd + 1` with plain `u8` addition | `expected_cmd = 0xFF` and data `[0x00]`: the first-byte check at line 63 uses `wrapping_add` and passes, then the addition overflows, which panics in a debug build | report `expected_cmd.wrapping_add(1)`, as line 63 does | high (not executed) | Responses.DecodeAsWrittenOverflows | Responses.Decode |
| libpafe/src/device/models/s330/pn533.rs:389-416 | the unit test `..._handles_multiple_d5_regions_unframed` puts a `00` separator between two `D5 4B 01` regions and expects the first frame to be the encoding of the first payload; the extractor keeps every byte up to the next 0xD5 in the region (pn533.rs:113-131), so the first payload is framed together with the separator | the test's own reply: `D5 4B 01 01 01..08 00 D5 4B 01 02 15..1C` with command code 0x00 gives `Frame::encode(01 01..08 00)` as the first frame, not `Frame::encode(01 01..08)` | the test without the separator, as the copy of the same test in `rcs956/multi_frame.rs:312-338` has it; the extractor itself is kept, since its comment at pn533.rs:124-128 keeps trailing zeros on purpose | medium (not executed) | Pn533.TwoRegionsVector | Pn533.AdjacentRegionsVector |
