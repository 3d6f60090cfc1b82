# Server List Ping framing, modelled in Dafny

This project models the binary framing layer of a Go client for the
Minecraft "Server List Ping" exchange (`client.go`). The Go code follows the
wiki.vg protocol description. The model covers six things:

- the Varint codec (`NewVarint`, `ReadVarint`, `FromInt`, `ToInt`), which
  stores an int32 as its uint32 bit pattern in little-endian 7-bit groups;
  the high bit of each byte says that another byte follows;
- the length-prefixed string (`NewMcstring`, `Tobytes`, `ToString`);
- the packet framer (`NewPacket`, `ToBytes`): a length Varint, an ID Varint,
  then the payload, where the length counts the ID bytes and the payload;
- the bytes `connect` writes: the handshake packet and the two-byte request
  packet `[1, 0]`;
- the header validation and payload extraction of `getStatus`, computed from
  the bytes the server sends;
- Go's fixed-width integers and its runtime panics, written out explicitly.

Files and modules:

- `ints.dfy` (`Ints`): `byte`, `int32` and `uint32` as subset types of
  `int`.
  - `uint32(x)` is `x mod 2^32`, and `int32(n)` wraps (`Wrap32`).
  - `Shl32` is Go's int32 `<<`: bits past bit 31 are dropped, and a shift of
    32 or more gives 0.
  - `Or32` is Go's `|` on two 32-bit patterns, computed bit by bit
    (`BitOr`).
- `outcomes.dfy` (`Outcomes`): `Outcome<T>` is `Ok`, `Fail(Error)` (an error
  return of the Go code) or `Panic(Crash)` (a Go runtime panic the code can
  reach).
- `varint.dfy` (`VarintCodec`): the codec.
  - `NewVarint`, `FromInt` and `ReadVarint` fill a five-byte array in a loop.
    `ToInt` accumulates over its shift loop.
  - Each of these methods is proved against a function: `Encoding`,
    `Scan` or `Decode`. Those functions' properties are proved as lemmas.
- `mcstring.dfy` (`McStrings`) and `packet.dfy` (`Packets`): the string and
  packet values. `ToBytes` appends to a buffer, as the Go code does.
- `client.dfy` (`Client`): `Connect` and `GetStatus`.
  - `GetStatus` reads the header Varints one after another, mutates
    `length` in place and drains the payload into a fresh array.
  - It is proved equal to the function `StatusOutcome`.
  - `StatusOutcome` is split into three stages, one per header Varint:
    `StatusOutcome`, `IdOutcome` and `StringOutcome`.

`getStatus` reads from a connection. Here it takes four inputs:

- `stream`: every byte the server sends;
- `buffered`: what `r.Buffered()` reports right after the length Varint;
- `inTime`: whether the reader held the payload before the deadline. The
  wait loop ends early only once `r.Buffered()` covers the payload, so a
  payload longer than what the stream still holds always runs into the
  deadline, whatever `inTime` says;
- `closeOk`: whether `conn.Close()` succeeded.

`connect` takes two flags saying whether each `conn.Write` succeeded. It
returns the byte strings it handed to the connection.

Behaviours of client.go that a reader of the protocol might not expect, all
kept by the model (a fifth, about the wait loop, is under "## Left out"):

- After five continuation bytes, `ReadVarint` does not return an error: it
  panics when it slices `buf[0:6]` of a `[5]byte`. `ToInt` indexes past its
  slice when no terminating byte is present.
- `ToInt` goes on for up to ten bytes (shift 0 to 63). Groups shifted out of
  32 bits are lost.
- Nothing checks that the packet length covers the ID and string length
  Varints.
  - A negative packet length is always refused by the over-buffer check,
    because the buffered count is never negative (`StatusNegativeDeclared`).
  - A packet length from 0 up to below the size of those two Varints leaves
    a negative remaining length. When the string length Varint spells that
    same negative number, and no more than the packet length is buffered
    after the length Varint (so the bytes must arrive in pieces), every
    check passes and `make` panics (`StatusNegativeLength`).
- The connection is closed only on the success path. Only there can the
  close fail.

## Model

| member | source | states |
|---|---|---|
| Ints.Uint32Of | client.go:28 | uint32(x) is x for x ≥ 0 and x + 2^32 below 0 |
| Ints.Int32Of | client.go:75 | reading a 32-bit pattern back as an int32 inverts uint32 |
| Ints.Int32OfUint32 | client.go:28 | int32(uint32(x)) == x for every int32 |
| Ints.Wrap32 | client.go:89 | int32(n) has bit pattern n mod 2^32, and is n itself when n fits in an int32 |
| Ints.Shl32 | client.go:75 | Go's int32 `<<`: the bit pattern of a·2^shift mod 2^32, and 0 for a shift of 32 or more; HighBitsVanish and ShiftedLowBits state what survives |
| Ints.Or32 | client.go:75 | Go's bitwise OR on two 32-bit patterns, bit by bit; OrDisjoint states that it adds values with no common bit |
| Ints.HighBitsVanish | client.go:75 | a group shifted to bit 32 or beyond adds nothing to a 32-bit result |
| VarintCodec.Groups | client.go:25-35 | NewVarint's bytes number 1 to 5, exactly 1 below 128, at least 2 from 128, and at most 2, 3, 4 below 2^14, 2^21, 2^28 |
| VarintCodec.GroupsShape | client.go:29-34 | every byte but the last has its high bit set, the last has it clear, and the last is non-zero when there are several |
| VarintCodec.GroupsSum | client.go:29-34 | the sum of (b_i & 0x7F)·128^i over NewVarint's bytes is uint32(x) |
| VarintCodec.GroupSumSnoc | client.go:75 | the byte at position i contributes (b & 0x7F)·128^i |
| VarintCodec.FillGroups | client.go:26-34 | the shift loop leaves exactly the groups of uint32(input) in the buffer |
| VarintCodec.NewVarint | client.go:25-35 | value is the encoding of input and length is its byte count, 1 to 5 |
| VarintCodec.FirstClear | client.go:42-51 | the index of the first byte with a clear high bit, within a bound, with every earlier byte a continuation byte |
| VarintCodec.Scan | client.go:38-54 | a successful read takes 1 to 5 bytes and no more than the stream holds |
| VarintCodec.ScanReads | client.go:38-54 | ReadVarint returns the stream's bytes up to and including the first clear high bit, with length their count; it fails exactly when the stream ends first within five bytes, and panics exactly when the first five bytes are all continuation bytes |
| VarintCodec.ReadVarint | client.go:38-54 | the read loop computes Scan and leaves the reader just past the Varint |
| VarintCodec.FromInt | client.go:57-67 | the first min(len(value), len(encoding)) bytes become the encoding, the others and the length keep their values, and rewriting the held value changes nothing |
| VarintCodec.Varint.ToInt | client.go:70-81 | ToInt computes Decode: the group sum mod 2^32 of the bytes through the first clear high bit, an index panic when the slice ends before one, an error after ten continuation bytes |
| VarintCodec.AccumulateStep | client.go:72-76 | each round's OR of the shifted group into x (OrGroup, with Go's int32 shift Shl32) keeps x equal to the group sum of the bytes read so far, mod 2^32 |
| VarintCodec.OrGroup | client.go:75 | one OR-assignment of a shifted 7-bit group into x, on the 32-bit patterns; OrGroupAdds and AccumulateStep state its effect |
| VarintCodec.OrGroupAdds | client.go:75 | in ToInt's rounds the shifted group sets only bits of x that are still clear, so the OR of OrGroup adds it |
| Ints.OrDisjoint | client.go:75 | the bitwise OR of a value below 2^k and a multiple of 2^k is their sum |
| Ints.ShiftedLowBits | client.go:75 | a group shifted left by k < 32 keeps its low 32 − k bits, shifted by k |
| VarintCodec.DecodeTerminated | client.go:73-78 | on one to ten bytes with only the last terminating, ToInt returns their group sum as an int32 |
| VarintCodec.DecodeEncoding | client_test.go:51-55 | ToInt(NewVarint(x)) == x with no error, for every int32 x |
| VarintCodec.EncodingTerminated | client.go:25-35 | every encoding is a well-formed Varint whose groups spell x |
| VarintCodec.ScanTerminated | client.go:42-53 | a well-formed Varint at the front of a stream is read whole and no further, and ToInt gives the value its groups spell |
| VarintCodec.ReadBack | client_test.go:40-49 | ReadVarint on a stream starting with NewVarint(x)'s bytes returns that Varint, leaves the rest unread, and ToInt gives x |
| VarintCodec.DecodeScanned | client.go:70-81 | ToInt succeeds on every Varint ReadVarint returns |
| VarintCodec.EncodingTable | client_test.go:22-28 | 0, 128, 2097151, -1 and -2147483648 encode as in the test table |
| McStrings.NewMcstring | client.go:88-91 | the length Varint of int32(len(value)) and the bytes; NewMcstringParts states it |
| McStrings.McString.ToString | client.go:93-95 | the string held; NewMcstringParts states that it gives back the string |
| McStrings.McString.Tobytes | client.go:96-100 | the length Varint's bytes followed by the string's bytes; NewMcstringParts and McStringReadBack state it |
| McStrings.NewMcstringParts | client.go:88-100 | the length decodes to int32(len(s)), Tobytes is that Varint followed by s, and ToString is s |
| McStrings.McStringReadBack | client.go:96-100 | reading Tobytes back gives the length Varint, then len(s), then exactly s |
| Packets.Packet.ToBytes | client.go:118-124 | the buffer holds length bytes, ID bytes and payload, in that order |
| Packets.NewPacket | client.go:108-116 | the length Varint of int32(len(payload) + len(ID bytes)), the ID Varint and the payload; NewPacketFields states it |
| Packets.NewPacketFields | client.go:108-116 | the length decodes to int32(len(ID bytes) + len(payload)), the ID decodes to id, and the data is the payload |
| Packets.PacketReadBack | client.go:108-124 | a receiver reading ToBytes gets the declared length, then the ID, then the payload |
| Packets.EmptyPacketWire | client.go:142 | the literal request [1, 0] is NewPacket(0, []).ToBytes() |
| Client.HandshakePayloadBytes | client.go:130-134 | version 756, "localhost" with its length, port 25565 and next state 1 make up the payload bytes |
| Client.HandshakeWire | client.go:135-138 | framing that payload as packet 0 gives the 17 handshake bytes |
| Client.Connect | client.go:127-155 | the handshake is written first; the request follows only if the handshake was written; each failed write gives its own error |
| Client.Drain | client.go:203-204 | the response holds the next n stream bytes, with zeros where the stream ends first |
| Client.ReadFull | client.go:203-204 | make plus io.ReadFull yields Drain |
| Client.StatusOutcome | client.go:158-215 | a response is returned only if it arrived in time and the close succeeded |
| Client.IdOutcome | client.go:173-183 | the same, from the ID Varint on |
| Client.StringOutcome | client.go:184-213 | the same, from the string length Varint on; a response returned is a prefix of the bytes after that Varint |
| Client.GetStatus | client.go:158-215 | the sequential reads compute StatusOutcome |
| Client.LengthOfVarint | client.go:162-172 | with a well-formed length Varint, a buffered count above it is refused, otherwise the ID stage follows |
| Client.IdOfVarint | client.go:173-183 | with a well-formed ID Varint, an ID other than 0 is refused, otherwise the string stage follows |
| Client.StringOfVarint | client.go:184-213 | remaining = int32(length − idLen − strLenLen) must equal the string length; then the deadline, which a stream holding fewer than remaining bytes always reaches, a negative-length panic, the close, and exactly the next remaining bytes |
| Client.StatusOfHeader | client.go:162-213 | the full outcome on any stream that starts with three well-formed Varints, in client.go's order of checks, the response being exactly the next remaining stream bytes |
| Client.StatusNegativeDeclared | client.go:166-172 | a negative packet length is always refused by the over-buffer check |
| Client.StatusDecodesScanned | client.go:166-190 | getStatus never ends in ToInt's error or ToInt's index panic |
| Client.IdDecodesScanned | client.go:177-180 | the same, from the ID stage on |
| Client.StringDecodesScanned | client.go:189-192 | the same, for the string length |
| Client.ResponseWire | client.go:108-124 | packet 0 carrying a prefixed string and extra bytes is length, 0, string length, string, extra |
| Client.StatusOfString | client.go:184-213 | with consistent header Varints, the text is returned exactly when no extra bytes follow it |
| Client.StatusOfResponse | client.go:158-215 | a canonical status response returns exactly its text unless over-buffered, late or the close fails |
| Client.StatusOfPaddedResponse | client.go:188-192 | a packet whose length counts bytes beyond its string fails the cross-check |
| Client.StatusOfWrongId | client.go:179-181 | any packet ID other than 0 is refused unless over-buffered |
| Client.NegativeStringLength | client.go:188-203 | a five-byte string length of -1 behind a declared length of 5 and ID 0 reaches make with length -1 |
| Client.StatusNegativeLength | client.go:188-203 | the stream 05 00 FF FF FF FF 0F reaches the negative-length panic |

## Left out

- The TCP connection: `net.DialTimeout`, and what `conn.Write` and
  `conn.Close` do on the wire. Each call's only effect modelled is its byte
  string or its success flag.
- `Ping` and its error wrapping are not modelled. Neither are
  `json.Unmarshal` and `ServerStatus`: they parse JSON in a library.
- The `time.Now`/`time.Sleep` wait loop. It becomes the flag `inTime`
  together with the test that the stream still holds the payload.
- `inTime` is otherwise independent of the stream: which bytes `bufio` has
  fetched when the loop starts is not modelled, so the model also lets a
  payload that the Go code would wait on until the deadline arrive in time.
  The wait loop only asks `r.Buffered()` and never reads from the
  connection, so the buffered count cannot grow while it waits: unless the
  whole payload is already buffered when the loop starts, the Go code runs
  until the deadline. The reader made at client.go:161 has `bufio`'s
  default 4096-byte buffer, so a status payload longer than 4096 bytes
  always times out there, while the model returns it whenever `inTime`
  holds. This is a reading of the code, not executed.
- `bufio` internals. `r.Buffered()` becomes the input `buffered`, with no
  link to the stream; real readers report at most what remains, and at
  most 4096.
  `bufio.NewReader` inside `ReadVarint` is taken to return the reader it is
  given, as it does for an already large enough `*bufio.Reader`.
- The reader's blocking: the stream is the whole finite sequence the server
  sends, and a read past its end fails.
- Error message texts. Errors are kept by kind only.
- The commented-out ping packet in `connect`. It is dead code.
- The check `len(response) != int(length)` after `io.ReadFull` is left out:
  its panic is unreachable.
- Go's string-to-bytes conversions. Strings are byte sequences from the
  start.
- Slice aliasing.
  - `Tobytes` may append into the backing array of the length Varint
    without changing any visible byte.
  - `FromInt` has a value receiver and writes through the shared slice. It
    is modelled on the array that backs `value`; the struct's `length` field
    is not touched.
- Tests that need a live server (client_test.go:78-87).
