# Wire framing of the buildengine networking layer

This project models the framing codec of the engine's networking module
(`src/net/mod.rs`). It proves that the bytes put on the wire can be read back.
One packet travels as a frame:

```
offset 0..4    NET_MAGIC_NUMBER (0xCB011043), little-endian: 43 10 01 CB
offset 4..6    payload length, little-endian u16 (the length cast with `as u16`)
offset 6..     payload: the packet as bincode encodes it
```

Modules:

- `Wrappers`: `Option` and `Result`.
- `LittleEndian`: bytes and the u16/u32/u64 reads and writes of the byteorder
  crate. The reads and writes are defined through one generic pair,
  `FromLE`/`ToLE`, which is proved to round-trip in both directions.
- `Net`: the source module itself. It holds:
  - `NetworkError` and `NetworkPacket`;
  - `Error::description` and `Display::fmt` of `NetworkError`;
  - `get_packet_length` (the 6-byte array `[u8; 6]` becomes a sequence
    required to have length 6);
  - `seralize_packet`, written as a method that appends to a buffer step by
    step, and `Frame`, the pure function it is proved against;
  - `deserialize_packet`.
- `SampleCodec`: a concrete payload codec that satisfies the round-trip
  assumption described next.

bincode's byte layout is not part of this model. The payload encoder and
decoder are a parameter, `Net.PayloadCodec`. That the decoder inverts the
encoder is the explicit precondition `Net.RoundTrips`. It is assumed of bincode
and never proved about it. `SampleCodec` shows the assumption can be met: it
lays a packet out as a size-prefixed encoder would (u32 variant index, u64
length before each string, one byte per boolean). One difference: it writes
each character as a 4-byte code point where bincode writes UTF-8.

`get_packet_length` and the framing follow the code. In one place the code and
the protocol's intent disagree: the code casts the payload length with
`as u16`, which truncates it silently, whereas a frame's length field is meant
to announce exactly the payload that follows. The model follows the code
(`Frame`, `SerializePacket`). The rejecting variant is given separately
(`CheckedFrame`); see Findings.

## Model

| member | source | states |
|---|---|---|
| `LittleEndian.ReadU16` | src/net/mod.rs:254 | `read_u16` gives `b[0] + 256 * b[1]` |
| `LittleEndian.WriteU16` | src/net/mod.rs:266 | `write_u16` gives 2 bytes, low byte first, that `read_u16` turns back into the number |
| `LittleEndian.LemmaWriteReadU16` | src/net/mod.rs:254 | two bytes are determined by the u16 they denote (writing what was read gives the bytes back) |
| `LittleEndian.ReadU32` | src/net/mod.rs:250 | `read_u32` gives `b[0] + 2^8 b[1] + 2^16 b[2] + 2^24 b[3]` |
| `LittleEndian.WriteU32` | src/net/mod.rs:261 | `write_u32` gives 4 bytes that `read_u32` turns back into the number |
| `LittleEndian.LemmaWriteReadU32` | src/net/mod.rs:250 | four bytes are determined by the u32 they denote |
| `Net.Description` | src/net/mod.rs:116-126 | `description` is total and its text starts with the variant's name and ": " |
| `Net.LemmaDescriptionIgnoresVersions` | src/net/mod.rs:118-121 | the description of `VersionMismatch` is the same whatever the two versions are |
| `Net.Display` | src/net/mod.rs:98-112 | `fmt` of `ShouldCrashBothTrue` is its description; `fmt` of `VersionMismatch(ver1, ver2)` is the description followed by " ver1: ", `ver1`, ", ver2: ", `ver2` |
| `Net.LemmaDisplayEmbedsVersions` | src/net/mod.rs:100-105 | in the text of `VersionMismatch`, `ver1` stands right after the description and " ver1: ", and the text ends with ", ver2: " and `ver2` |
| `Net.LemmaMagicBytes` | src/net/mod.rs:22 | a 4-byte string reads as `NET_MAGIC_NUMBER` exactly when it is `43 10 01 CB` |
| `Net.GetPacketLength` | src/net/mod.rs:248-256 | `None` exactly when the first four bytes are not `43 10 01 CB`, whatever bytes 4..6 hold; otherwise `Some(b[4] + 256 * b[5])` |
| `Net.Frame` | src/net/mod.rs:259-268 | the frame is 6 bytes longer than the payload; it starts with `43 10 01 CB`; bytes 4..6 are the payload length modulo 2^16, little-endian; bytes 6.. are the payload unchanged |
| `Net.SerializePacket` | src/net/mod.rs:259-269 | appending the magic number, the truncated length and the encoded payload to an empty buffer yields `Frame` |
| `Net.DeserializePacket` | src/net/mod.rs:242-244 | under the codec assumption, decoding the encoding of any packet gives that packet |
| `Net.LemmaHeaderRoundTrip` | src/net/mod.rs:248-268 | `get_packet_length` of the first 6 bytes of every frame is `Some(payload length mod 2^16)` |
| `Net.LemmaPayloadRoundTrip` | src/net/mod.rs:242-267 | under the codec assumption, `deserialize_packet` of bytes 6.. of a frame gives the framed packet |
| `Net.LemmaFrameRoundTrip` | src/net/mod.rs:242-268 | for a payload shorter than 2^16 bytes: the header announces exactly the bytes that follow, and decoding that many gives the packet back |
| `Net.LemmaOversizedPayloadMisframed` | src/net/mod.rs:266 | for a payload of 2^16 bytes or more, the header is accepted but announces fewer bytes than follow it (the length mod 2^16) |
| `Net.CheckedFrame` | src/net/mod.rs:259-268 | rejects exactly the payloads of 2^16 bytes or more; every frame it does produce has a header announcing exactly its payload, and that payload is the encoded packet |
| `Net.LemmaCheckedFrameRoundTrip` | src/net/mod.rs:242-268 | under the codec assumption, every frame `CheckedFrame` produces decodes, header then announced payload, to its packet |
| `SampleCodec.LemmaSampleRoundTrips` | src/net/mod.rs:242-244 | the sample codec meets the round-trip assumption made of bincode, so the lemmas that assume it are not vacuous |
| `SampleCodec.LemmaSampleOversizedFrame` | src/net/mod.rs:266 | a concrete packet with a 65536-byte payload is framed with length field 0 |

## Findings

| source | as written | input that shows it | evidently intended | confidence | as-written member | corrected member |
|---|---|---|---|---|---|---|
| src/net/mod.rs:266 | `encoded.len() as u16` keeps only the low 16 bits of the payload length, so a payload of 65536 bytes or more gets a header that announces the wrong length | any packet whose encoded payload has 65536 bytes, e.g. under `SampleCodec`, `Error(VersionMismatch(<16378 'v' characters>, ""))`: the header announces 0, so all 65536 payload bytes are left in the stream where the next header is expected | reject payloads that do not fit the two-byte length field: the magic number exists so that a stream that has lost its place is not read as arbitrary data (lines 262-263), and the truncated length puts the stream in exactly that state | not executed; the truncation follows from Rust's `as` semantics; the exact packet that reaches 65536 bytes depends on bincode's layout | `Net.LemmaOversizedPayloadMisframed` | `Net.CheckedFrame` |

## Left out

- `Controller`, `ControllerRaw`, `Connection`, `check_controller_channel`, `check_listener` (src/net/mod.rs:32-83, 189-231): thread spawning, `Mutex`-guarded vectors and channels. Their point is concurrency.
- `MAX_CONNECTED_CLIENTS` (src/net/mod.rs:27): no code enforces it, so there is no capacity behaviour to model.
- `check_stream_send`, `check_stream_recv` (src/net/mod.rs:233-239): their bodies are `unimplemented!()`.
- `ip` (src/net/mod.rs:176-187): socket-address resolution, which is I/O.
- `NetworkError::cause` (src/net/mod.rs:128-133): it returns `None` for every variant, so there is no nested error to model.
- `ConnectionMessage`, `ControllerMessage` (src/net/mod.rs:156-167): channel messages of the concurrent part.
- The handshake, the event loop and the connection table are not defined in the networking module's source, so they are not part of this model. The same goes for `src/net/client.rs`, the scripting module, `src/lib.rs` and `src/test_util.rs`.
- bincode's actual byte layout is not part of this model. `Net.RoundTrips` is an assumption about it, not something proved of it.
- `SampleCodec`: writes characters as code points, not UTF-8, so its byte counts are not bincode's.
- `Net.String`: limited to fewer than 2^64 characters. A Rust `String` is limited to fewer than 2^64 bytes, which is a tighter bound on characters; the limit is only needed so that a u64 length prefix can encode any string.
- `Net.DeserializePacket`: decoding is specified only for inputs that are encodings of packets; what bincode does with other bytes is not modelled.
