/**
 * The wire framing of the networking layer (src/net/mod.rs): the packet and
 * error types peers exchange, the frame header (magic number and payload
 * length) and the text an error renders to.
 *
 * The payload itself is encoded by bincode, whose byte layout is not part of
 * this model: the payload codec is a parameter (`PayloadCodec`), and that its
 * decoder inverts its encoder is an explicit precondition (`RoundTrips`) of the
 * lemmas that need it.
 */
module Net {
  import opened Wrappers
  import opened LittleEndian

  /** Written before every frame so that a desynchronised stream is noticed. */
  const NET_MAGIC_NUMBER: u32 := 0xCB01_1043

  /** `NET_MAGIC_NUMBER` as it appears on the wire. */
  const MAGIC_BYTES: seq<byte> := [0x43, 0x10, 0x01, 0xCB]

  /** The largest length the two-byte length field can announce, plus one. */
  const U16_RANGE: nat := 0x1_0000

  /** A Rust `String`: its length is a `usize`, so it holds fewer than 2^64 characters. */
  type String = s: string | |s| < 0x1_0000_0000_0000_0000

  /** An error that is sent to the peer. */
  datatype NetworkError =
    | VersionMismatch(ver1: String, ver2: String)
    | ShouldCrashBothTrue

  /** The messages peers exchange. */
  datatype NetworkPacket =
    | Init(version: String, shouldCrash: bool)
    | Error(error: NetworkError)

  /**
   * Why a payload could not be decoded. bincode's own `DeserializeError` is not part of this
   * model; these variants are the ones the sample codec (module `SampleCodec`) reports.
   */
  datatype DeserializeError =
    | UnexpectedEnd
    | InvalidTag(tag: int)
    | InvalidBool(value: byte)
    | InvalidChar(code: int)

  /** The payload encoder and decoder (bincode's `serialize` and `deserialize`). */
  datatype PayloadCodec = PayloadCodec(
    serialize: NetworkPacket -> seq<byte>,
    deserialize: seq<byte> -> Result<NetworkPacket, DeserializeError>)

  /** The assumption made of the payload codec: decoding an encoded packet gives the packet back. */
  ghost predicate RoundTrips(codec: PayloadCodec)
  {
    forall p :: codec.deserialize(codec.serialize(p)) == Success(p)
  }

  // ---------------------------------------------------------------- errors

  /** The name of the variant, as the Rust enum spells it. */
  function VariantName(e: NetworkError): string
  {
    match e
    case VersionMismatch(_, _) => "VersionMismatch"
    case ShouldCrashBothTrue => "ShouldCrashBothTrue"
  }

  /** `Error::description`: a fixed text per variant, which starts with the variant's name. */
  function Description(e: NetworkError): (s: string)
    ensures |s| > |VariantName(e)| + 2
    ensures s[..|VariantName(e)| + 2] == VariantName(e) + ": "
  {
    match e
    case VersionMismatch(_, _) =>
      "VersionMismatch: " + "The versions of the client and server attempting to connect mismatch."
    case ShouldCrashBothTrue =>
      "ShouldCrashBothTrue: " + "Both peers have should_crash == false."
  }

  /** The description of a version mismatch does not mention the versions. */
  lemma LemmaDescriptionIgnoresVersions(a1: String, a2: String, b1: String, b2: String)
    ensures Description(VersionMismatch(a1, a2)) == Description(VersionMismatch(b1, b2))
  {
  }

  /**
   * `Display::fmt`: the description, followed for a version mismatch by the
   * first version and then the second.
   */
  function Display(e: NetworkError): (s: string)
    ensures e.ShouldCrashBothTrue? ==> s == Description(e)
    ensures e.VersionMismatch? ==> s == Description(e) + " ver1: " + e.ver1 + ", ver2: " + e.ver2
  {
    match e
    case VersionMismatch(ver1, ver2) =>
      "VersionMismatch: " + "The versions of the client and server attempting to connect mismatch."
      + " ver1: " + ver1 + ", ver2: " + ver2
    case ShouldCrashBothTrue =>
      "ShouldCrashBothTrue: " + "Both peers have should_crash == false."
  }

  /** Where the two versions stand in the rendered text of a version mismatch. */
  lemma LemmaDisplayEmbedsVersions(ver1: String, ver2: String)
    ensures var e := VersionMismatch(ver1, ver2);
            var s := Display(e);
            var at := |Description(e)| + 7;
            && |s| == at + |ver1| + 8 + |ver2|
            && s[at..at + |ver1|] == ver1
            && s[at + |ver1|..at + |ver1| + 8] == ", ver2: "
            && s[|s| - |ver2|..] == ver2
  {
    var e := VersionMismatch(ver1, ver2);
    var d := Description(e);
    assert Display(e) == (d + " ver1: ") + ver1 + ", ver2: " + ver2;
  }

  // ---------------------------------------------------------------- header

  /** The magic number is the only u32 whose little-endian form is `MAGIC_BYTES`. */
  lemma LemmaMagicBytes(b: seq<byte>)
    requires |b| == 4
    ensures ReadU32(b) == NET_MAGIC_NUMBER <==> b == MAGIC_BYTES
  {
    assert ReadU32(MAGIC_BYTES) == NET_MAGIC_NUMBER;
    if ReadU32(b) == NET_MAGIC_NUMBER {
      LemmaWriteReadU32(b);
      LemmaWriteReadU32(MAGIC_BYTES);
    }
  }

  /**
   * `get_packet_length`: the payload length a 6-byte header announces, or
   * `None` when its first four bytes are not the magic number.
   */
  function GetPacketLength(header: seq<byte>): (r: Option<u16>)
    requires |header| == 6
    ensures r.None? <==> header[..4] != MAGIC_BYTES
    ensures r.Some? ==> r.value == header[4] as int + 0x100 * header[5] as int
  {
    LemmaMagicBytes(header[..4]);
    var shouldBeMagicNum := ReadU32(header[..4]);
    if shouldBeMagicNum != NET_MAGIC_NUMBER then None
    else Some(ReadU16(header[4..6]))
  }

  // ---------------------------------------------------------------- frames

  /**
   * The frame `seralize_packet` builds: the magic number, the payload length
   * cut to 16 bits by `as u16`, then the payload.
   */
  function Frame(codec: PayloadCodec, p: NetworkPacket): (f: seq<byte>)
    ensures |f| == 6 + |codec.serialize(p)|
    ensures f[..4] == MAGIC_BYTES
    ensures f[4..6] == WriteU16(|codec.serialize(p)| % U16_RANGE)
    ensures f[6..] == codec.serialize(p)
  {
    LemmaWriteReadU32(MAGIC_BYTES);
    WriteU32(NET_MAGIC_NUMBER) + WriteU16(|codec.serialize(p)| % U16_RANGE) + codec.serialize(p)
  }

  /** `seralize_packet`: appends the magic number, the length and the payload to an empty buffer. */
  method SerializePacket(codec: PayloadCodec, toSer: NetworkPacket) returns (result: seq<byte>)
    ensures result == Frame(codec, toSer)
  {
    result := [];
    result := result + WriteU32(NET_MAGIC_NUMBER);
    var encoded := codec.serialize(toSer);
    result := result + WriteU16(|encoded| % U16_RANGE);  // `encoded.len() as u16`
    result := result + encoded;
  }

  /** `deserialize_packet`: the payload decoder, applied to the bytes after the header. */
  function DeserializePacket(codec: PayloadCodec, toDe: seq<byte>): (r: Result<NetworkPacket, DeserializeError>)
    ensures RoundTrips(codec) ==> forall p :: toDe == codec.serialize(p) ==> r == Success(p)
  {
    codec.deserialize(toDe)
  }

  /** The header of every frame is accepted and announces the payload length modulo 2^16. */
  lemma LemmaHeaderRoundTrip(codec: PayloadCodec, p: NetworkPacket)
    ensures GetPacketLength(Frame(codec, p)[..6]) == Some(|codec.serialize(p)| % U16_RANGE)
  {
    var f := Frame(codec, p);
    var n := |codec.serialize(p)| % U16_RANGE;
    assert f[..6][..4] == MAGIC_BYTES;
    assert f[..6][4..6] == WriteU16(n);
  }

  /** The payload after the header decodes to the packet that was framed. */
  lemma LemmaPayloadRoundTrip(codec: PayloadCodec, p: NetworkPacket)
    requires RoundTrips(codec)
    ensures DeserializePacket(codec, Frame(codec, p)[6..]) == Success(p)
  {
  }

  /**
   * A receiver that reads the header, then exactly the announced number of
   * bytes, and decodes them, recovers the packet, when the payload fits the
   * length field.
   */
  lemma LemmaFrameRoundTrip(codec: PayloadCodec, p: NetworkPacket)
    requires RoundTrips(codec)
    requires |codec.serialize(p)| < U16_RANGE
    ensures var f := Frame(codec, p);
            var announced := GetPacketLength(f[..6]);
            && announced == Some(|f| - 6)
            && DeserializePacket(codec, f[6..6 + announced.value]) == Success(p)
  {
    LemmaHeaderRoundTrip(codec, p);
    var f := Frame(codec, p);
    assert f[6..6 + |codec.serialize(p)|] == f[6..];
  }

  // ---------------------------------------------------------------- the `as u16` cast

  /**
   * As written, a payload of 2^16 bytes or more is framed with a length
   * field that announces fewer bytes than follow it.
   */
  lemma LemmaOversizedPayloadMisframed(codec: PayloadCodec, p: NetworkPacket)
    requires |codec.serialize(p)| >= U16_RANGE
    ensures var f := Frame(codec, p);
            var announced := GetPacketLength(f[..6]);
            && announced.Some?
            && announced.value < |f| - 6
            && announced.value == (|f| - 6) % U16_RANGE
  {
    LemmaHeaderRoundTrip(codec, p);
  }

  datatype EncodeError = PayloadTooLong(length: nat)

  /**
   * The frame with the oversized case rejected instead of truncated: its
   * header always announces exactly the payload that follows it.
   */
  function CheckedFrame(codec: PayloadCodec, p: NetworkPacket): (r: Result<seq<byte>, EncodeError>)
    ensures r.Failure? <==> |codec.serialize(p)| >= U16_RANGE
    ensures r.Failure? ==> r.error == PayloadTooLong(|codec.serialize(p)|)
    ensures r.Success? ==> && |r.value| >= 6
                           && GetPacketLength(r.value[..6]) == Some(|r.value| - 6)
                           && r.value[6..] == codec.serialize(p)
  {
    var encoded := codec.serialize(p);
    if |encoded| >= U16_RANGE then
      Failure(PayloadTooLong(|encoded|))
    else
      LemmaHeaderRoundTrip(codec, p);
      Success(Frame(codec, p))
  }

  /** Every frame the checked encoder produces decodes, header and payload, to its packet. */
  lemma LemmaCheckedFrameRoundTrip(codec: PayloadCodec, p: NetworkPacket)
    requires RoundTrips(codec)
    ensures CheckedFrame(codec, p).Success? ==>
              var f := CheckedFrame(codec, p).value;
              var announced := GetPacketLength(f[..6]);
              && announced.Some?
              && 6 + announced.value == |f|
              && DeserializePacket(codec, f[6..6 + announced.value]) == Success(p)
  {
    if CheckedFrame(codec, p).Success? {
      LemmaFrameRoundTrip(codec, p);
    }
  }
}
