/**
 * A payload codec that satisfies `Net.RoundTrips`, so that the lemmas which
 * assume it are not vacuous. It is laid out like a size-prefixed binary
 * encoder: a u32 variant index, a u64 length before each string, one byte per
 * boolean. Characters are written as 4-byte code points where bincode writes
 * UTF-8, so its byte counts are this codec's own, not bincode's.
 */
module SampleCodec {
  import opened Wrappers
  import opened LittleEndian
  import opened Net

  type Decoded<T> = Result<(T, seq<byte>), DeserializeError>

  predicate IsScalarValue(code: int)
  {
    0 <= code < 0xD800 || 0xE000 <= code < 0x11_0000
  }

  // ---------------------------------------------------------------- encoder

  function EncodeChars(s: string): (b: seq<byte>)
    ensures |b| == 4 * |s|
  {
    if s == [] then [] else WriteU32(s[0] as int) + EncodeChars(s[1..])
  }

  function EncodeString(s: String): seq<byte>
  {
    WriteU64(|s|) + EncodeChars(s)
  }

  function EncodeBool(b: bool): seq<byte>
  {
    [if b then 1 else 0]
  }

  function EncodeError(e: NetworkError): seq<byte>
  {
    match e
    case VersionMismatch(ver1, ver2) => WriteU32(0) + EncodeString(ver1) + EncodeString(ver2)
    case ShouldCrashBothTrue => WriteU32(1)
  }

  function EncodePacket(p: NetworkPacket): seq<byte>
  {
    match p
    case Init(version, shouldCrash) => WriteU32(0) + EncodeString(version) + EncodeBool(shouldCrash)
    case Error(e) => WriteU32(1) + EncodeError(e)
  }

  // ---------------------------------------------------------------- decoder

  function DecodeU32(b: seq<byte>): Decoded<u32>
  {
    if |b| < 4 then Failure(UnexpectedEnd) else Success((ReadU32(b[..4]), b[4..]))
  }

  function DecodeU64(b: seq<byte>): Decoded<u64>
  {
    if |b| < 8 then Failure(UnexpectedEnd) else Success((ReadU64(b[..8]), b[8..]))
  }

  /** Decodes `n` characters; a successful result has exactly `n` of them. */
  function DecodeChars(b: seq<byte>, n: nat): (r: Decoded<string>)
    ensures r.Success? ==> |r.value.0| == n
    decreases n
  {
    if n == 0 then Success(([], b))
    else
      var code :- DecodeU32(b);
      if !IsScalarValue(code.0) then Failure(InvalidChar(code.0))
      else
        var tail :- DecodeChars(code.1, n - 1);
        Success(([code.0 as char] + tail.0, tail.1))
  }

  function DecodeString(b: seq<byte>): Decoded<String>
  {
    var len :- DecodeU64(b);
    var chars :- DecodeChars(len.1, len.0);
    Success((chars.0, chars.1))
  }

  function DecodeBool(b: seq<byte>): Decoded<bool>
  {
    if |b| < 1 then Failure(UnexpectedEnd)
    else if b[0] == 0 then Success((false, b[1..]))
    else if b[0] == 1 then Success((true, b[1..]))
    else Failure(InvalidBool(b[0]))
  }

  function DecodeError(b: seq<byte>): Decoded<NetworkError>
  {
    var tag :- DecodeU32(b);
    if tag.0 == 0 then
      var ver1 :- DecodeString(tag.1);
      var ver2 :- DecodeString(ver1.1);
      Success((VersionMismatch(ver1.0, ver2.0), ver2.1))
    else if tag.0 == 1 then Success((ShouldCrashBothTrue, tag.1))
    else Failure(InvalidTag(tag.0))
  }

  function DecodePacket(b: seq<byte>): Decoded<NetworkPacket>
  {
    var tag :- DecodeU32(b);
    if tag.0 == 0 then
      var version :- DecodeString(tag.1);
      var shouldCrash :- DecodeBool(version.1);
      Success((Init(version.0, shouldCrash.0), shouldCrash.1))
    else if tag.0 == 1 then
      var e :- DecodeError(tag.1);
      Success((Error(e.0), e.1))
    else Failure(InvalidTag(tag.0))
  }

  /** Decodes one packet; bytes after it are ignored. */
  function Deserialize(b: seq<byte>): Result<NetworkPacket, DeserializeError>
  {
    var p :- DecodePacket(b);
    Success(p.0)
  }

  const SAMPLE: PayloadCodec := PayloadCodec(EncodePacket, Deserialize)

  // ---------------------------------------------------------------- round trip

  lemma LemmaDecodeU32(n: u32, rest: seq<byte>)
    ensures DecodeU32(WriteU32(n) + rest) == Success((n, rest))
  {
    var b := WriteU32(n) + rest;
    assert b[..4] == WriteU32(n) && b[4..] == rest;
  }

  lemma {:induction false} LemmaDecodeChars(s: string, rest: seq<byte>)
    ensures DecodeChars(EncodeChars(s) + rest, |s|) == Success((s, rest))
  {
    if s != [] {
      var code := s[0] as int;
      var tail := EncodeChars(s[1..]) + rest;
      assert EncodeChars(s) + rest == WriteU32(code) + tail;
      LemmaDecodeU32(code, tail);
      LemmaDecodeChars(s[1..], rest);
      assert [code as char] + s[1..] == s;
      assert DecodeChars(WriteU32(code) + tail, |s|) == Success(([code as char] + s[1..], rest));
    } else {
      assert EncodeChars(s) + rest == rest;
    }
  }

  lemma LemmaDecodeString(s: String, rest: seq<byte>)
    ensures DecodeString(EncodeString(s) + rest) == Success((s, rest))
  {
    var b := EncodeString(s) + rest;
    var tail := EncodeChars(s) + rest;
    assert b == WriteU64(|s|) + tail;
    assert b[..8] == WriteU64(|s|) && b[8..] == tail;
    LemmaDecodeChars(s, rest);
  }

  lemma LemmaDecodeBool(x: bool, rest: seq<byte>)
    ensures DecodeBool(EncodeBool(x) + rest) == Success((x, rest))
  {
    assert (EncodeBool(x) + rest)[1..] == rest;
  }

  lemma LemmaDecodeError(e: NetworkError, rest: seq<byte>)
    ensures DecodeError(EncodeError(e) + rest) == Success((e, rest))
  {
    match e
    case VersionMismatch(ver1, ver2) =>
      var afterVer1 := EncodeString(ver2) + rest;
      var afterTag := EncodeString(ver1) + afterVer1;
      assert EncodeError(e) + rest == WriteU32(0) + afterTag;
      LemmaDecodeU32(0, afterTag);
      LemmaDecodeString(ver1, afterVer1);
      LemmaDecodeString(ver2, rest);
    case ShouldCrashBothTrue =>
      LemmaDecodeU32(1, rest);
  }

  lemma LemmaDecodePacket(p: NetworkPacket, rest: seq<byte>)
    ensures DecodePacket(EncodePacket(p) + rest) == Success((p, rest))
  {
    match p
    case Init(version, shouldCrash) =>
      var afterVersion := EncodeBool(shouldCrash) + rest;
      var afterTag := EncodeString(version) + afterVersion;
      assert EncodePacket(p) + rest == WriteU32(0) + afterTag;
      LemmaDecodeU32(0, afterTag);
      LemmaDecodeString(version, afterVersion);
      LemmaDecodeBool(shouldCrash, rest);
    case Error(e) =>
      var afterTag := EncodeError(e) + rest;
      assert EncodePacket(p) + rest == WriteU32(1) + afterTag;
      LemmaDecodeU32(1, afterTag);
      LemmaDecodeError(e, rest);
  }

  /** The sample codec meets the assumption the framing lemmas make of bincode. */
  lemma LemmaSampleRoundTrips()
    ensures RoundTrips(SAMPLE)
  {
    forall p: NetworkPacket
      ensures SAMPLE.deserialize(SAMPLE.serialize(p)) == Success(p)
    {
      LemmaDecodePacket(p, []);
      assert EncodePacket(p) + [] == EncodePacket(p);
    }
  }

  /**
   * A packet whose payload is exactly 2^16 bytes: `seralize_packet` frames it
   * with a length field of 0, so all 65536 payload bytes are left in the
   * stream where the next header is expected.
   */
  lemma LemmaSampleOversizedFrame()
    ensures var p := Error(VersionMismatch(seq(16378, _ => 'v'), ""));
            && |SAMPLE.serialize(p)| == U16_RANGE
            && GetPacketLength(Frame(SAMPLE, p)[..6]) == Some(0)
  {
    var p := Error(VersionMismatch(seq(16378, _ => 'v'), ""));
    assert |EncodePacket(p)| == 4 + 4 + (8 + 4 * 16378) + 8;
    LemmaHeaderRoundTrip(SAMPLE, p);
  }
}
