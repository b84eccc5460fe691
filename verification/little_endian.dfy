/**
 * Little-endian integer layout, as the byteorder crate's `LittleEndian`
 * reads and writes it: the first byte is the least significant one.
 */
module LittleEndian {

  type byte = x: int | 0 <= x < 0x100
  type u16 = x: int | 0 <= x < 0x1_0000
  type u32 = x: int | 0 <= x < 0x1_0000_0000
  type u64 = x: int | 0 <= x < 0x1_0000_0000_0000_0000

  /** 256 to the power `n`: one more than the largest value `n` bytes can hold. */
  function Pow256(n: nat): nat
  {
    if n == 0 then 1 else 0x100 * Pow256(n - 1)
  }

  /** The number a little-endian byte string denotes. */
  function FromLE(b: seq<byte>): nat
  {
    if b == [] then 0 else b[0] + 0x100 * FromLE(b[1..])
  }

  /** The `width` low-order bytes of `n`, least significant first. */
  function ToLE(n: nat, width: nat): (b: seq<byte>)
    ensures |b| == width
  {
    if width == 0 then [] else [n % 0x100] + ToLE(n / 0x100, width - 1)
  }

  lemma {:induction false} LemmaFromLEBound(b: seq<byte>)
    ensures FromLE(b) < Pow256(|b|)
  {
    if b != [] {
      LemmaFromLEBound(b[1..]);
    }
  }

  /** Writing `n` in `width` bytes and reading it back gives `n`, when `n` fits. */
  lemma {:induction false} LemmaFromToLE(n: nat, width: nat)
    requires n < Pow256(width)
    ensures FromLE(ToLE(n, width)) == n
  {
    if width > 0 {
      LemmaFromToLE(n / 0x100, width - 1);
      assert ToLE(n, width)[1..] == ToLE(n / 0x100, width - 1);
    }
  }

  /** Reading a byte string and writing the number back in as many bytes gives the string. */
  lemma {:induction false} LemmaToFromLE(b: seq<byte>)
    ensures ToLE(FromLE(b), |b|) == b
  {
    if b != [] {
      LemmaToFromLE(b[1..]);
      var n := FromLE(b);
      assert n % 0x100 == b[0] && n / 0x100 == FromLE(b[1..]);
    }
  }

  /** `LittleEndian::read_u16`. */
  function ReadU16(b: seq<byte>): (n: u16)
    requires |b| == 2
    ensures n == b[0] as int + 0x100 * b[1] as int
  {
    assert b[1..][1..] == [];
    LemmaFromLEBound(b);
    FromLE(b)
  }

  /** `write_u16::<LittleEndian>`. */
  function WriteU16(n: u16): (b: seq<byte>)
    ensures |b| == 2 && ReadU16(b) == n
    ensures b[0] == n % 0x100 && b[1] == n / 0x100
  {
    LemmaFromToLE(n, 2);
    ToLE(n, 2)
  }

  /** Two bytes are determined by the u16 they denote. */
  lemma LemmaWriteReadU16(b: seq<byte>)
    requires |b| == 2
    ensures WriteU16(ReadU16(b)) == b
  {
    LemmaToFromLE(b);
  }

  /** `LittleEndian::read_u32`. */
  function ReadU32(b: seq<byte>): (n: u32)
    requires |b| == 4
    ensures n == b[0] as int + 0x100 * b[1] as int + 0x1_0000 * b[2] as int + 0x100_0000 * b[3] as int
  {
    assert b[3..][1..] == [] && b[2..][1..] == b[3..] && b[1..][1..] == b[2..];
    assert FromLE(b[3..]) == b[3];
    assert FromLE(b[2..]) == b[2] as int + 0x100 * b[3] as int;
    assert FromLE(b[1..]) == b[1] as int + 0x100 * FromLE(b[2..]);
    LemmaFromLEBound(b);
    FromLE(b)
  }

  /** `write_u32::<LittleEndian>`. */
  function WriteU32(n: u32): (b: seq<byte>)
    ensures |b| == 4 && ReadU32(b) == n
  {
    LemmaFromToLE(n, 4);
    ToLE(n, 4)
  }

  /** Four bytes are determined by the u32 they denote. */
  lemma LemmaWriteReadU32(b: seq<byte>)
    requires |b| == 4
    ensures WriteU32(ReadU32(b)) == b
  {
    LemmaToFromLE(b);
  }

  /** `LittleEndian::read_u64`. */
  function ReadU64(b: seq<byte>): (n: u64)
    requires |b| == 8
  {
    LemmaFromLEBound(b);
    FromLE(b)
  }

  /** `write_u64::<LittleEndian>`. */
  function WriteU64(n: u64): (b: seq<byte>)
    ensures |b| == 8 && ReadU64(b) == n
  {
    LemmaFromToLE(n, 8);
    ToLE(n, 8)
  }
}
