/** Machine words, bytes, and little-endian integers. */
module Words {
  const WORD_LIMIT: int := 0x1_0000_0000_0000_0000

  /** A 64-bit unsigned integer: addresses, sizes, ids, counters. */
  type Word = x: int | 0 <= x < 0x1_0000_0000_0000_0000

  type byte = x: int | 0 <= x < 256

  type Word32 = x: int | 0 <= x < 0x1_0000_0000

  type UInt16 = x: int | 0 <= x < 0x1_0000

  datatype Option<+T> = None | Some(value: T)

  function Pow256(n: nat): nat
    ensures Pow256(n) > 0
  {
    if n == 0 then 1 else 256 * Pow256(n - 1)
  }

  /** The `width` low-order bytes of `value`, least significant first. */
  function LittleEndian(value: nat, width: nat): (bytes: seq<byte>)
    ensures |bytes| == width
  {
    if width == 0 then [] else [value % 256] + LittleEndian(value / 256, width - 1)
  }

  function FromLittleEndian(bytes: seq<byte>): (value: nat)
    ensures value < Pow256(|bytes|)
  {
    if bytes == [] then 0 else bytes[0] + 256 * FromLittleEndian(bytes[1..])
  }

  lemma {:induction false} DecodeEncoded(value: nat, width: nat)
    requires value < Pow256(width)
    ensures FromLittleEndian(LittleEndian(value, width)) == value
  {
    if width > 0 {
      DecodeEncoded(value / 256, width - 1);
      assert LittleEndian(value, width)[1..] == LittleEndian(value / 256, width - 1);
    }
  }

  lemma {:induction false} EncodeDecoded(bytes: seq<byte>, width: nat)
    requires |bytes| == width
    ensures LittleEndian(FromLittleEndian(bytes), width) == bytes
  {
    if bytes != [] {
      EncodeDecoded(bytes[1..], width - 1);
      assert FromLittleEndian(bytes) % 256 == bytes[0];
      assert FromLittleEndian(bytes) / 256 == FromLittleEndian(bytes[1..]);
      assert bytes == [bytes[0]] + bytes[1..];
    }
  }

  /** Appending a more significant byte adds it at weight 256^length. */
  lemma {:induction false} FromLittleEndianAppend(bytes: seq<byte>, b: byte)
    ensures FromLittleEndian(bytes + [b]) == FromLittleEndian(bytes) + b * Pow256(|bytes|)
  {
    if bytes == [] {
      assert ([] + [b])[1..] == [];
    } else {
      FromLittleEndianAppend(bytes[1..], b);
      assert (bytes + [b])[1..] == bytes[1..] + [b];
      assert 256 * (b * Pow256(|bytes| - 1)) == b * (256 * Pow256(|bytes| - 1));
    }
  }

  /** Four bytes, the least significant first, spelled out. */
  function LittleWord(a: int, b: int, c: int, d: int): (word: Word32)
    requires 0 <= a < 256 && 0 <= b < 256 && 0 <= c < 256 && 0 <= d < 256
  {
    a + 0x100 * b + 0x1_0000 * c + 0x100_0000 * d
  }

  lemma FourBytes(bytes: seq<byte>)
    requires |bytes| == 4
    ensures FromLittleEndian(bytes) == LittleWord(bytes[0], bytes[1], bytes[2], bytes[3])
  {
    assert bytes[3..][1..] == [];
    assert bytes[2..][1..] == bytes[3..];
    assert bytes[1..][1..] == bytes[2..];
    assert FromLittleEndian(bytes[2..]) == bytes[2] + 256 * FromLittleEndian(bytes[3..]);
  }

  lemma PowerValues()
    ensures Pow256(1) == 0x100
    ensures Pow256(2) == 0x1_0000
    ensures Pow256(4) == 0x1_0000_0000
    ensures Pow256(8) == WORD_LIMIT
  {
    assert Pow256(2) == 256 * Pow256(1);
    assert Pow256(3) == 256 * Pow256(2);
    assert Pow256(4) == 256 * Pow256(3);
    assert Pow256(5) == 256 * Pow256(4);
    assert Pow256(6) == 256 * Pow256(5);
    assert Pow256(7) == 256 * Pow256(6);
    assert Pow256(8) == 256 * Pow256(7);
  }
}
