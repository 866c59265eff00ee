/** Bytes, and the two masks that write a version and a variant into one. */
module Bytes {
  newtype Byte = x: int | 0 <= x < 256

  /** The bits of a byte, the most significant first. */
  function Bits(b: Byte): (c: bv8)
    ensures c as int == b as int
  {
    if b == 0 then 0
    else
      var c := Bits(b / 2);
      AppendedBit(c);
      if b % 2 == 0 then c << 1 else (c << 1) | 1
  }

  lemma AppendedBit(c: bv8)
    ensures c as int < 128 ==> (c << 1) as int == 2 * c as int && ((c << 1) | 1) as int == 2 * c as int + 1
  {
  }

  /** `(b & 0x0f) | 0x70` */
  function WithVersion(b: Byte): Byte {
    ((Bits(b) & 0x0f) | 0x70) as Byte
  }

  /** `(b & 0x3f) | 0x80` */
  function WithVariant(b: Byte): Byte {
    ((Bits(b) & 0x3f) | 0x80) as Byte
  }

  lemma VersionBits(b: Byte)
    ensures WithVersion(b) == b % 16 + 0x70
  {
    LowNibble(Bits(b));
  }

  lemma VariantBits(b: Byte)
    ensures WithVariant(b) == b % 64 + 0x80
  {
    LowSixBits(Bits(b));
  }

  lemma LowNibble(c: bv8)
    ensures ((c & 0x0f) | 0x70) as int == c as int % 16 + 0x70
  {
  }

  lemma LowSixBits(c: bv8)
    ensures ((c & 0x3f) | 0x80) as int == c as int % 64 + 0x80
  {
  }
}
