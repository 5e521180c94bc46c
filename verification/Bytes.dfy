/** Arithmetic of single bytes. */
module Bytes {

  lemma ByteOfNat(d: nat)
    requires d < 256
    ensures (d as bv8) as nat == d
  {
  }

  lemma SmallByte(i: nat)
    requires i < 32
    ensures (i as bv8) as nat == i && i as bv8 < 32
  {
  }

  lemma Nibbles(a: nat, b: nat)
    requires a < 16 && b < 16
    ensures (16 * a + b) / 16 == a && (16 * a + b) % 16 == b
  {
  }
}
