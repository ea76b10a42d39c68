/** The 64-bit lanes of fips202.c seen as little-endian bytes. Shift distances are written out per byte
    position, so that the solver only meets constant shifts. */
module Lanes {
  import opened Bytes

  /** `(uint8_t)(lane >> (8 * j))` */
  function LaneByte(lane: bv64, j: nat): byte
    requires j < 8
  {
    match j
    case 0 => (lane & 0xff) as byte
    case 1 => ((lane >> 8) & 0xff) as byte
    case 2 => ((lane >> 16) & 0xff) as byte
    case 3 => ((lane >> 24) & 0xff) as byte
    case 4 => ((lane >> 32) & 0xff) as byte
    case 5 => ((lane >> 40) & 0xff) as byte
    case 6 => ((lane >> 48) & 0xff) as byte
    case _ => ((lane >> 56) & 0xff) as byte
  }

  /** `(uint64_t)b << (8 * j)` */
  function Shifted(b: byte, j: nat): bv64
    requires j < 8
  {
    var lane := b as bv64;
    match j
    case 0 => lane
    case 1 => lane << 8
    case 2 => lane << 16
    case 3 => lane << 24
    case 4 => lane << 32
    case 5 => lane << 40
    case 6 => lane << 48
    case _ => lane << 56
  }

  /** Exclusive or of two lanes, named for the same reason as `XorByte`. */
  function XorWord(a: bv64, b: bv64): bv64 {
    a ^ b
  }

  /** Byte 0 is the least significant one. */
  lemma LaneOrder(b: byte, j: nat)
    requires j < 8
    ensures LaneByte(0x0807_0605_0403_0201, j) == [1, 2, 3, 4, 5, 6, 7, 8][j]
    ensures Shifted(b, 0) == b as bv64 && Shifted(1, 1) == 0x100 && Shifted(1, 7) == 0x100_0000_0000_0000
  {
  }

  lemma XorBytewise(a: bv64, b: bv64, k: nat)
    requires k < 8
    ensures LaneByte(XorWord(a, b), k) == XorByte(LaneByte(a, k), LaneByte(b, k))
  {
    match k
    case 0 => case 1 => case 2 => case 3 => case 4 => case 5 => case 6 => case _ =>
  }

  lemma OrBytewise(a: bv64, b: bv64, k: nat)
    requires k < 8
    ensures LaneByte(a | b, k) == LaneByte(a, k) | LaneByte(b, k)
  {
    match k
    case 0 => case 1 => case 2 => case 3 => case 4 => case 5 => case 6 => case _ =>
  }

  lemma ShiftedByte(b: byte, j: nat, k: nat)
    requires j < 8 && k < 8
    ensures LaneByte(Shifted(b, j), k) == if j == k then b else 0
  {
    match j
    case 0 => match k { case 0 => case 1 => case 2 => case 3 => case 4 => case 5 => case 6 => case _ => }
    case 1 => match k { case 0 => case 1 => case 2 => case 3 => case 4 => case 5 => case 6 => case _ => }
    case 2 => match k { case 0 => case 1 => case 2 => case 3 => case 4 => case 5 => case 6 => case _ => }
    case 3 => match k { case 0 => case 1 => case 2 => case 3 => case 4 => case 5 => case 6 => case _ => }
    case 4 => match k { case 0 => case 1 => case 2 => case 3 => case 4 => case 5 => case 6 => case _ => }
    case 5 => match k { case 0 => case 1 => case 2 => case 3 => case 4 => case 5 => case 6 => case _ => }
    case 6 => match k { case 0 => case 1 => case 2 => case 3 => case 4 => case 5 => case 6 => case _ => }
    case _ => match k { case 0 => case 1 => case 2 => case 3 => case 4 => case 5 => case 6 => case _ => }
  }

  /** XORing a shifted byte into a lane changes that byte of the lane and no other. */
  lemma ShiftedXor(lane: bv64, b: byte, j: nat, k: nat)
    requires j < 8 && k < 8
    ensures LaneByte(XorWord(lane, Shifted(b, j)), k)
            == if j == k then XorByte(LaneByte(lane, k), b) else LaneByte(lane, k)
  {
    hide LaneByte, Shifted, XorByte, XorWord;
    XorBytewise(lane, Shifted(b, j), k);
    ShiftedByte(b, j, k);
    XorByteZero(LaneByte(lane, k));
  }
}
