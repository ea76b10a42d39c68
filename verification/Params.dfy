/** The parameter sets of params.c and the sizes init_params derives from them. */
module Params {
  import opened Arith

  datatype Params = Params(n: nat, fullHeight: nat, d: nat, forsHeight: nat, forsTrees: nat, w: nat) {
    /** What the code below needs of a parameter set: the tests of init_params and the field widths. */
    ghost predicate Valid() {
      && n in {16, 24, 32} // mgf1_sha256_update
      && w in {16, 256}
      && d >= 2 && fullHeight == TreeHeight() * d
      && 1 <= TreeHeight() <= 16 // two keypair address bytes
      && TreeHeight() * (d - 1) <= 64 // the tree index is a uint64_t
      && d <= 256 // one layer byte
      && 1 <= forsHeight <= 31 && 1 <= forsTrees
      && forsTrees * Pow2(forsHeight) <= Pow2(32) // 32-bit leaf indices across all FORS trees
    }

    function TreeHeight(): nat { if d == 0 then 0 else fullHeight / d }

    /** SPX_FULL_HEIGHT / SPX_D > 8: the keypair address takes a second byte. */
    predicate WideKeypair() { TreeHeight() > 8 }

    function LogW(): nat { if w == 256 then 8 else 4 }

    function Len1(): nat { 8 * n / LogW() }

    function Len2(): nat {
      if w == 256 then 2
      else if n <= 8 then 2 else if n <= 136 then 3 else 4
    }

    function Len(): nat { Len1() + Len2() }

    function WotsBytes(): nat { Len() * n }

    function ForsMsgBytes(): nat { (forsHeight * forsTrees + 7) / 8 }

    function ForsBytes(): nat { (forsHeight + 1) * forsTrees * n }

    /** SPX_BYTES */
    function SigBytes(): nat { n + ForsBytes() + d * WotsBytes() + fullHeight * n }

    function TreeBits(): nat { if d == 0 then 0 else TreeHeight() * (d - 1) }

    function TreeBytes(): nat { (TreeBits() + 7) / 8 }

    function LeafBytes(): nat { (TreeHeight() + 7) / 8 }

    function DigestBytes(): nat { ForsMsgBytes() + TreeBytes() + LeafBytes() }
  }

  /** The size part of a parameter set name; each exists for SHA-256 and SHAKE256, simple and robust. */
  datatype Size = Fast128 | Small128 | Fast192 | Small192 | Fast256 | Small256

  function InitParams(size: Size): Params {
    match size
    case Fast128 => Params(16, 66, 22, 6, 33, 16)
    case Small128 => Params(16, 63, 7, 12, 14, 16)
    case Fast192 => Params(24, 66, 22, 8, 33, 16)
    case Small192 => Params(24, 63, 7, 14, 17, 16)
    case Fast256 => Params(32, 68, 17, 9, 35, 16)
    case Small256 => Params(32, 64, 8, 14, 22, 16)
  }

  /** The derived sizes of each shipped parameter set: SPX_TREE_HEIGHT, SPX_WOTS_LEN, SPX_FORS_MSG_BYTES, the digest of
      hash_message, and SPX_BYTES. */
  datatype Derived = Derived(treeHeight: nat, len: nat, forsMsgBytes: nat, digestBytes: nat, sigBytes: nat)

  function Known(size: Size): Derived {
    match size
    case Fast128 => Derived(3, 35, 25, 34, 17088)
    case Small128 => Derived(9, 35, 21, 30, 7856)
    case Fast192 => Derived(3, 51, 33, 42, 35664)
    case Small192 => Derived(9, 51, 30, 39, 16224)
    case Fast256 => Derived(4, 67, 40, 49, 49856)
    case Small256 => Derived(8, 67, 39, 47, 29792)
  }

  /** Every shipped parameter set meets the conditions the proofs rely on, and has its known sizes. */
  lemma InitParamsValid(size: Size)
    ensures InitParams(size).Valid()
    ensures var p := InitParams(size);
            Known(size) == Derived(p.TreeHeight(), p.Len(), p.ForsMsgBytes(), p.DigestBytes(), p.SigBytes())
    ensures var p := InitParams(size);
            && p.w == 16 && p.fullHeight == p.TreeHeight() * p.d
            && (p.WideKeypair() <==> size == Small128 || size == Small192)
  {
    hide Pow2;
    SmallPowers();
  }

  lemma SmallPowers()
    ensures Pow2(6) == 64 && Pow2(8) == 256 && Pow2(9) == 512 && Pow2(12) == 4096 && Pow2(14) == 16384
    ensures Pow2(32) == 0x1_0000_0000
  {
    assert Pow2(4) == 16;
    assert Pow2(6) == 64;
    assert Pow2(8) == 256;
    assert Pow2(9) == 512;
    assert Pow2(12) == 4096;
    assert Pow2(14) == 16384;
    assert Pow2(16) == 65536;
    Pow2Add(16, 16);
  }
}
