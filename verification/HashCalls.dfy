/** Every tweakable hash call of a key pair has its own address: the address of each call written out, and no two of
    them alike. */
module HashCalls {
  import opened Arith
  import opened Bytes
  import opened Params
  import opened TweakableHash
  import opened Merkle
  import Address
  import Fors
  import LeafGen
  import Sphincs
  import Wots
  import Xmss

  /** The calls of signing and verification: a chain step, a WOTS public key, an inner node of a subtree, a leaf or
      inner
      node of a FORS tree, and the FORS public key. */
  datatype Call =
    | WotsStep(layer: nat, tree: nat, leaf: nat, chain: nat, step: nat)
    | WotsKey(layer: nat, tree: nat, leaf: nat)
    | TreeNode(layer: nat, tree: nat, height: nat, index: nat)
    | ForsNode(tree: nat, leaf: nat, height: nat, index: nat)
    | ForsKey(tree: nat, leaf: nat)

  /** The field widths of a parameter set. */
  ghost predicate InRange(p: Params, call: Call) {
    match call
    case WotsStep(layer, tree, leaf, chain, step) =>
      layer < p.d && tree < Pow2(64) && leaf < Pow2(p.TreeHeight()) && chain < p.Len() && step < p.w
    case WotsKey(layer, tree, leaf) => layer < p.d && tree < Pow2(64) && leaf < Pow2(p.TreeHeight())
    case TreeNode(layer, tree, height, index) =>
      layer < p.d && tree < Pow2(64) && height <= p.TreeHeight() && index < Pow2(32)
    case ForsNode(tree, leaf, height, index) =>
      tree < Pow2(64) && leaf < Pow2(p.TreeHeight()) && height <= p.forsHeight && index < Pow2(32)
    case ForsKey(tree, leaf) => tree < Pow2(64) && leaf < Pow2(p.TreeHeight())
  }

  /** The address of a call: layer, tree, type, the two keypair bytes, chain or height, and index or step. */
  function CallAdrs(call: Call): Address.Adrs {
    match call
    case WotsStep(layer, tree, leaf, chain, step) =>
      Address.Adrs(layer, tree, 0, leaf / 256, leaf % 256, chain, 0, step)
    case WotsKey(layer, tree, leaf) => Address.Adrs(layer, tree, 1, leaf / 256, leaf % 256, 0, 0, 0)
    case TreeNode(layer, tree, height, index) =>
      Address.Adrs(layer, tree, 2, 0, 0, height, index / 256, index % 256)
    case ForsNode(tree, leaf, height, index) =>
      Address.Adrs(0, tree, 3, leaf / 256, leaf % 256, height, index / 256, index % 256)
    case ForsKey(tree, leaf) => Address.Adrs(0, tree, 4, leaf / 256, leaf % 256, 0, 0, 0)
  }

  // ---- No two calls share an address ----

  lemma Widths(p: Params)
    requires p.Valid()
    ensures Pow256(8) == Pow2(64) && Pow256(3) == 0x100_0000 && Pow2(32) == 0x1_0000_0000
    ensures Pow2(p.TreeHeight()) <= 65536 && p.TreeHeight() <= 16 && p.forsHeight <= 31
    ensures p.Len() <= 256 && p.d <= 256 && p.w <= 256
  {
    hide Pow2, Pow256;
    Pow256IsPow2(8);
    Pow256IsPow2(3);
    Pow256IsPow2(4);
    Pow2Monotone(p.TreeHeight(), 16);
    SmallWidths();
  }

  lemma SmallWidths()
    ensures Pow256(3) == 0x100_0000 && Pow256(4) == 0x1_0000_0000 && Pow2(16) == 65536
  {
    assert Pow2(8) == 256;
  }

  lemma HighByte(x: nat, bound: nat)
    requires x < 256 * bound
    ensures x / 256 < bound
  {
  }

  lemma CallInRange(p: Params, call: Call)
    requires p.Valid() && InRange(p, call)
    ensures CallAdrs(call).InRange()
  {
    hide Pow2, Pow256, Params.Valid, Params.Len;
    Widths(p);
    if !call.TreeNode? {
      HighByte(call.leaf, 256);
    }
    if call.TreeNode? || call.ForsNode? {
      HighByte(call.index, 0x100_0000);
    }
  }

  lemma SplitUnique(x: nat, y: nat)
    ensures x / 256 == y / 256 && x % 256 == y % 256 ==> x == y
  {
  }

  /** The address record determines the call. */
  lemma CallOfAdrs(a: Call, b: Call)
    requires CallAdrs(a) == CallAdrs(b)
    ensures a == b
  {
    if !a.TreeNode? && !b.TreeNode? {
      SplitUnique(a.leaf, b.leaf);
    }
    if (a.TreeNode? || a.ForsNode?) && (b.TreeNode? || b.ForsNode?) {
      SplitUnique(a.index, b.index);
    }
  }

  /** Different calls have different addresses, already in the bytes that enter the hash. */
  lemma CallsApart(c: Ctx, a: Call, b: Call)
    requires c.Valid() && InRange(c.sc.p, a) && InRange(c.sc.p, b)
    requires AddressBytes(c, CallAdrs(a)) == AddressBytes(c, CallAdrs(b))
    ensures a == b
  {
    hide CallAdrs, AddressBytes, InRange;
    CallInRange(c.sc.p, a);
    CallInRange(c.sc.p, b);
    AddressBytesInjective(c, CallAdrs(a), CallAdrs(b));
    CallOfAdrs(a, b);
  }

  // ---- Each hash of the scheme is at its call's address ----

  /** One chain step of the key pair at leaf `leaf` of a subtree. */
  lemma ChainStepCall(c: Ctx, layer: nat, tree: nat, leaf: nat, chain: nat, x: Bytes, step: nat)
    requires c.Valid() && |x| == c.sc.p.n && InRange(c.sc.p, WotsStep(layer, tree, leaf, chain, step))
    ensures var kp := Wots.KeypairAdrs(c, Xmss.Base(layer, tree), Address.TYPE_WOTS, leaf);
            Wots.Chain(c, kp.WithChain(chain), x, step, 1)
            == TweakHash(c, CallAdrs(WotsStep(layer, tree, leaf, chain, step)), x)
  {
    hide TweakHash, Pow2, Pow256, Params.Len;
    Widths(c.sc.p);
    KeypairBytes(c.sc.p, leaf);
    var adr := Wots.KeypairAdrs(c, Xmss.Base(layer, tree), Address.TYPE_WOTS, leaf).WithChain(chain);
    assert adr.WithHash(step) == CallAdrs(WotsStep(layer, tree, leaf, chain, step));
    assert Wots.Chain(c, adr, x, step, 0) == x;
  }

  /** The start of a chain is the pseudorandom value at the address of its first step. */
  lemma ChainStartCall(c: Ctx, skSeed: Bytes, layer: nat, tree: nat, leaf: nat, chain: nat)
    requires c.Valid() && InRange(c.sc.p, WotsStep(layer, tree, leaf, chain, 0))
    ensures Wots.ChainValue(c, skSeed, Wots.KeypairAdrs(c, Xmss.Base(layer, tree), Address.TYPE_WOTS, leaf), chain, 0)
            == Prf(c, skSeed, CallAdrs(WotsStep(layer, tree, leaf, chain, 0)))
  {
    hide Prf, TweakHash, Pow2, Pow256, Params.Len;
    Widths(c.sc.p);
    KeypairBytes(c.sc.p, leaf);
  }

  /** Each element of a chain is one step from the one before. */
  lemma ChainNextCall(c: Ctx, skSeed: Bytes, layer: nat, tree: nat, leaf: nat, chain: nat, step: nat)
    requires c.Valid() && InRange(c.sc.p, WotsStep(layer, tree, leaf, chain, step))
    ensures var kp := Wots.KeypairAdrs(c, Xmss.Base(layer, tree), Address.TYPE_WOTS, leaf);
            Wots.ChainValue(c, skSeed, kp, chain, step + 1)
            == TweakHash(c, CallAdrs(WotsStep(layer, tree, leaf, chain, step)),
                Wots.ChainValue(c, skSeed, kp, chain, step))
  {
    hide TweakHash, Prf, Wots.Chain, CallAdrs, Wots.KeypairAdrs, InRange;
    var adr := Wots.KeypairAdrs(c, Xmss.Base(layer, tree), Address.TYPE_WOTS, leaf).WithChain(chain);
    var start := Prf(c, skSeed, adr.WithHash(0));
    Wots.ChainCompose(c, adr, start, 0, step, 1);
    ChainStepCall(c, layer, tree, leaf, chain, Wots.Chain(c, adr, start, 0, step), step);
  }

  lemma KeypairBytes(p: Params, leaf: nat)
    requires p.Valid() && leaf < Pow2(p.TreeHeight())
    ensures leaf / 256 % 256 == leaf / 256 < 256
    ensures !p.WideKeypair() ==> leaf / 256 == 0
  {
    hide Pow2;
    Widths(p);
    HighByte(leaf, 256);
    if !p.WideKeypair() {
      Pow2Monotone(p.TreeHeight(), 8);
      assert Pow2(8) == 256 by { Pow256IsPow2(1); }
    }
  }

  /** The leaf of a subtree is the hash of the chain ends. */
  lemma LeafCall(c: Ctx, skSeed: Bytes, layer: nat, tree: nat, leaf: nat)
    requires c.Valid() && InRange(c.sc.p, WotsKey(layer, tree, leaf))
    ensures var base := Xmss.Base(layer, tree);
            Node(LeafGen.WotsTree(c, skSeed, base), 0, leaf)
            == TweakHash(c, CallAdrs(WotsKey(layer, tree, leaf)),
                         Wots.PublicKey(c, skSeed, Wots.KeypairAdrs(c, base, Address.TYPE_WOTS, leaf)))
  {
    hide TweakHash, Pow2, Pow256, Wots.PublicKey;
    Widths(c.sc.p);
    KeypairBytes(c.sc.p, leaf);
    assert Wots.KeypairAdrs(c, Xmss.Base(layer, tree), Address.TYPE_WOTSPK, leaf)
        == CallAdrs(WotsKey(layer, tree, leaf));
  }

  /** An inner node of a subtree is the hash of its two children, left before right. */
  lemma TreeNodeCall(c: Ctx, skSeed: Bytes, layer: nat, tree: nat, height: nat, index: nat)
    requires c.Valid() && InRange(c.sc.p, TreeNode(layer, tree, height, index)) && 0 < height
    ensures var t := LeafGen.WotsTree(c, skSeed, Xmss.Base(layer, tree));
            Node(t, height, index)
            == TweakHash(c, CallAdrs(TreeNode(layer, tree, height, index)),
                         Node(t, height - 1, 2 * index) + Node(t, height - 1, 2 * index + 1))
  {
    hide TweakHash, Pow2, Pow256, Wots.Leaf;
    Widths(c.sc.p);
    HighByte(index, 0x100_0000);
    var t := LeafGen.WotsTree(c, skSeed, Xmss.Base(layer, tree));
    assert t.base.WithNode(height, index) == CallAdrs(TreeNode(layer, tree, height, index));
  }

  /** The record that carries the key pair of the FORS trees. */
  function ForsKeypair(c: Ctx, tree: nat, leaf: nat): Address.Adrs {
    Fors.TreeAdrs(c, Sphincs.ForsAdrs(c.sc.p, tree, leaf))
  }

  lemma ForsNodeAdrs(c: Ctx, tree: nat, leaf: nat, height: nat, index: nat)
    requires c.Valid() && InRange(c.sc.p, ForsNode(tree, leaf, height, index))
    ensures ForsKeypair(c, tree, leaf).WithNode(height, index) == CallAdrs(ForsNode(tree, leaf, height, index))
  {
    hide Pow2, Pow256;
    Widths(c.sc.p);
    KeypairBytes(c.sc.p, leaf);
    HighByte(index, 0x100_0000);
  }

  /** A FORS secret, and the leaf over it. */
  lemma ForsLeafCall(c: Ctx, skSeed: Bytes, tree: nat, leaf: nat, index: nat)
    requires c.Valid() && InRange(c.sc.p, ForsNode(tree, leaf, 0, index))
    ensures var kp, adr := ForsKeypair(c, tree, leaf), CallAdrs(ForsNode(tree, leaf, 0, index));
            && Fors.SecretValue(c, skSeed, kp, index) == Prf(c, skSeed, adr)
            && Fors.ForsTree(c, skSeed, kp).leaf(index) == TweakHash(c, adr, Prf(c, skSeed, adr))
  {
    hide TweakHash, Prf, ForsKeypair, CallAdrs, InRange;
    ForsNodeAdrs(c, tree, leaf, 0, index);
  }

  /** An inner node of a FORS tree, numbered across all trees of the key pair. */
  lemma ForsNodeCall(c: Ctx, skSeed: Bytes, tree: nat, leaf: nat, height: nat, index: nat)
    requires c.Valid() && InRange(c.sc.p, ForsNode(tree, leaf, height, index)) && 0 < height
    ensures var t := Fors.ForsTree(c, skSeed, ForsKeypair(c, tree, leaf));
            Node(t, height, index)
            == TweakHash(c, CallAdrs(ForsNode(tree, leaf, height, index)),
                         Node(t, height - 1, 2 * index) + Node(t, height - 1, 2 * index + 1))
  {
    hide TweakHash, Prf, ForsKeypair, CallAdrs, InRange, Fors.SecretValue, Fors.LeafOf;
    ForsNodeAdrs(c, tree, leaf, height, index);
  }

  /** The FORS public key is the hash of the roots. */
  lemma ForsKeyCall(c: Ctx, skSeed: Bytes, tree: nat, leaf: nat)
    requires c.Valid() && InRange(c.sc.p, ForsKey(tree, leaf))
    ensures Fors.PublicKey(c, skSeed, Sphincs.ForsAdrs(c.sc.p, tree, leaf))
            == TweakHash(c, CallAdrs(ForsKey(tree, leaf)),
                         Fors.Roots(c, skSeed, ForsKeypair(c, tree, leaf), c.sc.p.forsTrees))
  {
    hide TweakHash, Pow2, Pow256, Fors.Roots;
    Widths(c.sc.p);
    KeypairBytes(c.sc.p, leaf);
    assert Fors.PkAdrs(c, Sphincs.ForsAdrs(c.sc.p, tree, leaf)) == CallAdrs(ForsKey(tree, leaf));
  }

  // ---- Key pairs apart ----

  /** Different (tree, leaf) pairs use different FORS keys. */
  lemma ForsAdrsInjective(p: Params, tree1: nat, leaf1: nat, tree2: nat, leaf2: nat)
    requires p.Valid() && leaf1 < Pow2(p.TreeHeight()) && leaf2 < Pow2(p.TreeHeight())
    requires Sphincs.ForsAdrs(p, tree1, leaf1) == Sphincs.ForsAdrs(p, tree2, leaf2)
    ensures tree1 == tree2 && leaf1 == leaf2
  {
    hide Pow2;
    KeypairBytes(p, leaf1);
    KeypairBytes(p, leaf2);
    SplitUnique(leaf1, leaf2);
  }

  /** The secrets and nodes of different FORS key pairs, or of different places in one, are hashed under different
      address bytes. */
  lemma ForsNodesApart(c: Ctx, tree1: nat, leaf1: nat, height1: nat, index1: nat,
                       tree2: nat, leaf2: nat, height2: nat, index2: nat)
    requires c.Valid() && InRange(c.sc.p, ForsNode(tree1, leaf1, height1, index1))
    requires InRange(c.sc.p, ForsNode(tree2, leaf2, height2, index2))
    requires AddressBytes(c, ForsKeypair(c, tree1, leaf1).WithNode(height1, index1))
             == AddressBytes(c, ForsKeypair(c, tree2, leaf2).WithNode(height2, index2))
    ensures tree1 == tree2 && leaf1 == leaf2 && height1 == height2 && index1 == index2
  {
    hide ForsKeypair, CallAdrs, AddressBytes, InRange;
    ForsNodeAdrs(c, tree1, leaf1, height1, index1);
    ForsNodeAdrs(c, tree2, leaf2, height2, index2);
    CallsApart(c, ForsNode(tree1, leaf1, height1, index1), ForsNode(tree2, leaf2, height2, index2));
  }
}
