/** sign.c: key generation, signing and verification, plain and streaming, proved against module Sphincs. */
module SignCode {
  import opened Arith
  import opened Bits
  import opened Bytes
  import opened Params
  import opened TweakableHash
  import opened MessageHash
  import opened Merkle
  import Address
  import ComputeRoot
  import Fors
  import ForsCode
  import Sphincs
  import Stream
  import TreeHash
  import Wots
  import WotsDigits
  import Xmss

  // ---- Key generation ----

  /** crypto_sign_seed_keypair */
  method SeedKeypair(sc: Scheme, seed: Bytes) returns (pk: Bytes, sk: Bytes)
    requires sc.Valid() && |seed| == 3 * sc.p.n
    ensures Sphincs.Keypair(pk, sk) == Sphincs.SeedKeypair(sc, seed)
  {
    hide Xmss.Root;
    var n := sc.p.n;
    sk := seed;
    pk := sk[2 * n..];
    var env := InitializeHashFunction(Ctx(sc, pk));
    var root := Xmss.MerkleGenRoot(env, sk[..n], Zeros(n));
    sk := sk + root;
    pk := pk + root;
  }

  /** crypto_sign_seed_keypair_streaming: the same keys, with nothing written to the stream. */
  method SeedKeypairStreaming(sc: Scheme, stream: Stream.Stream, seed: Bytes) returns (pk: Bytes, sk: Bytes)
    requires sc.Valid() && |seed| == 3 * sc.p.n && stream.Valid()
    modifies stream, stream.buffer
    ensures Sphincs.Keypair(pk, sk) == Sphincs.SeedKeypair(sc, seed)
    ensures stream.Valid() && stream.Emitted() == old(stream.Emitted())
  {
    hide Stream.Linked, Xmss.Root, Stream.Stream.Emitted;
    var n := sc.p.n;
    sk := seed;
    pk := sk[2 * n..];
    var env := InitializeHashFunction(Ctx(sc, pk));
    var root := Xmss.MerkleGenRootStreaming(env, stream, sk[..n], Zeros(n));
    sk := sk + root;
    pk := pk + root;
  }

  // ---- Addresses across layers ----

  /** `wots_addr` and `tree_addr` between layers: only the types are fixed, all else is left over. */
  ghost predicate LayerAddresses(env: Env, wotsAddr: Address.Buffer, treeAddr: Address.Buffer)
    reads wotsAddr, wotsAddr.bytes, treeAddr, treeAddr.bytes
  {
    && wotsAddr != treeAddr && wotsAddr.bytes != treeAddr.bytes
    && Fits(env, wotsAddr) && wotsAddr.rec.typ == Address.TYPE_WOTS && wotsAddr.rec.indexHigh == 0
    && (!env.c.sc.p.WideKeypair() ==> wotsAddr.rec.kpHigh == 0)
    && Fits(env, treeAddr) && treeAddr.rec.typ == Address.TYPE_HASHTREE && treeAddr.rec.kpHigh == 0
        && treeAddr.rec.kpLow == 0
  }

  /** `uint32_t wots_addr[8] = {0}, tree_addr[8] = {0}` with their types, and the key pair for FORS. */
  method StartAddresses(env: Env, tree: nat, leaf: nat) returns (wotsAddr: Address.Buffer, treeAddr: Address.Buffer)
    requires env.Valid() && tree < Pow256(8)
    ensures fresh(wotsAddr) && fresh(wotsAddr.bytes) && fresh(treeAddr) && fresh(treeAddr.bytes)
    ensures LayerAddresses(env, wotsAddr, treeAddr)
    ensures wotsAddr.rec == Sphincs.ForsAdrs(env.c.sc.p, tree, leaf)
  {
    hide Address.Buffer.Valid, Pow256;
    wotsAddr := new Address.Buffer(env.c.sc.Layout());
    treeAddr := new Address.Buffer(env.c.sc.Layout());
    wotsAddr.SetType(Address.TYPE_WOTS);
    treeAddr.SetType(Address.TYPE_HASHTREE);
    wotsAddr.SetTree(tree);
    wotsAddr.SetKeypair(env.c.sc.p.WideKeypair(), leaf);
  }

  /** The address calls at the top of each layer. */
  method EnterLayer(env: Env, wotsAddr: Address.Buffer, treeAddr: Address.Buffer, layer: nat, tree: nat, leaf: nat)
    requires env.Valid() && LayerAddresses(env, wotsAddr, treeAddr) && layer < env.c.sc.p.d && tree < Pow256(8)
    modifies wotsAddr, wotsAddr.bytes, treeAddr, treeAddr.bytes
    ensures LayerAddresses(env, wotsAddr, treeAddr)
    ensures Xmss.SubtreeAddresses(env, wotsAddr, treeAddr, Xmss.Base(layer, tree))
    ensures Wots.OnKeypair(wotsAddr.rec, Wots.KeypairAdrs(env.c, Xmss.Base(layer, tree), Address.TYPE_WOTS, leaf))
    ensures treeAddr.rec.Base() == Xmss.Base(layer, tree).(typ := Address.TYPE_HASHTREE)
  {
    hide Address.Buffer.Valid, Pow256;
    treeAddr.SetLayer(layer);
    treeAddr.SetTree(tree);
    wotsAddr.CopySubtree(treeAddr);
    wotsAddr.SetKeypair(env.c.sc.p.WideKeypair(), leaf);
  }

  /** The indices stay in range from layer to layer. */
  ghost predicate IndicesFit(p: Params, layer: nat, tree: nat, leaf: nat) {
    tree < Pow2(Sphincs.TreeBitsAt(p, layer)) && leaf < Pow2(p.TreeHeight())
  }

  lemma TreeFitsAddress(p: Params, layer: nat, tree: nat, leaf: nat)
    requires p.Valid() && layer < p.d && IndicesFit(p, layer, tree, leaf)
    ensures tree < Pow256(8)
  {
    hide Pow2, Pow256;
    Sphincs.SigBytesSplit(p);
    TreeBitsShrink(p, layer);
    Pow2Monotone(Sphincs.TreeBitsAt(p, layer), 64);
    Width64();
  }

  lemma {:induction false} TreeBitsShrink(p: Params, layer: nat)
    requires layer < p.d
    ensures Sphincs.TreeBitsAt(p, layer) <= Sphincs.TreeBitsAt(p, 0)
  {
    if layer > 0 {
      TreeBitsShrink(p, layer - 1);
    }
  }

  lemma Width64()
    ensures Pow256(8) == Pow2(64)
  {
    TreeHash.IndexWidth();
    Pow2Add(32, 32);
    assert Pow256(6) == 0x1_0000 * Pow256(4);
  }

  lemma NextIndices(p: Params, layer: nat, tree: nat, leaf: nat)
    requires p.Valid() && layer < p.d && IndicesFit(p, layer, tree, leaf)
    ensures layer + 1 < p.d ==> IndicesFit(p, layer + 1, Shr(tree, p.TreeHeight()), LowBits(tree, p.TreeHeight()))
  {
    hide Pow2, Shr, LowBits;
    if layer + 1 < p.d {
      Sphincs.NextTree(tree, p.TreeHeight(), Sphincs.TreeBitsAt(p, layer + 1));
    }
  }

  /** `idx_leaf = (tree & ((1 << SPX_TREE_HEIGHT) - 1)); tree = tree >> SPX_TREE_HEIGHT;` */
  method NextLayerIndices(tree: nat, height: nat, ghost tree0: nat, ghost leaf0: nat, ghost leaf: nat, ghost layer: nat)
    returns (nextLeaf: nat, nextTree: nat)
    requires Sphincs.OnWalk(height, tree0, leaf0, layer, tree, leaf)
    ensures nextLeaf == LowBits(tree, height) && nextTree == Shr(tree, height)
    ensures Sphincs.OnWalk(height, tree0, leaf0, layer + 1, nextTree, nextLeaf)
  {
    hide LowBits, Shr, BitAnd, Pow2, Sphincs.OnWalk;
    MaskIsLowBits(tree, height);
    Sphincs.WalkNext(height, tree0, leaf0, layer, tree, leaf);
    nextLeaf, nextTree := BitAnd(tree, Pow2(height) - 1), Shr(tree, height);
  }

  lemma WalkFits(p: Params, tree: nat, leaf: nat)
    requires IndicesFit(p, 0, tree, leaf)
    ensures Sphincs.OnWalk(p.TreeHeight(), tree, leaf, 0, tree, leaf)
  {
    hide Pow2, Sphincs.OnWalk;
    Sphincs.WalkStart(p.TreeHeight(), tree, leaf);
  }

  // ---- Signing ----

  /** The layer loop of crypto_sign_signature. */
  method SignLayers(env: Env, skSeed: Bytes, forsPk: Bytes, tree0: nat, leaf0: nat, wotsAddr: Address.Buffer,
                    treeAddr: Address.Buffer)
    returns (sig: Bytes)
    requires env.Valid() && LayerAddresses(env, wotsAddr, treeAddr) && |forsPk| == env.c.sc.p.n
    requires IndicesFit(env.c.sc.p, 0, tree0, leaf0)
    modifies wotsAddr, wotsAddr.bytes, treeAddr, treeAddr.bytes
    ensures sig == Sphincs.LayerSigs(env.c, skSeed, 0, forsPk, tree0, leaf0)
  {
    hide Sphincs.OnWalk;
    hide Xmss.Signature, Xmss.Root, Address.Buffer.Valid, IndicesFit, Shr, LowBits, Wots.OnKeypair, Wots.KeypairAdrs;
    hide Xmss.SigBytes;
    var p := env.c.sc.p;
    var root, tree, leaf := forsPk, tree0, leaf0;
    sig := [];
    WalkFits(p, tree0, leaf0);
    for i := 0 to p.d
      invariant LayerAddresses(env, wotsAddr, treeAddr) && |root| == p.n
      invariant i < p.d ==> IndicesFit(p, i, tree, leaf)
      invariant Sphincs.OnWalk(p.TreeHeight(), tree0, leaf0, i, tree, leaf)
      invariant sig + Sphincs.LayerSigs(env.c, skSeed, i, root, tree, leaf)
                == Sphincs.LayerSigs(env.c, skSeed, 0, forsPk, tree0, leaf0)
    {
      TreeFitsAddress(p, i, tree, leaf);
      NextIndices(p, i, tree, leaf);
      var part, next := SignLayer(env, skSeed, root, i, tree, leaf, wotsAddr, treeAddr);
      NextLayer(env.c, skSeed, i, root, tree, leaf, sig);
      sig := sig + part;
      root := next;
      leaf, tree := NextLayerIndices(tree, p.TreeHeight(), tree0, leaf0, leaf, i);
    }
    assert Sphincs.LayerSigs(env.c, skSeed, p.d, root, tree, leaf) == [];
  }

  lemma NextLayer(c: Ctx, skSeed: Bytes, layer: nat, msg: Bytes, tree: nat, leaf: nat, before: Bytes)
    requires c.Valid() && |msg| == c.sc.p.n && layer < c.sc.p.d
    ensures var base := Xmss.Base(layer, tree);
            before + Sphincs.LayerSigs(c, skSeed, layer, msg, tree, leaf)
            == before + Xmss.Signature(c, skSeed, base, msg, leaf)
               + Sphincs.LayerSigs(c, skSeed, layer + 1, Xmss.Root(c, skSeed, base), Shr(tree, c.sc.p.TreeHeight()),
                                   LowBits(tree, c.sc.p.TreeHeight()))
  {
    hide Xmss.Signature, Xmss.Root, Shr, LowBits, Xmss.SigBytes;
  }

  /** One layer of signing. */
  method SignLayer(env: Env, skSeed: Bytes, msg: Bytes, layer: nat, tree: nat, leaf: nat, wotsAddr: Address.Buffer,
                   treeAddr: Address.Buffer)
    returns (part: Bytes, root: Bytes)
    requires env.Valid() && LayerAddresses(env, wotsAddr, treeAddr) && |msg| == env.c.sc.p.n
    requires layer < env.c.sc.p.d && tree < Pow256(8) && IndicesFit(env.c.sc.p, layer, tree, leaf)
    modifies wotsAddr, wotsAddr.bytes, treeAddr, treeAddr.bytes
    ensures LayerAddresses(env, wotsAddr, treeAddr)
    ensures part == Xmss.Signature(env.c, skSeed, Xmss.Base(layer, tree), msg, leaf)
    ensures root == Xmss.Root(env.c, skSeed, Xmss.Base(layer, tree))
  {
    hide Xmss.Signature, Xmss.Root, Address.Buffer.Valid, Pow2, Pow256, Wots.OnKeypair, Wots.KeypairAdrs;
    EnterLayer(env, wotsAddr, treeAddr, layer, tree, leaf);
    part, root := Xmss.MerkleSign(env, msg, skSeed, wotsAddr, treeAddr, leaf, Xmss.Base(layer, tree));
  }

  /** crypto_sign_signature; `optrand` is what randombytes delivers. */
  method CryptoSignSignature(sc: Scheme, m: Bytes, sk: Bytes, optrand: Bytes) returns (sig: Bytes)
    requires sc.Valid() && |sk| == 4 * sc.p.n && |optrand| == sc.p.n && |m| <= MAX_MESSAGE
    ensures sig == Sphincs.Sign(sc, sk, optrand, m)
  {
    hide Fors.Signature, Fors.PublicKey, Sphincs.LayerSigs, HashMessage, MessageRandom, Address.Buffer.Valid, Pow2;
    hide Pow256;
    var n := sc.p.n;
    var skSeed, pk := sk[..n], sk[2 * n..];
    var env := InitializeHashFunction(Ctx(sc, sk[2 * n..3 * n]));
    var r := GenMessageRandom(sc, sk[n..2 * n], optrand, m);
    var s := ComputeHashMessage(sc, r, pk, m);
    StartFits(sc.p, s);
    var wotsAddr, treeAddr := StartAddresses(env, s.tree, s.leaf);
    var fors, root := ForsCode.ForsSign(env, s.mhash, skSeed, wotsAddr);
    var layers := SignLayers(env, skSeed, root, s.tree, s.leaf, wotsAddr, treeAddr);
    sig := r + fors + layers;
  }

  lemma StartFits(p: Params, s: Selection)
    requires p.Valid() && s.tree < Pow2(p.TreeBits()) && s.leaf < Pow2(p.TreeHeight())
    ensures IndicesFit(p, 0, s.tree, s.leaf) && s.tree < Pow256(8)
  {
    hide Pow2, Pow256;
    Sphincs.SigBytesSplit(p);
    TreeFitsAddress(p, 0, s.tree, s.leaf);
  }

  /** One layer of streaming signing. */
  method SignLayerStreaming(env: Env, stream: Stream.Stream, skSeed: Bytes, msg: Bytes, layer: nat, tree: nat,
                            leaf: nat, wotsAddr: Address.Buffer, treeAddr: Address.Buffer)
    returns (root: Bytes)
    requires env.Valid() && LayerAddresses(env, wotsAddr, treeAddr) && |msg| == env.c.sc.p.n
    requires layer < env.c.sc.p.d && tree < Pow256(8) && IndicesFit(env.c.sc.p, layer, tree, leaf)
    requires stream.Valid() && stream.buffer != wotsAddr.bytes && stream.buffer != treeAddr.bytes
    modifies wotsAddr, wotsAddr.bytes, treeAddr, treeAddr.bytes, stream, stream.buffer
    ensures LayerAddresses(env, wotsAddr, treeAddr)
    ensures stream.Valid()
    ensures stream.Emitted() == old(stream.Emitted()) + Xmss.Signature(env.c, skSeed, Xmss.Base(layer, tree), msg, leaf)
    ensures root == Xmss.Root(env.c, skSeed, Xmss.Base(layer, tree))
  {
    hide Stream.Linked, Xmss.Signature, Xmss.Root, Address.Buffer.Valid, Pow2, Pow256, Wots.OnKeypair;
    hide Wots.KeypairAdrs, Stream.Stream.Emitted;
    EnterLayer(env, wotsAddr, treeAddr, layer, tree, leaf);
    NotNone(env.c.sc.p, leaf);
    root := Xmss.MerkleSignStreaming(env, stream, msg, skSeed, wotsAddr, treeAddr, leaf, Xmss.Base(layer, tree));
  }

  lemma NotNone(p: Params, leaf: nat)
    requires p.Valid() && leaf < Pow2(p.TreeHeight())
    ensures leaf != 0xFFFF_FFFF
  {
    hide Pow2;
    Xmss.TreeFits(p);
  }

  /** The layer loop of crypto_sign_signature_streaming. */
  method SignLayersStreaming(env: Env, stream: Stream.Stream, skSeed: Bytes, forsPk: Bytes, tree0: nat, leaf0: nat,
                             wotsAddr: Address.Buffer, treeAddr: Address.Buffer)
    requires env.Valid() && LayerAddresses(env, wotsAddr, treeAddr) && |forsPk| == env.c.sc.p.n
    requires IndicesFit(env.c.sc.p, 0, tree0, leaf0)
    requires stream.Valid() && stream.buffer != wotsAddr.bytes && stream.buffer != treeAddr.bytes
    modifies wotsAddr, wotsAddr.bytes, treeAddr, treeAddr.bytes, stream, stream.buffer
    ensures stream.Valid()
    ensures stream.Emitted() == old(stream.Emitted()) + Sphincs.LayerSigs(env.c, skSeed, 0, forsPk, tree0, leaf0)
  {
    hide Stream.Linked, Sphincs.OnWalk;
    hide Xmss.Signature, Xmss.Root, Address.Buffer.Valid, IndicesFit, Shr, LowBits, Wots.OnKeypair, Wots.KeypairAdrs;
    hide Xmss.SigBytes;
    hide Stream.Stream.Emitted, LayerAddresses;
    var p := env.c.sc.p;
    var root, tree, leaf := forsPk, tree0, leaf0;
    WalkFits(p, tree0, leaf0);
    for i := 0 to p.d
      invariant LayerAddresses(env, wotsAddr, treeAddr) && |root| == p.n && stream.Valid()
      invariant i < p.d ==> IndicesFit(p, i, tree, leaf)
      invariant Sphincs.OnWalk(p.TreeHeight(), tree0, leaf0, i, tree, leaf)
      invariant stream.Emitted() + Sphincs.LayerSigs(env.c, skSeed, i, root, tree, leaf)
                == old(stream.Emitted()) + Sphincs.LayerSigs(env.c, skSeed, 0, forsPk, tree0, leaf0)
    {
      TreeFitsAddress(p, i, tree, leaf);
      NextIndices(p, i, tree, leaf);
      NextLayer(env.c, skSeed, i, root, tree, leaf, stream.Emitted());
      root := SignLayerStreaming(env, stream, skSeed, root, i, tree, leaf, wotsAddr, treeAddr);
      leaf, tree := NextLayerIndices(tree, p.TreeHeight(), tree0, leaf0, leaf, i);
    }
    assert Sphincs.LayerSigs(env.c, skSeed, p.d, root, tree, leaf) == [];
    assert stream.Emitted() + [] == stream.Emitted();
  }

  /** crypto_sign_signature_streaming: emits exactly the bytes of crypto_sign_signature, in order. */
  method CryptoSignSignatureStreaming(sc: Scheme, stream: Stream.Stream, m: Bytes, sk: Bytes, optrand: Bytes)
    requires sc.Valid() && |sk| == 4 * sc.p.n && |optrand| == sc.p.n && |m| <= MAX_MESSAGE && stream.Valid()
    modifies stream, stream.buffer
    ensures stream.Valid() && stream.Emitted() == old(stream.Emitted()) + Sphincs.Sign(sc, sk, optrand, m)
  {
    hide Stream.Linked, Fors.Signature, Fors.PublicKey, Sphincs.LayerSigs, HashMessage, MessageRandom;
    hide Address.Buffer.Valid, Pow2, Pow256;
    hide Stream.Stream.Emitted, LayerAddresses;
    var n := sc.p.n;
    var skSeed, pk := sk[..n], sk[2 * n..];
    ghost var before := stream.Emitted();
    var env := InitializeHashFunction(Ctx(sc, sk[2 * n..3 * n]));
    var r := GenMessageRandom(sc, sk[n..2 * n], optrand, m);
    stream.WriteStream(r);
    var s := ComputeHashMessage(sc, r, pk, m);
    StartFits(sc.p, s);
    var wotsAddr, treeAddr := StartAddresses(env, s.tree, s.leaf);
    FitsForFors(env, wotsAddr, treeAddr);
    var root := ForsCode.ForsSignStreaming(env, stream, s.mhash, skSeed, wotsAddr);
    ghost var fors := Fors.Signature(env.c, skSeed, Sphincs.ForsAdrs(sc.p, s.tree, s.leaf), s.mhash);
    assert stream.Emitted() == before + r + fors;
    SignLayersStreaming(env, stream, skSeed, root, s.tree, s.leaf, wotsAddr, treeAddr);
    ghost var layers := Sphincs.LayerSigs(env.c, skSeed, 0, root, s.tree, s.leaf);
    assert before + r + fors + layers == before + (r + fors + layers);
  }

  lemma FitsForFors(env: Env, wotsAddr: Address.Buffer, treeAddr: Address.Buffer)
    requires LayerAddresses(env, wotsAddr, treeAddr)
    ensures Fits(env, wotsAddr)
  {
  }

  // ---- Verification ----

  /** `wots_pk_addr`: its type is fixed, the key pair is copied in at each layer. */
  ghost predicate PkAddress(env: Env, pkAddr: Address.Buffer, wotsAddr: Address.Buffer, treeAddr: Address.Buffer)
    reads pkAddr, pkAddr.bytes
  {
    && pkAddr != wotsAddr && pkAddr.bytes != wotsAddr.bytes && pkAddr != treeAddr && pkAddr.bytes != treeAddr.bytes
    && Fits(env, pkAddr) && pkAddr.rec.typ == Address.TYPE_WOTSPK && pkAddr.rec.mid == 0 && pkAddr.rec.indexHigh == 0
    && pkAddr.rec.last == 0 && (!env.c.sc.p.WideKeypair() ==> pkAddr.rec.kpHigh == 0)
  }

  method StartPkAddress(env: Env, wotsAddr: Address.Buffer, treeAddr: Address.Buffer) returns (pkAddr: Address.Buffer)
    requires env.Valid()
    ensures fresh(pkAddr) && fresh(pkAddr.bytes) && PkAddress(env, pkAddr, wotsAddr, treeAddr)
  {
    hide Address.Buffer.Valid;
    pkAddr := new Address.Buffer(env.c.sc.Layout());
    pkAddr.SetType(Address.TYPE_WOTSPK);
  }

  /** `copy_keypair_addr(wots_pk_addr, wots_addr)` */
  method SelectPk(env: Env, pkAddr: Address.Buffer, wotsAddr: Address.Buffer, treeAddr: Address.Buffer,
                  ghost base: Address.Adrs, ghost leaf: nat)
    requires env.Valid() && PkAddress(env, pkAddr, wotsAddr, treeAddr) && Fits(env, wotsAddr)
    requires Wots.OnKeypair(wotsAddr.rec, Wots.KeypairAdrs(env.c, base, Address.TYPE_WOTS, leaf))
    requires base == Xmss.Base(base.layer, base.tree)
    modifies pkAddr, pkAddr.bytes
    ensures PkAddress(env, pkAddr, wotsAddr, treeAddr)
    ensures pkAddr.rec == Wots.KeypairAdrs(env.c, base, Address.TYPE_WOTSPK, leaf)
  {
    hide Address.Buffer.Valid;
    pkAddr.CopyKeypair(env.c.sc.p.WideKeypair(), wotsAddr);
  }

  /** One layer of crypto_sign_verify. */
  method VerifyLayer(env: Env, msg: Bytes, sig: Bytes, layer: nat, tree: nat, leaf: nat, wotsAddr: Address.Buffer,
                     treeAddr: Address.Buffer, pkAddr: Address.Buffer)
    returns (root: Bytes)
    requires env.Valid() && LayerAddresses(env, wotsAddr, treeAddr) && PkAddress(env, pkAddr, wotsAddr, treeAddr)
    requires |msg| == env.c.sc.p.n && |sig| == Xmss.SigBytes(env.c.sc.p)
    requires layer < env.c.sc.p.d && tree < Pow256(8) && IndicesFit(env.c.sc.p, layer, tree, leaf)
    modifies wotsAddr, wotsAddr.bytes, treeAddr, treeAddr.bytes, pkAddr, pkAddr.bytes
    ensures LayerAddresses(env, wotsAddr, treeAddr) && PkAddress(env, pkAddr, wotsAddr, treeAddr)
    ensures root == Xmss.RootFromSig(env.c, Xmss.Base(layer, tree), leaf, sig, msg)
  {
    hide Address.Buffer.Valid, Pow2, Pow256, Wots.KeypairAdrs, Climb, TweakHash, WotsDigits.ChainLengths;
    hide Wots.EndsFromSig;
    var p := env.c.sc.p;
    ghost var base := Xmss.Base(layer, tree);
    EnterLayer(env, wotsAddr, treeAddr, layer, tree, leaf);
    ghost var wotsRec := wotsAddr.rec;
    SelectPk(env, pkAddr, wotsAddr, treeAddr, base, leaf);
    var wotsPk := Wots.WotsPkFromSig(env, sig[..p.WotsBytes()], msg, wotsAddr,
        Wots.KeypairAdrs(env.c, base, Address.TYPE_WOTS, leaf));
    var leafNode := Thash(env, pkAddr, wotsPk);
    Xmss.TreeFits(p);
    root := ComputeRoot.ComputeRoot(env, leafNode, leaf, 0, sig[p.WotsBytes()..], p.TreeHeight(), treeAddr,
                                    base.(typ := Address.TYPE_HASHTREE));
    StillOnLayer(env, wotsAddr, treeAddr, layer, tree, leaf);
  }

  lemma StillOnLayer(env: Env, wotsAddr: Address.Buffer, treeAddr: Address.Buffer, layer: nat, tree: nat, leaf: nat)
    requires env.Valid() && wotsAddr != treeAddr && wotsAddr.bytes != treeAddr.bytes && Fits(env, wotsAddr)
    requires Fits(env, treeAddr)
    requires Wots.OnKeypair(wotsAddr.rec, Wots.KeypairAdrs(env.c, Xmss.Base(layer, tree), Address.TYPE_WOTS, leaf))
    requires treeAddr.rec.Base() == Xmss.Base(layer, tree).(typ := Address.TYPE_HASHTREE)
    ensures LayerAddresses(env, wotsAddr, treeAddr)
  {
    hide Address.Buffer.Valid;
  }

  /** The layer loop of crypto_sign_verify. */
  method VerifyLayers(env: Env, forsPk: Bytes, sig: Bytes, tree0: nat, leaf0: nat, wotsAddr: Address.Buffer,
                      treeAddr: Address.Buffer, pkAddr: Address.Buffer)
    returns (root: Bytes)
    requires env.Valid() && LayerAddresses(env, wotsAddr, treeAddr) && PkAddress(env, pkAddr, wotsAddr, treeAddr)
    requires |forsPk| == env.c.sc.p.n && |sig| == Sphincs.LayersBytes(env.c.sc.p, 0)
    requires IndicesFit(env.c.sc.p, 0, tree0, leaf0)
    modifies wotsAddr, wotsAddr.bytes, treeAddr, treeAddr.bytes, pkAddr, pkAddr.bytes
    ensures root == Sphincs.LayersRoot(env.c, 0, forsPk, tree0, leaf0, sig)
  {
    hide Sphincs.OnWalk;
    hide Xmss.RootFromSig, Address.Buffer.Valid, IndicesFit, Shr, LowBits, Xmss.SigBytes, LayerAddresses, PkAddress;
    var p := env.c.sc.p;
    var tree, leaf, rest := tree0, leaf0, sig;
    root := forsPk;
    WalkFits(p, tree0, leaf0);
    for i := 0 to p.d
      invariant LayerAddresses(env, wotsAddr, treeAddr) && PkAddress(env, pkAddr, wotsAddr, treeAddr) && |root| == p.n
      invariant i < p.d ==> IndicesFit(p, i, tree, leaf)
      invariant Sphincs.OnWalk(p.TreeHeight(), tree0, leaf0, i, tree, leaf)
      invariant |rest| == Sphincs.LayersBytes(p, i)
      invariant Sphincs.LayersRoot(env.c, i, root, tree, leaf, rest)
                == Sphincs.LayersRoot(env.c, 0, forsPk, tree0, leaf0, sig)
    {
      TreeFitsAddress(p, i, tree, leaf);
      NextIndices(p, i, tree, leaf);
      root := VerifyLayer(env, root, rest[..Xmss.SigBytes(p)], i, tree, leaf, wotsAddr, treeAddr, pkAddr);
      rest := rest[Xmss.SigBytes(p)..];
      leaf, tree := NextLayerIndices(tree, p.TreeHeight(), tree0, leaf0, leaf, i);
    }
  }

  /** crypto_sign_verify: 0 on acceptance, -1 on a wrong length or a wrong root. */
  method CryptoSignVerify(sc: Scheme, sig: Bytes, m: Bytes, pk: Bytes) returns (ret: int)
    requires sc.Valid() && |pk| == 2 * sc.p.n && |m| <= MAX_MESSAGE
    ensures ret == if Sphincs.Verify(sc, pk, m, sig) then 0 else -1
  {
    hide Fors.PkFromSig, Sphincs.LayersRoot, HashMessage, Address.Buffer.Valid, Pow2, Pow256, LayerAddresses, PkAddress;
    hide Sphincs.SplitSig, Sphincs.LayersBytes;
    if |sig| != sc.p.SigBytes() {
      return -1;
    }
    var env := InitializeHashFunction(Ctx(sc, pk[..sc.p.n]));
    var parts := Sphincs.SplitSig(sc.p, sig);
    var s := ComputeHashMessage(sc, parts.r, pk, m);
    StartFits(sc.p, s);
    var wotsAddr, treeAddr := StartAddresses(env, s.tree, s.leaf);
    FitsForFors(env, wotsAddr, treeAddr);
    var pkAddr := StartPkAddress(env, wotsAddr, treeAddr);
    var root := ForsCode.ForsPkFromSig(env, parts.fors, s.mhash, wotsAddr);
    root := VerifyLayers(env, root, parts.layers, s.tree, s.leaf, wotsAddr, treeAddr, pkAddr);
    ret := if root != pk[sc.p.n..] then -1 else 0;
  }

  /** One layer of crypto_sign_verify_streaming; `sig` is the front of the pending bytes. */
  method VerifyLayerStreaming(env: Env, stream: Stream.Stream, msg: Bytes, layer: nat, tree: nat, leaf: nat,
                              wotsAddr: Address.Buffer, treeAddr: Address.Buffer, pkAddr: Address.Buffer,
                              ghost sig: Bytes)
    returns (root: Bytes)
    requires env.Valid() && LayerAddresses(env, wotsAddr, treeAddr) && PkAddress(env, pkAddr, wotsAddr, treeAddr)
    requires |msg| == env.c.sc.p.n && |sig| == Xmss.SigBytes(env.c.sc.p)
    requires layer < env.c.sc.p.d && tree < Pow256(8) && IndicesFit(env.c.sc.p, layer, tree, leaf)
    requires stream.Reading() && sig <= stream.Pending()
    requires stream.buffer != wotsAddr.bytes && stream.buffer != treeAddr.bytes && stream.buffer != pkAddr.bytes
    modifies wotsAddr, wotsAddr.bytes, treeAddr, treeAddr.bytes, pkAddr, pkAddr.bytes, stream, stream.buffer
    ensures LayerAddresses(env, wotsAddr, treeAddr) && PkAddress(env, pkAddr, wotsAddr, treeAddr)
    ensures stream.Reading() && stream.received == old(stream.received)
    ensures stream.Pending() == old(stream.Pending())[|sig|..]
    ensures root == Xmss.RootFromSig(env.c, Xmss.Base(layer, tree), leaf, sig, msg)
  {
    hide Stream.Linked, Address.Buffer.Valid, Pow2, Pow256, Wots.KeypairAdrs, Climb, Wots.LeafFromSig;
    hide Stream.Stream.Pending, Wots.OnKeypair;
    var p := env.c.sc.p;
    ghost var base := Xmss.Base(layer, tree);
    ghost var pending := stream.Pending();
    var cut, path := p.WotsBytes(), p.TreeHeight() * p.n;
    EnterLayer(env, wotsAddr, treeAddr, layer, tree, leaf);
    SelectPk(env, pkAddr, wotsAddr, treeAddr, base, leaf);
    assert pending[..cut] == sig[..cut];
    var leafNode := Wots.WotsLeafStreaming(env, stream, msg, wotsAddr, pkAddr, base, leaf);
    Xmss.TreeFits(p);
    assert pending[cut..][..path] == sig[cut..];
    root := ComputeRoot.ComputeRootStreaming(env, stream, leafNode, leaf, 0, p.TreeHeight(), treeAddr,
                                             base.(typ := Address.TYPE_HASHTREE));
    assert pending[cut..][path..] == pending[|sig|..];
    StillOnLayer(env, wotsAddr, treeAddr, layer, tree, leaf);
  }

  /** The layer loop of crypto_sign_verify_streaming. */
  method VerifyLayersStreaming(env: Env, stream: Stream.Stream, forsPk: Bytes, tree0: nat, leaf0: nat,
                               wotsAddr: Address.Buffer, treeAddr: Address.Buffer, pkAddr: Address.Buffer,
                               ghost sig: Bytes)
    returns (root: Bytes)
    requires env.Valid() && LayerAddresses(env, wotsAddr, treeAddr) && PkAddress(env, pkAddr, wotsAddr, treeAddr)
    requires |forsPk| == env.c.sc.p.n && |sig| == Sphincs.LayersBytes(env.c.sc.p, 0)
    requires IndicesFit(env.c.sc.p, 0, tree0, leaf0)
    requires stream.Reading() && sig <= stream.Pending()
    requires stream.buffer != wotsAddr.bytes && stream.buffer != treeAddr.bytes && stream.buffer != pkAddr.bytes
    modifies wotsAddr, wotsAddr.bytes, treeAddr, treeAddr.bytes, pkAddr, pkAddr.bytes, stream, stream.buffer
    ensures stream.Reading() && stream.received == old(stream.received)
    ensures stream.Pending() == old(stream.Pending())[|sig|..]
    ensures root == Sphincs.LayersRoot(env.c, 0, forsPk, tree0, leaf0, sig)
  {
    hide Sphincs.CutLayer, Sphincs.LayersBytes;
    hide Stream.Linked, Sphincs.OnWalk;
    hide Xmss.RootFromSig, Address.Buffer.Valid, IndicesFit, Shr, LowBits, Xmss.SigBytes, LayerAddresses, PkAddress;
    hide Stream.Stream.Pending;
    var p := env.c.sc.p;
    ghost var after := stream.Pending()[|sig|..];
    assert stream.Pending() == sig + after;
    var tree, leaf := tree0, leaf0;
    ghost var rest := sig;
    root := forsPk;
    WalkFits(p, tree0, leaf0);
    for i := 0 to p.d
      invariant LayerAddresses(env, wotsAddr, treeAddr) && PkAddress(env, pkAddr, wotsAddr, treeAddr) && |root| == p.n
      invariant i < p.d ==> IndicesFit(p, i, tree, leaf)
      invariant Sphincs.OnWalk(p.TreeHeight(), tree0, leaf0, i, tree, leaf)
      invariant |rest| == Sphincs.LayersBytes(p, i)
      invariant stream.Reading() && stream.received == old(stream.received) && stream.Pending() == rest + after
      invariant Sphincs.LayersRoot(env.c, i, root, tree, leaf, rest)
                == Sphincs.LayersRoot(env.c, 0, forsPk, tree0, leaf0, sig)
    {
      TreeFitsAddress(p, i, tree, leaf);
      NextIndices(p, i, tree, leaf);
      ghost var cut := Sphincs.CutLayer(p, i, rest);
      JoinRest(cut.0, cut.1, after);
      root := VerifyLayerStreaming(env, stream, root, i, tree, leaf, wotsAddr, treeAddr, pkAddr, cut.0);
      rest := cut.1;
      leaf, tree := NextLayerIndices(tree, p.TreeHeight(), tree0, leaf0, leaf, i);
    }
    Sphincs.NoLayers(p);
    assert rest + after == after;
  }

  lemma JoinRest(part: Bytes, rest: Bytes, after: Bytes)
    ensures part <= part + rest + after && (part + rest + after)[|part|..] == rest + after
  {
  }

  /** crypto_sign_verify_streaming: on any pending signature, honest or not, consumes exactly SPX_BYTES and returns what
      crypto_sign_verify returns on those bytes. */
  method CryptoSignVerifyStreaming(sc: Scheme, stream: Stream.Stream, m: Bytes, pk: Bytes) returns (ret: int)
    requires sc.Valid() && |pk| == 2 * sc.p.n && |m| <= MAX_MESSAGE
    requires stream.Reading() && sc.p.SigBytes() <= stream.remaining
    modifies stream, stream.buffer
    ensures stream.Reading() && stream.received == old(stream.received)
    ensures |old(stream.Pending())| == old(stream.remaining)
    ensures stream.Pending() == old(stream.Pending())[sc.p.SigBytes()..]
    ensures ret == if Sphincs.Verify(sc, pk, m, old(stream.Pending())[..sc.p.SigBytes()]) then 0 else -1
  {
    hide Stream.Linked, Fors.PkFromSig, Sphincs.LayersRoot, HashMessage, Address.Buffer.Valid, Pow2, Pow256;
    hide LayerAddresses, PkAddress;
    hide Sphincs.SplitSig, Sphincs.LayersBytes, Stream.Stream.Pending, Params.SigBytes, Params.ForsBytes;
    ghost var sig := stream.Pending()[..sc.p.SigBytes()];
    ghost var after := stream.Pending()[sc.p.SigBytes()..];
    ghost var parts := Sphincs.SplitSig(sc.p, sig);
    assert stream.Pending() == parts.r + (parts.fors + (parts.layers + after));
    var env := InitializeHashFunction(Ctx(sc, pk[..sc.p.n]));
    var r := stream.ReadStream(sc.p.n);
    assert r == parts.r && stream.Pending() == parts.fors + (parts.layers + after);
    var s := ComputeHashMessage(sc, r, pk, m);
    StartFits(sc.p, s);
    var wotsAddr, treeAddr := StartAddresses(env, s.tree, s.leaf);
    FitsForFors(env, wotsAddr, treeAddr);
    var pkAddr := StartPkAddress(env, wotsAddr, treeAddr);
    var root := ForsCode.ForsPkFromSigStreaming(env, stream, s.mhash, wotsAddr);
    assert stream.Pending() == parts.layers + after;
    root := VerifyLayersStreaming(env, stream, root, s.tree, s.leaf, wotsAddr, treeAddr, pkAddr, parts.layers);
    assert stream.Pending() == after;
    ret := if root != pk[sc.p.n..] then -1 else 0;
  }
}
