/** SPHINCS+ as functions - key generation, signing and verification - and the theorem that honest signatures verify. */
module Sphincs {
  import opened Arith
  import opened Bytes
  import opened Params
  import opened TweakableHash
  import opened MessageHash
  import opened Merkle
  import Address
  import Fors
  import Xmss

  // ---- Keys ----

  datatype Keypair = Keypair(pk: Bytes, sk: Bytes)

  /** crypto_sign_seed_keypair: sk = SK_SEED || SK_PRF || PUB_SEED || root, pk = PUB_SEED || root. */
  function SeedKeypair(sc: Scheme, seed: Bytes): (k: Keypair)
    requires sc.Valid() && |seed| == 3 * sc.p.n
    ensures |k.pk| == 2 * sc.p.n && |k.sk| == 4 * sc.p.n
  {
    var n := sc.p.n;
    var root := Xmss.Root(Ctx(sc, seed[2 * n..]), seed[..n], Xmss.Base(sc.p.d - 1, 0));
    Keypair(seed[2 * n..] + root, seed + root)
  }

  // ---- The hypertree ----

  /** Signature bytes of layers `layer` to d - 1. */
  function LayersBytes(p: Params, layer: nat): nat
    decreases p.d - layer
  {
    if layer >= p.d then 0 else Xmss.SigBytes(p) + LayersBytes(p, layer + 1)
  }

  /** Width of the tree index at layer `layer`. */
  function TreeBitsAt(p: Params, layer: nat): nat
    decreases p.d - layer
  {
    if layer + 1 >= p.d then 0 else p.TreeHeight() + TreeBitsAt(p, layer + 1)
  }

  lemma NoLayers(p: Params)
    ensures LayersBytes(p, p.d) == 0
  {
  }

  lemma {:induction false} LayersBytesAre(p: Params, layer: nat)
    requires layer <= p.d
    ensures LayersBytes(p, layer) == (p.d - layer) * Xmss.SigBytes(p)
    decreases p.d - layer
  {
    hide Xmss.SigBytes;
    if layer < p.d {
      LayersBytesAre(p, layer + 1);
      MulStep(p.d - layer, Xmss.SigBytes(p));
    }
  }

  lemma {:induction false} TreeBitsAre(p: Params, layer: nat)
    requires layer < p.d
    ensures TreeBitsAt(p, layer) == p.TreeHeight() * (p.d - 1 - layer)
    decreases p.d - layer
  {
    if layer + 1 < p.d {
      TreeBitsAre(p, layer + 1);
      MulStep(p.d - 1 - layer, p.TreeHeight());
    }
  }

  /** The signatures of layers `layer` to d - 1: each layer signs the root of the one below. */
  function LayerSigs(c: Ctx, skSeed: Bytes, layer: nat, msg: Bytes, tree: nat, leaf: nat): (r: Bytes)
    requires c.Valid() && |msg| == c.sc.p.n && layer <= c.sc.p.d
    ensures |r| == LayersBytes(c.sc.p, layer)
    decreases c.sc.p.d - layer
  {
    if layer == c.sc.p.d then []
    else
      var height := c.sc.p.TreeHeight();
      Xmss.Signature(c, skSeed, Xmss.Base(layer, tree), msg, leaf)
      + LayerSigs(c, skSeed, layer + 1, Xmss.Root(c, skSeed, Xmss.Base(layer, tree)),
                  Shr(tree, height), LowBits(tree, height))
  }

  /** The signature of one layer, and those of the layers above it. */
  function CutLayer(p: Params, layer: nat, sig: Bytes): (r: (Bytes, Bytes))
    requires layer < p.d && |sig| == LayersBytes(p, layer)
    ensures |r.0| == Xmss.SigBytes(p) && |r.1| == LayersBytes(p, layer + 1) && sig == r.0 + r.1
  {
    (sig[..Xmss.SigBytes(p)], sig[Xmss.SigBytes(p)..])
  }

  /** The root the verifier reaches from layer `layer` on. */
  function LayersRoot(c: Ctx, layer: nat, msg: Bytes, tree: nat, leaf: nat, sig: Bytes): (r: Bytes)
    requires c.Valid() && |msg| == c.sc.p.n && layer <= c.sc.p.d && |sig| == LayersBytes(c.sc.p, layer)
    ensures |r| == c.sc.p.n
    decreases c.sc.p.d - layer
  {
    hide Xmss.RootFromSig;
    if layer == c.sc.p.d then msg
    else
      var height, cut := c.sc.p.TreeHeight(), CutLayer(c.sc.p, layer, sig);
      LayersRoot(c, layer + 1, Xmss.RootFromSig(c, Xmss.Base(layer, tree), leaf, cut.0, msg),
                 Shr(tree, height), LowBits(tree, height), cut.1)
  }

  /** From layer `layer` on, honest signatures lead to the root of the top subtree, which has tree index 0. */
  lemma {:induction false} LayersHonest(c: Ctx, skSeed: Bytes, layer: nat, msg: Bytes, tree: nat, leaf: nat)
    requires c.Valid() && |msg| == c.sc.p.n && layer < c.sc.p.d
    requires leaf < Pow2(c.sc.p.TreeHeight()) && tree < Pow2(TreeBitsAt(c.sc.p, layer))
    ensures LayersRoot(c, layer, msg, tree, leaf, LayerSigs(c, skSeed, layer, msg, tree, leaf))
            == Xmss.Root(c, skSeed, Xmss.Base(c.sc.p.d - 1, 0))
    decreases c.sc.p.d - layer
  {
    hide Xmss.Signature, Xmss.Root, Xmss.RootFromSig, Pow2, Xmss.SigBytes, Shr, LowBits;
    var cut, height := Xmss.SigBytes(c.sc.p), c.sc.p.TreeHeight();
    var base := Xmss.Base(layer, tree);
    var root := Xmss.Root(c, skSeed, base);
    var first := Xmss.Signature(c, skSeed, base, msg, leaf);
    var rest := LayerSigs(c, skSeed, layer + 1, root, Shr(tree, height), LowBits(tree, height));
    assert (first + rest)[..cut] == first && (first + rest)[cut..] == rest;
    Xmss.RootOfSignature(c, skSeed, base, msg, leaf);
    if layer == c.sc.p.d - 1 {
      PowZero();
    } else {
      NextTree(tree, height, TreeBitsAt(c.sc.p, layer + 1));
      LayersHonest(c, skSeed, layer + 1, root, Shr(tree, height), LowBits(tree, height));
    }
  }

  /** Shifting the tree index by one layer's height. */
  lemma NextTree(tree: nat, height: nat, bits: nat)
    requires tree < Pow2(height + bits)
    ensures Shr(tree, height) < Pow2(bits)
  {
    hide Pow2, Shr;
    ShrBound(tree, height, height + bits);
  }

  /** The indices used at layer `i`. */
  function TreeAt(tree: nat, height: nat, i: nat): nat {
    if i == 0 then tree else Shr(TreeAt(tree, height, i - 1), height)
  }

  function LeafAt(tree: nat, leaf: nat, height: nat, i: nat): nat {
    if i == 0 then leaf else LowBits(TreeAt(tree, height, i - 1), height)
  }

  /** Tree and leaf index together. */
  function FullIndex(tree: nat, leaf: nat, height: nat): nat {
    tree * Pow2(height) + leaf
  }

  /** At layer `i` tree and leaf index together are the full index shifted right by `height * i`. */
  lemma {:induction false} WalkIsShift(tree: nat, leaf: nat, height: nat, i: nat)
    requires leaf < Pow2(height)
    ensures FullIndex(TreeAt(tree, height, i), LeafAt(tree, leaf, height, i), height)
            == Shr(FullIndex(tree, leaf, height), height * i)
    ensures LeafAt(tree, leaf, height, i) < Pow2(height)
  {
    hide Pow2, Shr, LowBits, FullIndex;
    var full := FullIndex(tree, leaf, height);
    if i == 0 {
      assert height * i == 0;
      ShrNothing(full);
    } else {
      WalkIsShift(tree, leaf, height, i - 1);
      var t, l := TreeAt(tree, height, i - 1), LeafAt(tree, leaf, height, i - 1);
      LayerShift(t, l, height);
      ShrShr(full, height * (i - 1), height);
      MulStep(i, height);
      assert height * i == height * (i - 1) + height;
    }
  }

  /** Shifting by one layer leaves the tree index, which splits into the next two. */
  lemma LayerShift(tree: nat, leaf: nat, height: nat)
    requires leaf < Pow2(height)
    ensures Shr(FullIndex(tree, leaf, height), height) == tree
    ensures FullIndex(Shr(tree, height), LowBits(tree, height), height) == tree
  {
    hide Pow2, Shr;
    ShrAligned(tree, leaf, height);
    ShrBound(leaf, height, height);
    PowZero();
  }

  /** The indices that the layer loops hold at layer `i`. */
  ghost predicate OnWalk(height: nat, tree0: nat, leaf0: nat, i: nat, tree: nat, leaf: nat) {
    && leaf0 < Pow2(height) && leaf < Pow2(height)
    && tree == TreeAt(tree0, height, i) && leaf == LeafAt(tree0, leaf0, height, i)
    && FullIndex(tree, leaf, height) == Shr(FullIndex(tree0, leaf0, height), height * i)
  }

  lemma WalkStart(height: nat, tree: nat, leaf: nat)
    requires leaf < Pow2(height)
    ensures OnWalk(height, tree, leaf, 0, tree, leaf)
  {
    WalkIsShift(tree, leaf, height, 0);
  }

  /** One step of the layer loops: the indices stay the full index shifted right. */
  lemma WalkNext(height: nat, tree0: nat, leaf0: nat, i: nat, tree: nat, leaf: nat)
    requires OnWalk(height, tree0, leaf0, i, tree, leaf)
    ensures OnWalk(height, tree0, leaf0, i + 1, Shr(tree, height), LowBits(tree, height))
  {
    hide Pow2, Shr, LowBits;
    WalkIsShift(tree0, leaf0, height, i + 1);
  }

  /** What layer `i` signs: the FORS key, or the root of the subtree below. */
  function MessageAt(c: Ctx, skSeed: Bytes, msg: Bytes, tree: nat, i: nat): (r: Bytes)
    requires c.Valid() && |msg| == c.sc.p.n
    ensures |r| == c.sc.p.n
  {
    if i == 0 then msg else Xmss.Root(c, skSeed, Xmss.Base(i - 1, TreeAt(tree, c.sc.p.TreeHeight(), i - 1)))
  }

  /** The signatures from layer `i` on: of the subtrees and leaves that the full index, shifted right, selects. */
  function SigsFrom(c: Ctx, skSeed: Bytes, msg: Bytes, tree: nat, leaf: nat, i: nat): (r: Bytes)
    requires c.Valid() && |msg| == c.sc.p.n && i <= c.sc.p.d
  {
    hide Xmss.Signature, Xmss.Root, Xmss.SigBytes;
    var height := c.sc.p.TreeHeight();
    LayerSigs(c, skSeed, i, MessageAt(c, skSeed, msg, tree, i), TreeAt(tree, height, i), LeafAt(tree, leaf, height, i))
  }

  /** Behind the bytes of the first `i` layers, the layer signatures are those of the shifted index. */
  lemma {:induction false} LayerSigsFrom(c: Ctx, skSeed: Bytes, msg: Bytes, tree: nat, leaf: nat, i: nat)
    returns (before: Bytes)
    requires c.Valid() && |msg| == c.sc.p.n && i <= c.sc.p.d
    ensures |before| == i * Xmss.SigBytes(c.sc.p)
    ensures LayerSigs(c, skSeed, 0, msg, tree, leaf) == before + SigsFrom(c, skSeed, msg, tree, leaf, i)
  {
    hide Xmss.Signature, Xmss.Root, Xmss.SigBytes, Shr, LowBits, LayerSigs;
    if i == 0 {
      before := [];
    } else {
      var lower := LayerSigsFrom(c, skSeed, msg, tree, leaf, i - 1);
      var part := FirstSig(c, skSeed, msg, tree, leaf, i - 1);
      MulStep(i, Xmss.SigBytes(c.sc.p));
      before := lower + part;
    }
  }

  lemma FirstSig(c: Ctx, skSeed: Bytes, msg: Bytes, tree: nat, leaf: nat, i: nat) returns (part: Bytes)
    requires c.Valid() && |msg| == c.sc.p.n && i < c.sc.p.d
    ensures |part| == Xmss.SigBytes(c.sc.p)
    ensures part == Xmss.Signature(c, skSeed, Xmss.Base(i, TreeAt(tree, c.sc.p.TreeHeight(), i)),
                                   MessageAt(c, skSeed, msg, tree, i), LeafAt(tree, leaf, c.sc.p.TreeHeight(), i))
    ensures SigsFrom(c, skSeed, msg, tree, leaf, i) == part + SigsFrom(c, skSeed, msg, tree, leaf, i + 1)
  {
    hide Xmss.Signature, Xmss.Root, Xmss.SigBytes, Shr, LowBits;
    var height := c.sc.p.TreeHeight();
    part := Xmss.Signature(c, skSeed, Xmss.Base(i, TreeAt(tree, height, i)), MessageAt(c, skSeed, msg, tree, i),
                           LeafAt(tree, leaf, height, i));
  }

  /** Layer `i` of the signature, by its place: layer 0 signs the FORS key, and each layer above the root of the subtree
      below. */
  lemma LayerSigAt(c: Ctx, skSeed: Bytes, msg: Bytes, tree: nat, leaf: nat, i: nat)
    requires c.Valid() && |msg| == c.sc.p.n && i < c.sc.p.d
    ensures (i + 1) * Xmss.SigBytes(c.sc.p) <= |LayerSigs(c, skSeed, 0, msg, tree, leaf)|
    ensures var height := c.sc.p.TreeHeight();
            Chunk(LayerSigs(c, skSeed, 0, msg, tree, leaf), Xmss.SigBytes(c.sc.p), i)
            == if i == 0 then Xmss.Signature(c, skSeed, Xmss.Base(0, tree), msg, leaf)
               else Xmss.Signature(c, skSeed, Xmss.Base(i, TreeAt(tree, height, i)),
                                   Xmss.Root(c, skSeed, Xmss.Base(i - 1, TreeAt(tree, height, i - 1))),
                                   LeafAt(tree, leaf, height, i))
  {
    hide Xmss.Signature, Xmss.Root, Xmss.SigBytes, LayerSigs, SigsFrom, Chunk;
    var size := Xmss.SigBytes(c.sc.p);
    var lower := LayerSigsFrom(c, skSeed, msg, tree, leaf, i);
    var part := FirstSig(c, skSeed, msg, tree, leaf, i);
    MulStep(i + 1, size);
    ChunkSuffix(lower, part + SigsFrom(c, skSeed, msg, tree, leaf, i + 1), size, i);
  }

  // ---- Signing and verification ----

  /** The FORS key pair selected by the digest. */
  function ForsAdrs(p: Params, tree: nat, leaf: nat): Address.Adrs {
    Address.ZERO_ADRS.(tree := tree).WithKeypair(p.WideKeypair(), leaf)
  }

  lemma SigBytesSplit(p: Params)
    requires p.Valid()
    ensures p.SigBytes() == p.n + p.ForsBytes() + LayersBytes(p, 0)
    ensures p.TreeBits() == TreeBitsAt(p, 0)
  {
    LayersBytesAre(p, 0);
    TreeBitsAre(p, 0);
    LayerBytes(p.d, p.WotsBytes(), p.TreeHeight(), p.n, p.fullHeight);
  }

  lemma LayerBytes(d: nat, wots: nat, height: nat, n: nat, full: nat)
    requires full == height * d
    ensures d * (wots + height * n) == d * wots + full * n
  {
    MulAssoc(d, height, n);
    assert d * height == full;
  }

  /** crypto_sign_signature with the signing randomness `optrand`. */
  function Sign(sc: Scheme, sk: Bytes, optrand: Bytes, m: Bytes): (sig: Bytes)
    requires sc.Valid() && |sk| == 4 * sc.p.n
    ensures |sig| == sc.p.SigBytes()
  {
    var n := sc.p.n;
    var c := Ctx(sc, sk[2 * n..3 * n]);
    var r := MessageRandom(sc, sk[n..2 * n], optrand, m);
    var s := HashMessage(sc, r, sk[2 * n..], m);
    var adr := ForsAdrs(sc.p, s.tree, s.leaf);
    SigBytesSplit(sc.p);
    r + Fors.Signature(c, sk[..n], adr, s.mhash)
        + LayerSigs(c, sk[..n], 0, Fors.PublicKey(c, sk[..n], adr), s.tree, s.leaf)
  }

  /** R, the FORS signature and the layer signatures. */
  datatype SigParts = SigParts(r: Bytes, fors: Bytes, layers: Bytes)

  function SplitSig(p: Params, sig: Bytes): (s: SigParts)
    requires p.Valid() && |sig| == p.SigBytes()
    ensures |s.r| == p.n && |s.fors| == p.ForsBytes() && |s.layers| == LayersBytes(p, 0)
    ensures sig == s.r + s.fors + s.layers
  {
    SigBytesSplit(p);
    var rest := sig[p.n..];
    SigParts(sig[..p.n], rest[..p.ForsBytes()], rest[p.ForsBytes()..])
  }

  lemma SplitJoined(p: Params, r: Bytes, fors: Bytes, layers: Bytes)
    requires p.Valid() && |r| == p.n && |fors| == p.ForsBytes() && |layers| == LayersBytes(p, 0)
    ensures |r + fors + layers| == p.SigBytes() && SplitSig(p, r + fors + layers) == SigParts(r, fors, layers)
  {
    SigBytesSplit(p);
    var sig := r + fors + layers;
    assert sig[..p.n] == r;
    assert sig[p.n..] == fors + layers;
  }

  /** The part of verification after the length test. */
  function VerifiedRoot(sc: Scheme, pk: Bytes, m: Bytes, sig: Bytes): (root: Bytes)
    requires sc.Valid() && |pk| == 2 * sc.p.n && |sig| == sc.p.SigBytes()
    ensures |root| == sc.p.n
  {
    RootFromParts(sc, pk, m, SplitSig(sc.p, sig))
  }

  function RootFromParts(sc: Scheme, pk: Bytes, m: Bytes, parts: SigParts): (root: Bytes)
    requires sc.Valid() && |pk| == 2 * sc.p.n
    requires |parts.r| == sc.p.n && |parts.fors| == sc.p.ForsBytes() && |parts.layers| == LayersBytes(sc.p, 0)
    ensures |root| == sc.p.n
  {
    var c := Ctx(sc, pk[..sc.p.n]);
    var s := HashMessage(sc, parts.r, pk, m);
    var forsPk := Fors.PkFromSig(c, ForsAdrs(sc.p, s.tree, s.leaf), parts.fors, s.mhash);
    LayersRoot(c, 0, forsPk, s.tree, s.leaf, parts.layers)
  }

  /** crypto_sign_verify accepts. */
  predicate Verify(sc: Scheme, pk: Bytes, m: Bytes, sig: Bytes)
    requires sc.Valid() && |pk| == 2 * sc.p.n
  {
    |sig| == sc.p.SigBytes() && VerifiedRoot(sc, pk, m, sig) == pk[sc.p.n..]
  }

  /** The fields of a secret key: three seeds and the root. */
  lemma KeyFields(seed: Bytes, root: Bytes, n: nat)
    requires |seed| == 3 * n && |root| == n
    ensures var sk, pk := seed + root, seed[2 * n..] + root;
            && sk[..n] == seed[..n] && sk[n..2 * n] == seed[n..2 * n] && sk[2 * n..3 * n] == seed[2 * n..]
            && pk[..n] == seed[2 * n..] && pk[n..] == root && sk[2 * n..] == pk
  {
  }

  /** For every seed, signing randomness and message, the signature made with the generated secret key verifies under
      the generated public key. */
  lemma SignedVerifies(sc: Scheme, seed: Bytes, optrand: Bytes, m: Bytes)
    requires sc.Valid() && |seed| == 3 * sc.p.n
    ensures var k := SeedKeypair(sc, seed);
            Verify(sc, k.pk, m, Sign(sc, k.sk, optrand, m))
  {
    hide LayerSigs, LayersRoot, Fors.Signature, Fors.PublicKey, Fors.PkFromSig, Xmss.Root, HashMessage, MessageRandom;
    hide Pow2;
    var n := sc.p.n;
    var k := SeedKeypair(sc, seed);
    var c, skSeed := Ctx(sc, seed[2 * n..]), seed[..n];
    KeyFields(seed, Xmss.Root(c, skSeed, Xmss.Base(sc.p.d - 1, 0)), n);
    var r := MessageRandom(sc, seed[n..2 * n], optrand, m);
    var s := HashMessage(sc, r, k.pk, m);
    var adr := ForsAdrs(sc.p, s.tree, s.leaf);
    var fors := Fors.Signature(c, skSeed, adr, s.mhash);
    var forsPk := Fors.PublicKey(c, skSeed, adr);
    var layers := LayerSigs(c, skSeed, 0, forsPk, s.tree, s.leaf);
    var sig := r + fors + layers;
    assert sig == Sign(sc, k.sk, optrand, m);
    SplitJoined(sc.p, r, fors, layers);
    Fors.PkOfSignature(c, skSeed, adr, s.mhash);
    SigBytesSplit(sc.p);
    LayersHonest(c, skSeed, 0, forsPk, s.tree, s.leaf);
  }

  // ---- Rejection ----

  /** Two keys with the same seed under which the signature selects the same digest of the message. */
  ghost predicate SameDigest(sc: Scheme, pk1: Bytes, pk2: Bytes, m: Bytes, sig: Bytes)
    requires sc.Valid() && |pk1| == |pk2| == 2 * sc.p.n
  {
    hide HashMessage;
    && sc.p.n <= |sig| && pk1[..sc.p.n] == pk2[..sc.p.n]
    && HashMessage(sc, sig[..sc.p.n], pk1, m) == HashMessage(sc, sig[..sc.p.n], pk2, m)
  }

  /** At most one root is accepted: two such keys that both accept a signature are the same key. */
  lemma AcceptedRootUnique(sc: Scheme, pk1: Bytes, pk2: Bytes, m: Bytes, sig: Bytes)
    requires sc.Valid() && |pk1| == |pk2| == 2 * sc.p.n && SameDigest(sc, pk1, pk2, m, sig)
    requires Verify(sc, pk1, m, sig) && Verify(sc, pk2, m, sig)
    ensures pk1 == pk2
  {
    hide LayersRoot, Fors.PkFromSig, HashMessage, LayersBytes, SplitSig;
    FirstPart(sc.p, sig);
    assert pk1 == pk1[..sc.p.n] + pk1[sc.p.n..];
    assert pk2 == pk2[..sc.p.n] + pk2[sc.p.n..];
  }

  lemma FirstPart(p: Params, sig: Bytes)
    requires p.Valid() && |sig| == p.SigBytes()
    ensures p.n <= |sig| && SplitSig(p, sig).r == sig[..p.n]
  {
    hide LayersBytes;
    SigBytesSplit(p);
  }

  /** An honest signature is rejected under any other root that selects the same digest. */
  lemma OtherRootRejects(sc: Scheme, seed: Bytes, optrand: Bytes, m: Bytes, pk: Bytes)
    requires sc.Valid() && |seed| == 3 * sc.p.n && |pk| == 2 * sc.p.n
    requires OtherRoot(sc, SeedKeypair(sc, seed), pk, Sign(sc, SeedKeypair(sc, seed).sk, optrand, m), m)
    ensures !Verify(sc, pk, m, Sign(sc, SeedKeypair(sc, seed).sk, optrand, m))
  {
    hide Verify, Sign, SeedKeypair, HashMessage;
    var k := SeedKeypair(sc, seed);
    var sig := Sign(sc, k.sk, optrand, m);
    SignedVerifies(sc, seed, optrand, m);
    if Verify(sc, pk, m, sig) {
      AcceptedRootUnique(sc, k.pk, pk, m, sig);
    }
  }

  /** A key with the seed of `k` and a different root, under which the signature selects the same digest. */
  ghost predicate OtherRoot(sc: Scheme, k: Keypair, pk: Bytes, sig: Bytes, m: Bytes)
    requires sc.Valid() && |pk| == |k.pk| == 2 * sc.p.n
  {
    SameDigest(sc, k.pk, pk, m, sig) && pk[sc.p.n..] != k.pk[sc.p.n..]
  }
}
