/** The bytes of a signature by their places: what each N-byte element is. */
module SignatureLayout {
  import opened Arith
  import opened Bytes
  import opened Params
  import opened TweakableHash
  import opened MessageHash
  import opened Merkle
  import opened WotsDigits
  import Address
  import Fors
  import LeafGen
  import Sphincs
  import Wots
  import Xmss

  /** R, the FORS signature of the selected key pair, and the layer signatures of its public key. */
  lemma SignWritten(sc: Scheme, sk: Bytes, optrand: Bytes, m: Bytes)
    requires sc.Valid() && |sk| == 4 * sc.p.n
    ensures var n := sc.p.n;
            var c, skSeed, r := Ctx(sc, sk[2 * n..3 * n]), sk[..n], MessageRandom(sc, sk[n..2 * n], optrand, m);
            var s := HashMessage(sc, r, sk[2 * n..], m);
            var adr := Sphincs.ForsAdrs(sc.p, s.tree, s.leaf);
            Sphincs.SplitSig(sc.p, Sphincs.Sign(sc, sk, optrand, m))
            == Sphincs.SigParts(r, Fors.Signature(c, skSeed, adr, s.mhash),
                                Sphincs.LayerSigs(c, skSeed, 0, Fors.PublicKey(c, skSeed, adr), s.tree, s.leaf))
  {
    hide Sphincs.LayerSigs, Fors.Signature, Fors.PublicKey, HashMessage, MessageRandom, Sphincs.SplitSig;
    hide Sphincs.ForsAdrs, Params.Valid, Params.SigBytes, Params.ForsBytes, Sphincs.LayersBytes;
    var n := sc.p.n;
    var c, skSeed, r := Ctx(sc, sk[2 * n..3 * n]), sk[..n], MessageRandom(sc, sk[n..2 * n], optrand, m);
    var s := HashMessage(sc, r, sk[2 * n..], m);
    var adr := Sphincs.ForsAdrs(sc.p, s.tree, s.leaf);
    Sphincs.SplitJoined(sc.p, r, Fors.Signature(c, skSeed, adr, s.mhash),
                        Sphincs.LayerSigs(c, skSeed, 0, Fors.PublicKey(c, skSeed, adr), s.tree, s.leaf));
  }

  /** Part `i` of the FORS signature. */
  lemma ForsPartAt(c: Ctx, skSeed: Bytes, adr: Address.Adrs, m: Bytes, i: nat)
    requires c.Valid() && |m| == c.sc.p.ForsMsgBytes() && i < c.sc.p.forsTrees
    ensures (i + 1) * Fors.PartBytes(c.sc.p) <= c.sc.p.ForsBytes()
    ensures Chunk(Fors.Signature(c, skSeed, adr, m), Fors.PartBytes(c.sc.p), i)
            == Fors.Part(c, skSeed, Fors.TreeAdrs(c, adr), m, i)
  {
    hide Fors.Part, Fors.Parts, Chunk, Fors.TreeAdrs, Fors.PartBytes;
    Fors.PartsLength(c.sc.p);
    Fors.ChunkOfParts(c, skSeed, Fors.TreeAdrs(c, adr), m, c.sc.p.forsTrees, i);
  }

  /** A part is the secret of the selected leaf and its path; leaves are numbered across all trees. */
  lemma ForsPartWritten(c: Ctx, skSeed: Bytes, kp: Address.Adrs, m: Bytes, i: nat) returns (path: Bytes)
    requires c.Valid() && |m| == c.sc.p.ForsMsgBytes() && i < c.sc.p.forsTrees
    ensures var off, idx := i * Pow2(c.sc.p.forsHeight), Fors.Index(c.sc.p, m, i);
            && Fors.Part(c, skSeed, kp, m, i) == Fors.SecretValue(c, skSeed, kp, off + idx) + path
            && path == AuthPath(Fors.ForsTree(c, skSeed, kp), idx, off, c.sc.p.forsHeight)
  {
    hide Fors.SecretValue, AuthPath, Fors.Index, Fors.ForsTree, Pow2;
    path := AuthPath(Fors.ForsTree(c, skSeed, kp), Fors.Index(c.sc.p, m, i), Fors.LeafOffset(c.sc.p, i),
        c.sc.p.forsHeight);
  }

  /** A subtree signature is the WOTS signature and the path. */
  lemma SubtreeSigWritten(c: Ctx, skSeed: Bytes, base: Address.Adrs, msg: Bytes, idx: nat)
    returns (wots: Bytes, path: Bytes)
    requires c.Valid() && |msg| == c.sc.p.n
    ensures Xmss.Signature(c, skSeed, base, msg, idx) == wots + path && |wots| == c.sc.p.WotsBytes()
    ensures wots == Wots.Values(c, skSeed, Wots.KeypairAdrs(c, base, Address.TYPE_WOTS, idx),
                                ChainLengths(c.sc.p, msg), c.sc.p.Len())
    ensures path == AuthPath(LeafGen.WotsTree(c, skSeed, base), idx, 0, c.sc.p.TreeHeight())
  {
    hide AuthPath, LeafGen.WotsTree, Wots.KeypairAdrs, Wots.Values, ChainLengths;
    wots := Wots.Signature(c, skSeed, Wots.KeypairAdrs(c, base, Address.TYPE_WOTS, idx), msg);
    path := AuthPath(LeafGen.WotsTree(c, skSeed, base), idx, 0, c.sc.p.TreeHeight());
  }

  /** Chain `i` of a WOTS signature is at the step of its length. */
  lemma ChainElementAt(c: Ctx, skSeed: Bytes, kp: Address.Adrs, lengths: seq<nat>, i: nat)
    requires c.Valid() && |lengths| == c.sc.p.Len() && i < |lengths|
    ensures (i + 1) * c.sc.p.n <= |lengths| * c.sc.p.n
    ensures Chunk(Wots.Values(c, skSeed, kp, lengths, |lengths|), c.sc.p.n, i)
            == Wots.ChainValue(c, skSeed, kp, i, lengths[i])
  {
    hide Wots.Values, Chunk, Wots.ChainValue;
    Wots.ChunkOfValues(c, skSeed, kp, lengths, |lengths|, i);
  }

  /** A WOTS public key is the ends of all chains. */
  lemma KeyElementAt(c: Ctx, skSeed: Bytes, kp: Address.Adrs, i: nat)
    requires c.Valid() && i < c.sc.p.Len()
    ensures (i + 1) * c.sc.p.n <= |Wots.PublicKey(c, skSeed, kp)|
    ensures Chunk(Wots.PublicKey(c, skSeed, kp), c.sc.p.n, i) == Wots.ChainValue(c, skSeed, kp, i, c.sc.p.w - 1)
  {
    hide Wots.Values, Chunk, Wots.ChainValue;
    ChainElementAt(c, skSeed, kp, Wots.Ends(c.sc.p), i);
  }

  /** Element `i` of the hashed FORS roots is the root of tree `i`. */
  lemma {:induction false} RootElementAt(c: Ctx, skSeed: Bytes, kp: Address.Adrs, count: nat, i: nat)
    requires c.Valid() && i < count
    ensures (i + 1) * c.sc.p.n <= count * c.sc.p.n
    ensures Chunk(Fors.Roots(c, skSeed, kp, count), c.sc.p.n, i)
            == Node(Fors.ForsTree(c, skSeed, kp), c.sc.p.forsHeight, i)
  {
    hide Chunk, Node, Fors.ForsTree, Fors.Root;
    var n := c.sc.p.n;
    MulMonotone(i + 1, count, n);
    var shorter, last := Fors.Roots(c, skSeed, kp, count - 1), Fors.Root(c, skSeed, kp, count - 1);
    if i < count - 1 {
      RootElementAt(c, skSeed, kp, count - 1, i);
      ChunkPrefix(shorter, last, n, i);
    } else {
      ChunkSuffix(shorter, last, n, i);
      assert last[..n] == last;
      RootIsNode(c, skSeed, kp, i);
    }
  }

  lemma RootIsNode(c: Ctx, skSeed: Bytes, kp: Address.Adrs, i: nat)
    requires c.Valid()
    ensures Fors.Root(c, skSeed, kp, i) == Node(Fors.ForsTree(c, skSeed, kp), c.sc.p.forsHeight, i)
  {
    hide Node, Fors.ForsTree;
  }

  /** Element `l` of a path is the sibling node at that height. */
  lemma PathElementAt(t: Tree, idx: nat, off: nat, height: nat, l: nat)
    requires t.Valid() && l < height
    ensures (l + 1) * t.c.sc.p.n <= height * t.c.sc.p.n
    ensures Chunk(AuthPath(t, idx, off, height), t.c.sc.p.n, l) == Node(t, l, Shr(off, l) + Sibling(Shr(idx, l)))
  {
    hide AuthPath, Chunk, Node, Shr, Sibling;
    ChunkOfPath(t, idx, off, height, l);
  }

  /** The chain lengths: the digits of the message read as a big-endian number, then those of the checksum. */
  lemma LengthsWritten(p: Params, msg: Bytes)
    requires p.Valid() && |msg| == p.n
    ensures var lengths := ChainLengths(p, msg);
            && Value(p.w, lengths[..p.Len1()]) == FromBigEndian(msg)
            && Value(p.w, lengths[p.Len1()..]) == p.Len1() * (p.w - 1) - Sum(lengths[..p.Len1()])
  {
    hide FromBigEndian, Checksum, Value, Numeral, Sum, MessageDigits, Params.Valid;
    BaseOf(p);
    var digits := MessageDigits(p, msg);
    var lengths := ChainLengths(p, msg);
    assert lengths[..p.Len1()] == digits;
    assert lengths[p.Len1()..] == Numeral(Checksum(p.w, digits), p.w, p.Len2());
    MessageNumber(p, msg);
    ChecksumFits(p, msg);
    NumeralValue(Checksum(p.w, digits), p.w, p.Len2());
    ChecksumIsRest(p.w, digits);
  }

  lemma BaseOf(p: Params)
    requires p.Valid()
    ensures IsBase(p.w)
  {
  }

  /** Keys: three seeds and the root; the public key is the public seed and the root of the top subtree. */
  lemma KeysWritten(sc: Scheme, seed: Bytes)
    requires sc.Valid() && |seed| == 3 * sc.p.n
    ensures var n, k := sc.p.n, Sphincs.SeedKeypair(sc, seed);
            && k.sk[..n] == seed[..n] && k.sk[n..2 * n] == seed[n..2 * n] && k.sk[2 * n..] == k.pk
            && k.pk[..n] == seed[2 * n..]
            && k.pk[n..] == Node(LeafGen.WotsTree(Ctx(sc, seed[2 * n..]), seed[..n], Xmss.Base(sc.p.d - 1, 0)),
                                 sc.p.TreeHeight(), 0)
  {
    hide Node, LeafGen.WotsTree, Params.Valid;
    var n := sc.p.n;
    Sphincs.KeyFields(seed, Xmss.Root(Ctx(sc, seed[2 * n..]), seed[..n], Xmss.Base(TopLayer(sc.p), 0)), n);
  }

  function TopLayer(p: Params): nat
    requires p.Valid()
  {
    p.d - 1
  }
}
