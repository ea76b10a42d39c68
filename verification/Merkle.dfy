/** Merkle trees as functions: nodes, authentication paths, and the climb of the verifier. */
module Merkle {
  import opened Arith
  import opened Bits
  import opened Bytes
  import opened Params
  import opened TweakableHash
  import Address

  // ---- Bits of node indices ----

  /** `x >> h` */
  function Shr(x: nat, h: nat): nat {
    if h == 0 then x else Shr(x, h - 1) / 2
  }

  /** `x ^ 1`: the index of the sibling. */
  function Sibling(x: nat): nat {
    if x % 2 == 0 then x + 1 else x - 1
  }

  /** `x ^ 1` is the sibling of `x`. */
  lemma XorOne(x: nat)
    ensures BitXor(x, 1) == Sibling(x)
  {
    XorNothing(x / 2);
    Halves(x);
  }

  /** The test `(a ^ b) == 1` of the tree hash says that `a` is the sibling of `b`. */
  lemma XorIsOne(a: nat, b: nat)
    ensures BitXor(a, b) == 1 <==> a == Sibling(b)
  {
    if a != 0 || b != 0 {
      XorIsZero(a / 2, b / 2);
      Halves(a);
      Halves(b);
    }
  }

  /** `off` is the first leaf of a subtree of this height. */
  predicate Aligned(off: nat, height: nat) {
    height == 0 || (off % 2 == 0 && Aligned(off / 2, height - 1))
  }

  lemma ShrNothing(x: nat)
    ensures Shr(x, 0) == x
  {
  }

  lemma {:induction false} ShrHalf(x: nat, h: nat)
    ensures Shr(x / 2, h) == Shr(x, h + 1)
  {
    if h > 0 {
      ShrHalf(x, h - 1);
    }
  }

  lemma {:induction false} AlignedAt(off: nat, height: nat, l: nat)
    requires Aligned(off, height) && l < height
    ensures Shr(off, l) % 2 == 0
  {
    if l > 0 {
      AlignedAt(off / 2, height - 1, l - 1);
      ShrHalf(off, l - 1);
    }
  }

  lemma {:induction false} ShrBound(x: nat, h: nat, height: nat)
    requires x < Pow2(height) && h <= height
    ensures Shr(x, h) < Pow2(height - h)
  {
    if h > 0 {
      ShrBound(x, h - 1, height);
    }
  }

  /** Shifting a sum whose first term is a multiple of the power. */
  lemma {:induction false} ShrAligned(k: nat, x: nat, h: nat)
    ensures Shr(k * Pow2(h) + x, h) == k + Shr(x, h)
    decreases h
  {
    if h > 0 {
      assert k * Pow2(h) == (2 * k) * Pow2(h - 1) by {
        MulAssoc(k, 2, Pow2(h - 1));
      }
      ShrAligned(2 * k, x, h - 1);
    }
  }

  lemma {:induction false} AlignedMultiple(k: nat, h: nat)
    ensures Aligned(k * Pow2(h), h)
    decreases h
  {
    if h > 0 {
      MulAssoc(2, k, Pow2(h - 1));
      MulAssoc(k, 2, Pow2(h - 1));
      assert k * Pow2(h) == 2 * (k * Pow2(h - 1));
      AlignedMultiple(k, h - 1);
    }
  }

  lemma {:induction false} AlignedLess(off: nat, height: nat, h: nat)
    requires Aligned(off, height) && h <= height
    ensures Aligned(off, h)
  {
    if h > 0 {
      AlignedLess(off / 2, height - 1, h - 1);
    }
  }

  // ---- Trees ----

  /** A hash tree: the address of its nodes up to height and index, and its leaves by absolute index. */
  datatype Tree = Tree(c: Ctx, base: Address.Adrs, leaf: nat -> Bytes) {
    ghost predicate Valid() {
      c.Valid() && forall i :: |leaf(i)| == c.sc.p.n
    }
  }

  function Join(c: Ctx, base: Address.Adrs, height: nat, index: nat, children: Bytes): (r: Bytes)
    requires c.Valid()
    ensures |r| == c.sc.p.n
  {
    TweakHash(c, base.WithNode(height, index), children)
  }

  /** The node at `height` with absolute index `i`: the reference definition of the tree. */
  function Node(t: Tree, height: nat, i: nat): (r: Bytes)
    requires t.Valid()
    ensures |r| == t.c.sc.p.n
  {
    if height == 0 then t.leaf(i)
    else Join(t.c, t.base, height, i, Node(t, height - 1, 2 * i) + Node(t, height - 1, 2 * i + 1))
  }

  /** The address of node `index` at `height`, with the fields written out. */
  function NodeAdrs(base: Address.Adrs, height: nat, index: nat): Address.Adrs {
    base.(mid := height % 256, indexHigh := index / 256 % 0x100_0000, last := index % 256)
  }

  /** A row of `count` nodes from the row below: neighbours are hashed together, left before right, at the height of the
      new row and their number in it. */
  function Paired(c: Ctx, base: Address.Adrs, height: nat, first: nat, count: nat, below: seq<Bytes>): (row: seq<Bytes>)
    requires c.Valid() && |below| == 2 * count
    ensures |row| == count
  {
    hide Ctx.Valid;
    seq(count, i requires 0 <= i < count =>
      TweakHash(c, NodeAdrs(base, height, first + i), below[2 * i] + below[2 * i + 1]))
  }

  /** The reference: `count` nodes of the row at `height` from node `first` on, built row by row from the leaves. */
  function Row(t: Tree, height: nat, first: nat, count: nat): (row: seq<Bytes>)
    requires t.Valid()
    ensures |row| == count
    decreases height
  {
    hide Paired, Ctx.Valid;
    if height == 0 then seq(count, i requires 0 <= i < count => t.leaf(first + i))
    else Paired(t.c, t.base, height, first, count, Row(t, height - 1, 2 * first, 2 * count))
  }

  lemma PairedAt(c: Ctx, base: Address.Adrs, height: nat, first: nat, count: nat, below: seq<Bytes>, i: nat)
    requires c.Valid() && |below| == 2 * count && i < count
    ensures Paired(c, base, height, first, count, below)[i]
            == Join(c, base, height, first + i, below[2 * i] + below[2 * i + 1])
  {
    hide TweakHash, Ctx.Valid;
    assert Pow256(3) == 0x100_0000;
  }

  lemma {:induction false} NodeOfRow(t: Tree, height: nat, first: nat, count: nat, i: nat)
    requires t.Valid() && i < count
    ensures Row(t, height, first, count)[i] == Node(t, height, first + i)
    decreases height
  {
    hide TweakHash, Join, Paired, Ctx.Valid;
    if height > 0 {
      NodeOfRow(t, height - 1, 2 * first, 2 * count, 2 * i);
      NodeOfRow(t, height - 1, 2 * first, 2 * count, 2 * i + 1);
      PairedAt(t.c, t.base, height, first, count, Row(t, height - 1, 2 * first, 2 * count), i);
    }
  }

  /** The sibling of the path node at level `l`, for leaf `idx` of the subtree that starts at leaf `off`. */
  function AuthNode(t: Tree, idx: nat, off: nat, l: nat): (r: Bytes)
    requires t.Valid()
    ensures |r| == t.c.sc.p.n
  {
    Node(t, l, Shr(off, l) + Sibling(Shr(idx, l)))
  }

  /** The authentication path, leaf level first. */
  function AuthPath(t: Tree, idx: nat, off: nat, height: nat): (r: Bytes)
    requires t.Valid()
    ensures |r| == height * t.c.sc.p.n
  {
    if height == 0 then [] else AuthPath(t, idx, off, height - 1) + AuthNode(t, idx, off, height - 1)
  }

  /** The verifier's climb from a leaf: at each level the path node goes to the side the index bit says. */
  function Climb(c: Ctx, base: Address.Adrs, leaf: Bytes, idx: nat, off: nat, path: Bytes, height: nat): (r: Bytes)
    requires c.Valid() && height * c.sc.p.n <= |path|
    ensures height > 0 ==> |r| == c.sc.p.n
  {
    if height == 0 then leaf
    else
      assert (height - 1 + 1) * c.sc.p.n == (height - 1) * c.sc.p.n + c.sc.p.n;
      var below := Climb(c, base, leaf, idx, off, path, height - 1);
      Join(c, base, height, Shr(off, height) + Shr(idx, height),
           Children(idx, height - 1, below, Chunk(path, c.sc.p.n, height - 1)))
  }

  function Children(idx: nat, level: nat, node: Bytes, sibling: Bytes): Bytes {
    if Shr(idx, level) % 2 == 1 then sibling + node else node + sibling
  }

  /** Both children of a node on the path, in tree order. */
  lemma PathStep(t: Tree, idx: nat, off: nat, l: nat, height: nat)
    requires t.Valid() && Aligned(off, height) && l < height
    ensures Children(idx, l, Node(t, l, Shr(off, l) + Shr(idx, l)), AuthNode(t, idx, off, l))
            == Node(t, l, 2 * (Shr(off, l + 1) + Shr(idx, l + 1)))
                + Node(t, l, 2 * (Shr(off, l + 1) + Shr(idx, l + 1)) + 1)
  {
    hide Node;
    AlignedAt(off, height, l);
    assert Shr(off, l) == 2 * Shr(off, l + 1);
    if Shr(idx, l) % 2 == 1 {
      assert Sibling(Shr(idx, l)) == 2 * Shr(idx, l + 1);
    } else {
      assert Shr(idx, l) == 2 * Shr(idx, l + 1);
    }
  }

  lemma PathJoin(t: Tree, idx: nat, off: nat, l: nat, height: nat)
    requires t.Valid() && Aligned(off, height) && l < height
    ensures Join(t.c, t.base, l + 1, Shr(off, l + 1) + Shr(idx, l + 1),
                 Children(idx, l, Node(t, l, Shr(off, l) + Shr(idx, l)), AuthNode(t, idx, off, l)))
            == Node(t, l + 1, Shr(off, l + 1) + Shr(idx, l + 1))
  {
    hide Join, Children, AuthNode;
    PathStep(t, idx, off, l, height);
  }

  lemma {:induction false} ChunkOfPath(t: Tree, idx: nat, off: nat, height: nat, l: nat)
    requires t.Valid() && l < height
    ensures (l + 1) * t.c.sc.p.n <= height * t.c.sc.p.n
    ensures Chunk(AuthPath(t, idx, off, height), t.c.sc.p.n, l) == AuthNode(t, idx, off, l)
  {
    hide AuthNode, Chunk;
    var n := t.c.sc.p.n;
    MulMonotone(l + 1, height, n);
    var shorter, last := AuthPath(t, idx, off, height - 1), AuthNode(t, idx, off, height - 1);
    if l < height - 1 {
      ChunkOfPath(t, idx, off, height - 1, l);
      ChunkPrefix(shorter, last, n, l);
    } else {
      ChunkSuffix(shorter, last, n, l);
      assert last[..n] == last;
    }
  }

  /** Climbing from a leaf with its authentication path reaches the node above it: the verifier recomputes
      the signer's root, for every height, leaf index and aligned tree offset. */
  lemma {:induction false} ClimbAuthPath(t: Tree, idx: nat, off: nat, height: nat, h: nat)
    requires t.Valid() && Aligned(off, height) && h <= height
    requires h * t.c.sc.p.n <= height * t.c.sc.p.n
    ensures Climb(t.c, t.base, t.leaf(off + idx), idx, off, AuthPath(t, idx, off, height), h)
            == Node(t, h, Shr(off, h) + Shr(idx, h))
  {
    hide Join, Children, AuthNode, AuthPath, Chunk;
    if h > 0 {
      MulMonotone(h - 1, height, t.c.sc.p.n);
      ClimbAuthPath(t, idx, off, height, h - 1);
      ChunkOfPath(t, idx, off, height, h - 1);
      PathJoin(t, idx, off, h - 1, height);
    }
  }

  /** The root computed by the verifier is the root of the (sub)tree. */
  lemma RootFromAuthPath(t: Tree, idx: nat, off: nat, height: nat)
    requires t.Valid() && Aligned(off, height) && idx < Pow2(height)
    ensures Climb(t.c, t.base, t.leaf(off + idx), idx, off, AuthPath(t, idx, off, height), height)
            == Node(t, height, Shr(off, height))
  {
    hide Climb, Node;
    ClimbAuthPath(t, idx, off, height, height);
    ShrBound(idx, height, height);
  }

  // ---- Sibling subtrees ----

  /** First leaf of the subtree under the sibling at level `h`: `(((idx >> h) ^ 1) << h)`. */
  function SiblingStart(idx: nat, h: nat): nat {
    Sibling(Shr(idx, h)) * Pow2(h)
  }

  /** Rebuilding the sibling from its own subtree gives the node of the full tree, inner addresses included. */
  lemma SiblingSubtree(t: Tree, idx: nat, off: nat, h: nat, height: nat)
    requires t.Valid() && Aligned(off, height) && h < height
    ensures Aligned(off + SiblingStart(idx, h), h)
    ensures Node(t, h, Shr(off + SiblingStart(idx, h), h)) == AuthNode(t, idx, off, h)
  {
    hide Node, Pow2, Shr, Sibling, Aligned;
    ShrSplit(off, height, h);
    AlignedSum(Shr(off, h), Sibling(Shr(idx, h)), h);
  }

  lemma AlignedSum(k: nat, s: nat, h: nat)
    ensures Aligned(k * Pow2(h) + s * Pow2(h), h) && Shr(k * Pow2(h) + s * Pow2(h), h) == k + s
  {
    hide Pow2, Aligned;
    assert k * Pow2(h) + s * Pow2(h) == (k + s) * Pow2(h);
    AlignedMultiple(k + s, h);
    ShrAligned(k + s, 0, h);
    ShrZero(h);
  }

  lemma {:induction false} ShrZero(h: nat)
    ensures Shr(0, h) == 0
  {
    if h > 0 {
      ShrZero(h - 1);
    }
  }

  /** An aligned offset is its shifted value times the power. */
  lemma {:induction false} ShrSplit(off: nat, height: nat, h: nat)
    requires Aligned(off, height) && h <= height
    ensures off == Shr(off, h) * Pow2(h)
  {
    if h > 0 {
      ShrSplit(off, height, h - 1);
      AlignedAt(off, height, h - 1);
      MulAssoc(Shr(off, h), 2, Pow2(h - 1));
      assert Shr(off, h - 1) == 2 * Shr(off, h);
    }
  }

  /** The leaves under the sibling at level `h`. */
  ghost predicate UnderSibling(idx: nat, h: nat, leaf: nat) {
    SiblingStart(idx, h) <= leaf < SiblingStart(idx, h) + Pow2(h)
  }

  lemma {:induction false} ShrDivision(x: nat, h: nat)
    ensures Shr(x, h) * Pow2(h) <= x < (Shr(x, h) + 1) * Pow2(h)
  {
    if h > 0 {
      ShrDivision(x, h - 1);
      var p, q := Pow2(h - 1), Shr(x, h - 1);
      MulAssoc(q / 2, 2, p);
      MulMonotone(2 * (q / 2), q, p);
      MulAssoc(q / 2 + 1, 2, p);
      MulMonotone(q + 1, 2 * (q / 2) + 2, p);
    }
  }

  /** `x & ((1 << h) - 1)` */
  function LowBits(x: nat, h: nat): (r: nat)
    ensures r < Pow2(h) && x == Shr(x, h) * Pow2(h) + r
  {
    ShrDivision(x, h);
    assert (Shr(x, h) + 1) * Pow2(h) == Shr(x, h) * Pow2(h) + Pow2(h);
    x - Shr(x, h) * Pow2(h)
  }

  /** `x & ((1 << h) - 1)` are the low bits of `x`. */
  lemma MaskIsLowBits(x: nat, h: nat)
    ensures BitAnd(x, Pow2(h) - 1) == LowBits(x, h)
  {
    AndMask(x, h);
    ModUnique(x, Pow2(h), Shr(x, h), LowBits(x, h));
  }

  lemma {:induction false} ShrShr(x: nat, a: nat, b: nat)
    ensures Shr(Shr(x, a), b) == Shr(x, a + b)
  {
    if b > 0 {
      ShrShr(x, a, b - 1);
    }
  }

  /** A leaf lies under the sibling at level `h` exactly when its ancestor at that level is the sibling. */
  lemma UnderSiblingIsShr(idx: nat, h: nat, leaf: nat)
    ensures UnderSibling(idx, h, leaf) <==> Shr(leaf, h) == Sibling(Shr(idx, h))
  {
    hide Shr, Sibling, Pow2;
    ShrDivision(leaf, h);
    var s, q, p := Sibling(Shr(idx, h)), Shr(leaf, h), Pow2(h);
    assert (s + 1) * p == s * p + p && (q + 1) * p == q * p + p;
    if q < s {
      MulMonotone(q + 1, s, p);
    } else if s < q {
      MulMonotone(s + 1, q, p);
    }
  }

  /** Above the level where two indices meet they agree. */
  lemma {:induction false} ShrAgree(a: nat, b: nat, l: nat, h: nat)
    requires l <= h && Shr(a, l) == Shr(b, l)
    ensures Shr(a, h) == Shr(b, h)
  {
    if l < h {
      ShrAgree(a, b, l, h - 1);
    }
  }

  /** The highest level at which the ancestors of two different leaves of one tree are siblings. */
  lemma {:induction false} MeetingLevel(idx: nat, leaf: nat, height: nat) returns (h: nat)
    requires Shr(idx, height) == Shr(leaf, height) && idx != leaf
    ensures h < height && Shr(leaf, h) == Sibling(Shr(idx, h))
  {
    if Shr(idx, height - 1) == Shr(leaf, height - 1) {
      h := MeetingLevel(idx, leaf, height - 1);
    } else {
      h := height - 1;
    }
  }

  /** The sibling subtrees the streaming signer rebuilds partition the other leaves of the tree: every leaf but the
      signing one lies under the sibling of exactly one level, and the signing leaf under none. */
  lemma SiblingsPartition(idx: nat, leaf: nat, height: nat)
    requires idx < Pow2(height) && leaf < Pow2(height)
    ensures leaf == idx ==> forall h: nat :: !UnderSibling(idx, h, leaf)
    ensures leaf != idx ==> exists h: nat :: h < height && UnderSibling(idx, h, leaf)
    ensures forall h: nat, k: nat :: UnderSibling(idx, h, leaf) && UnderSibling(idx, k, leaf) ==> h == k
  {
    hide UnderSibling, Shr, Sibling;
    forall h: nat
      ensures UnderSibling(idx, h, leaf) <==> Shr(leaf, h) == Sibling(Shr(idx, h))
    {
      UnderSiblingIsShr(idx, h, leaf);
    }
    if leaf == idx {
      forall h: nat
        ensures !UnderSibling(idx, h, leaf)
      {
        NotOwnSibling(Shr(idx, h));
      }
    } else {
      ShrBound(idx, height, height);
      ShrBound(leaf, height, height);
      var h := MeetingLevel(idx, leaf, height);
      assert UnderSibling(idx, h, leaf);
    }
    forall h: nat, k: nat | h < k && UnderSibling(idx, h, leaf) && UnderSibling(idx, k, leaf)
      ensures false
    {
      MeetAbove(idx, leaf, h);
      ShrAgree(idx, leaf, h + 1, k);
      NotOwnSibling(Shr(idx, k));
    }
  }

  lemma NotOwnSibling(x: nat)
    ensures Sibling(x) != x
  {
  }

  lemma MeetAbove(idx: nat, leaf: nat, h: nat)
    requires Shr(leaf, h) == Sibling(Shr(idx, h))
    ensures Shr(leaf, h + 1) == Shr(idx, h + 1)
  {
  }
}
