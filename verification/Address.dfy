/** Hash addresses: the byte setters of address.c over the two layouts of params.c, and the abstract record they
    encode. */
module Address {
  import opened Arith
  import opened Bytes

  /** The SPX_OFFSET_* variables; the hash address is the last byte of the tree index in both layouts. */
  datatype Layout = Layout(layer: nat, tree: nat, typ: nat, kp2: nat, kp1: nat, mid: nat, index: nat, hash: nat)

  const SHA_LAYOUT := Layout(0, 1, 9, 12, 13, 17, 18, 21)
  const SHAKE_LAYOUT := Layout(3, 8, 19, 22, 23, 27, 28, 31)

  predicate IsLayout(l: Layout) {
    l == SHA_LAYOUT || l == SHAKE_LAYOUT
  }

  const TYPE_WOTS := 0
  const TYPE_WOTSPK := 1
  const TYPE_HASHTREE := 2
  const TYPE_FORSTREE := 3
  const TYPE_FORSPK := 4

  /** `mid` is the chain address or the tree height; `indexHigh` and `last` together are the tree index,
      `last` alone is the hash address. */
  datatype Adrs = Adrs(layer: nat, tree: nat, typ: nat, kpHigh: nat, kpLow: nat, mid: nat, indexHigh: nat, last: nat) {
    predicate InRange() {
      && layer < 256 && tree < Pow256(8) && typ < 256 && kpHigh < 256 && kpLow < 256
      && mid < 256 && indexHigh < Pow256(3) && last < 256
    }

    function WithKeypair(wide: bool, kp: nat): Adrs {
      if wide then this.(kpHigh := kp / 256 % 256, kpLow := kp % 256) else this.(kpLow := kp % 256)
    }

    function WithChain(chain: nat): Adrs { this.(mid := chain % 256) }

    function WithHash(hash: nat): Adrs { this.(last := hash % 256) }

    /** The address of a tree node: height, and index as a 32-bit number. */
    function WithNode(height: nat, index: nat): Adrs {
      this.(mid := height % 256, indexHigh := index / 256 % Pow256(3), last := index % 256)
    }

    function WithHeight(height: nat): Adrs { this.(mid := height % 256) }

    function WithIndex(index: nat): Adrs { this.(indexHigh := index / 256 % Pow256(3), last := index % 256) }

    function WithSubtreeOf(other: Adrs): Adrs { this.(layer := other.layer, tree := other.tree) }

    function WithKeypairOf(wide: bool, other: Adrs): Adrs {
      var r := WithSubtreeOf(other).(kpLow := other.kpLow);
      if wide then r.(kpHigh := other.kpHigh) else r
    }

    /** Everything but the node fields. */
    function Base(): Adrs { this.(mid := 0, indexHigh := 0, last := 0) }
  }

  const ZERO_ADRS := Adrs(0, 0, 0, 0, 0, 0, 0, 0)

  function EncodedByte(l: Layout, r: Adrs, i: nat): byte {
    if i == l.layer then ByteOf(r.layer)
    else if l.tree <= i < l.tree + 8 then BigEndian(r.tree, 8)[i - l.tree]
    else if i == l.typ then ByteOf(r.typ)
    else if i == l.kp2 then ByteOf(r.kpHigh)
    else if i == l.kp1 then ByteOf(r.kpLow)
    else if i == l.mid then ByteOf(r.mid)
    else if l.index <= i < l.index + 3 then BigEndian(r.indexHigh, 3)[i - l.index]
    else if i == l.hash then ByteOf(r.last)
    else 0
  }

  /** The 32 bytes of an address. */
  function Encode(l: Layout, r: Adrs): (b: Bytes)
    ensures |b| == 32
  {
    seq(32, i requires 0 <= i < 32 => EncodedByte(l, r, i))
  }

  /** The SHA-256 layout written out; the hash reads the first 22 bytes. */
  lemma ShaBytes(r: Adrs)
    ensures Encode(SHA_LAYOUT, r)
            == [ByteOf(r.layer)] + BigEndian(r.tree, 8) + [ByteOf(r.typ)] + [0, 0]
               + [ByteOf(r.kpHigh), ByteOf(r.kpLow)] + [0, 0, 0] + [ByteOf(r.mid)] + BigEndian(r.indexHigh, 3)
               + [ByteOf(r.last)] + Zeros(10)
  {
    hide BigEndian, ByteOf;
  }

  /** The SHAKE256 layout written out. */
  lemma ShakeBytes(r: Adrs)
    ensures Encode(SHAKE_LAYOUT, r)
            == [0, 0, 0] + [ByteOf(r.layer)] + Zeros(4) + BigEndian(r.tree, 8) + [0, 0, 0] + [ByteOf(r.typ)] + [0, 0]
               + [ByteOf(r.kpHigh), ByteOf(r.kpLow)] + [0, 0, 0] + [ByteOf(r.mid)] + BigEndian(r.indexHigh, 3)
               + [ByteOf(r.last)]
  {
    hide BigEndian, ByteOf;
    var head := [0, 0, 0] + [ByteOf(r.layer)] + Zeros(4) + BigEndian(r.tree, 8) + [0, 0, 0] + [ByteOf(r.typ)];
    assert Encode(SHAKE_LAYOUT, r)[..20] == head;
    var tail := [0, 0] + [ByteOf(r.kpHigh), ByteOf(r.kpLow)] + [0, 0, 0] + [ByteOf(r.mid)] + BigEndian(r.indexHigh, 3)
        + [ByteOf(r.last)];
    assert Encode(SHAKE_LAYOUT, r)[20..] == tail;
  }

  /** In either layout different in-range addresses have different bytes, already in the first 22 (SHA-256) or all
      32. */
  lemma EncodeInjective(l: Layout, r1: Adrs, r2: Adrs)
    requires IsLayout(l) && r1.InRange() && r2.InRange()
    requires Encode(l, r1)[..if l == SHA_LAYOUT then 22 else 32] == Encode(l, r2)[..if l == SHA_LAYOUT then 22 else 32]
    ensures r1 == r2
  {
    hide Encode, BigEndian, Pow256;
    var cut := if l == SHA_LAYOUT then 22 else 32;
    forall i | 0 <= i < cut
      ensures EncodedByte(l, r1, i) == EncodedByte(l, r2, i)
    {
      SamePrefixByte(l, r1, r2, cut, i);
    }
    FieldByte(l, r1, r2);
    var t1, t2 := BigEndian(r1.tree, 8), BigEndian(r2.tree, 8);
    forall j | 0 <= j < 8
      ensures t1[j] == t2[j]
    {
      assert EncodedByte(l, r1, l.tree + j) == EncodedByte(l, r2, l.tree + j);
    }
    assert t1 == t2;
    FieldInjective(r1.tree, r2.tree, 8);
    var h1, h2 := BigEndian(r1.indexHigh, 3), BigEndian(r2.indexHigh, 3);
    forall j | 0 <= j < 3
      ensures h1[j] == h2[j]
    {
      assert EncodedByte(l, r1, l.index + j) == EncodedByte(l, r2, l.index + j);
    }
    assert h1 == h2;
    FieldInjective(r1.indexHigh, r2.indexHigh, 3);
  }

  lemma SamePrefixByte(l: Layout, r1: Adrs, r2: Adrs, cut: nat, i: nat)
    requires i < cut <= 32 && Encode(l, r1)[..cut] == Encode(l, r2)[..cut]
    ensures EncodedByte(l, r1, i) == EncodedByte(l, r2, i)
  {
    hide EncodedByte;
    assert Encode(l, r1)[..cut][i] == EncodedByte(l, r1, i);
    assert Encode(l, r2)[..cut][i] == EncodedByte(l, r2, i);
  }

  /** The one-byte fields. */
  lemma FieldByte(l: Layout, r1: Adrs, r2: Adrs)
    requires IsLayout(l) && r1.InRange() && r2.InRange()
    requires forall i | 0 <= i < if l == SHA_LAYOUT then 22 else 32 :: EncodedByte(l, r1, i) == EncodedByte(l, r2, i)
    ensures r1.layer == r2.layer && r1.typ == r2.typ && r1.kpHigh == r2.kpHigh && r1.kpLow == r2.kpLow
    ensures r1.mid == r2.mid && r1.last == r2.last
  {
    hide ByteOf, BigEndian, Pow256;
    assert EncodedByte(l, r1, l.layer) == EncodedByte(l, r2, l.layer);
    ByteInjective(r1.layer, r2.layer);
    assert EncodedByte(l, r1, l.typ) == EncodedByte(l, r2, l.typ);
    ByteInjective(r1.typ, r2.typ);
    assert EncodedByte(l, r1, l.kp2) == EncodedByte(l, r2, l.kp2);
    ByteInjective(r1.kpHigh, r2.kpHigh);
    assert EncodedByte(l, r1, l.kp1) == EncodedByte(l, r2, l.kp1);
    ByteInjective(r1.kpLow, r2.kpLow);
    assert EncodedByte(l, r1, l.mid) == EncodedByte(l, r2, l.mid);
    ByteInjective(r1.mid, r2.mid);
    assert EncodedByte(l, r1, l.hash) == EncodedByte(l, r2, l.hash);
    ByteInjective(r1.last, r2.last);
  }

  lemma ByteInjective(a: nat, b: nat)
    requires a < 256 && b < 256
    ensures ByteOf(a) == ByteOf(b) ==> a == b
  {
    hide ByteOf;
    ByteOfRange(a);
    ByteOfRange(b);
  }

  lemma FieldInjective(a: nat, b: nat, len: nat)
    requires a < Pow256(len) && b < Pow256(len) && BigEndian(a, len) == BigEndian(b, len)
    ensures a == b
  {
    hide BigEndian, Pow256;
    BigEndianRoundTrip(a, len);
    BigEndianRoundTrip(b, len);
    ModUnique(a, Pow256(len), 0, a);
    ModUnique(b, Pow256(len), 0, b);
  }

  /** `uint32_t addr[8]`, written byte by byte; `rec` is the record it encodes. */
  class Buffer {
    const layout: Layout
    const bytes: array<byte>
    ghost var rec: Adrs

    ghost predicate Valid()
      reads this, bytes
    {
      IsLayout(layout) && bytes.Length == 32 && rec.InRange() && bytes[..] == Encode(layout, rec)
    }

    /** `uint32_t addr[8] = {0}` */
    constructor (layout: Layout)
      requires IsLayout(layout)
      ensures Valid() && this.layout == layout && rec == ZERO_ADRS && fresh(bytes)
    {
      this.layout := layout;
      bytes := new byte[32](_ => 0);
      rec := ZERO_ADRS;
      new;
      ZeroEncoding(layout);
    }

    method PutByte(at: nat, v: nat, ghost next: Adrs)
      requires Valid() && at < 32 && next.InRange()
      requires forall i | 0 <= i < 32 ::
                 EncodedByte(layout, next, i) == if i == at then ByteOf(v) else EncodedByte(layout, rec, i)
      modifies this, bytes
      ensures Valid() && rec == next
    {
      hide EncodedByte, ByteOf;
      bytes[at] := ByteOf(v);
      rec := next;
    }

    method SetLayer(layer: nat)
      requires Valid()
      modifies this, bytes
      ensures Valid() && rec == old(rec).(layer := layer % 256)
    {
      hide Encode, BigEndian, Pow256;
      PutByte(layout.layer, layer, rec.(layer := layer % 256));
    }

    method SetType(typ: nat)
      requires Valid()
      modifies this, bytes
      ensures Valid() && rec == old(rec).(typ := typ % 256)
    {
      hide Encode, BigEndian, Pow256;
      PutByte(layout.typ, typ, rec.(typ := typ % 256));
    }

    /** set_tree_addr */
    method SetTree(tree: nat)
      requires Valid() && tree < Pow256(8)
      modifies this, bytes
      ensures Valid() && rec == old(rec).(tree := tree)
    {
      hide BigEndian, ByteOf, Pow256;
      UllToBytes(bytes, layout.tree, 8, tree);
      FieldWritten(layout, rec, rec.(tree := tree), old(bytes[..]), bytes[..], layout.tree, 8);
      rec := rec.(tree := tree);
    }

    /** set_keypair_addr; `wide` is the test that a subtree has more than 256 leaves. */
    method SetKeypair(wide: bool, keypair: nat)
      requires Valid()
      modifies this, bytes
      ensures Valid() && rec == old(rec).WithKeypair(wide, keypair)
    {
      hide Encode, BigEndian, Pow256;
      if wide {
        PutByte(layout.kp2, keypair / 256, rec.(kpHigh := keypair / 256 % 256));
      }
      PutByte(layout.kp1, keypair, rec.(kpLow := keypair % 256));
    }

    method SetChain(chain: nat)
      requires Valid()
      modifies this, bytes
      ensures Valid() && rec == old(rec).WithChain(chain)
    {
      hide Encode, BigEndian, Pow256;
      PutByte(layout.mid, chain, rec.WithChain(chain));
    }

    method SetHash(hash: nat)
      requires Valid()
      modifies this, bytes
      ensures Valid() && rec == old(rec).WithHash(hash)
    {
      hide Encode, BigEndian, Pow256;
      PutByte(layout.hash, hash, rec.WithHash(hash));
    }

    method SetTreeHeight(height: nat)
      requires Valid()
      modifies this, bytes
      ensures Valid() && rec == old(rec).WithHeight(height)
    {
      hide Encode, BigEndian, Pow256;
      PutByte(layout.mid, height, rec.WithHeight(height));
    }

    /** set_tree_index: the four bytes of a 32-bit number. */
    method SetTreeIndex(index: nat)
      requires Valid() && index < Pow256(4)
      modifies this, bytes
      ensures Valid() && rec == old(rec).WithIndex(index)
    {
      hide BigEndian, ByteOf;
      ghost var next := rec.WithIndex(index);
      UllToBytes(bytes, layout.index, 4, index);
      IndexSplit(index);
      FieldWritten(layout, rec, next, old(bytes[..]), bytes[..], layout.index, 4);
      rec := next;
    }

    /** copy_subtree_addr: `memcpy(out, in, SPX_OFFSET_TREE + 8)` */
    method CopySubtree(other: Buffer)
      requires Valid() && other.Valid() && layout == other.layout && this != other && bytes != other.bytes
      modifies this, bytes
      ensures Valid() && rec == old(rec).WithSubtreeOf(other.rec)
    {
      hide BigEndian, ByteOf, Pow256;
      ghost var next := rec.WithSubtreeOf(other.rec);
      Memcpy(bytes, 0, other.bytes[..layout.tree + 8]);
      CopiedPrefix(layout, rec, other.rec, old(bytes[..]), other.bytes[..], bytes[..]);
      rec := next;
    }

    /** copy_keypair_addr */
    method CopyKeypair(wide: bool, other: Buffer)
      requires Valid() && other.Valid() && layout == other.layout && this != other && bytes != other.bytes
      modifies this, bytes
      ensures Valid() && rec == old(rec).WithKeypairOf(wide, other.rec)
    {
      hide Encode, BigEndian, Pow256, ByteOf;
      CopySubtree(other);
      if wide {
        ByteField(layout, other.rec, layout.kp2);
        CopyByte(layout.kp2, other, rec.(kpHigh := other.rec.kpHigh));
      }
      ByteField(layout, other.rec, layout.kp1);
      CopyByte(layout.kp1, other, rec.(kpLow := other.rec.kpLow));
    }

    method CopyByte(at: nat, other: Buffer, ghost next: Adrs)
      requires Valid() && other.Valid() && layout == other.layout && this != other && bytes != other.bytes
      requires at < 32 && next.InRange()
      requires forall i | 0 <= i < 32 ::
                 EncodedByte(layout, next, i) == EncodedByte(layout, if i == at then other.rec else rec, i)
      modifies this, bytes
      ensures Valid() && rec == next
    {
      hide EncodedByte;
      bytes[at] := other.bytes[at];
      rec := next;
    }
  }

  lemma ZeroEncoding(l: Layout)
    requires IsLayout(l)
    ensures ZERO_ADRS.InRange() && Encode(l, ZERO_ADRS) == Zeros(32)
  {
    ZeroFields();
    hide BigEndian, ByteOf, Pow256;
  }

  lemma ZeroFields()
    ensures BigEndian(0, 8) == Zeros(8) && BigEndian(0, 3) == Zeros(3) && ByteOf(0) == 0
    ensures Pow256(8) > 0 && Pow256(3) > 0
  {
    BigEndianZeroExtend(0, 0, 8);
    BigEndianZeroExtend(0, 0, 3);
  }

  lemma ByteField(l: Layout, r: Adrs, at: nat)
    requires IsLayout(l) && at < 32
    ensures Encode(l, r)[at] == EncodedByte(l, r, at)
  {
  }

  lemma IndexSplit(index: nat)
    requires index < Pow256(4)
    ensures BigEndian(index, 4) == BigEndian(index / 256 % Pow256(3), 3) + [ByteOf(index % 256)]
  {
    BigEndianMod(index / 256, 3, 3);
  }

  /** A write of `width` bytes at `at` turns the encoding of `r` into that of `next`. */
  lemma FieldWritten(l: Layout, r: Adrs, next: Adrs, before: Bytes, after: Bytes, at: nat, width: nat)
    requires |after| == 32 && before == Encode(l, r) && at + width <= 32
    requires after[..at] == before[..at] && after[at + width..] == before[at + width..]
    requires forall i | 0 <= i < 32 && !(at <= i < at + width) :: EncodedByte(l, next, i) == EncodedByte(l, r, i)
    requires forall i | at <= i < at + width :: EncodedByte(l, next, i) == after[at..at + width][i - at]
    ensures after == Encode(l, next)
  {
    hide EncodedByte;
    forall i | 0 <= i < 32
      ensures after[i] == EncodedByte(l, next, i)
    {
      if i < at {
        assert after[i] == after[..at][i] == before[..at][i];
      } else if i < at + width {
        assert after[i] == after[at..at + width][i - at];
      } else {
        assert after[i] == after[at + width..][i - at - width] == before[at + width..][i - at - width];
      }
    }
  }

  lemma CopiedPrefix(l: Layout, r: Adrs, other: Adrs, before: Bytes, source: Bytes, after: Bytes)
    requires IsLayout(l) && |after| == 32 && before == Encode(l, r) && source == Encode(l, other)
    requires after[0..l.tree + 8] == source[..l.tree + 8] && after[l.tree + 8..] == before[l.tree + 8..]
    ensures after == Encode(l, r.WithSubtreeOf(other))
  {
    hide BigEndian, ByteOf, Pow256;
    var cut := l.tree + 8;
    forall i | 0 <= i < 32
      ensures after[i] == EncodedByte(l, r.WithSubtreeOf(other), i)
    {
      if i < cut {
        assert after[i] == after[0..cut][i] == source[..cut][i];
      } else {
        assert after[i] == after[cut..][i - cut] == before[cut..][i - cut];
      }
    }
  }
}
