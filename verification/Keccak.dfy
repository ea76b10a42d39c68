/** The sponge of fips202.c: a byte-wise specification (sections 4, 5.1 and 6.2 of FIPS 202) and the lane-wise
    code, one-shot and incremental. The permutation is a parameter. */
module Keccak {
  import opened Arith
  import opened Bytes
  import opened Lanes

  /** rate in bytes, domain-separation byte and the permutation of the 200-byte state */
  datatype Sponge = Sponge(rate: nat, domain: byte, perm: Bytes -> Bytes) {
    ghost predicate Valid() {
      && rate % 8 == 0 && 0 < rate < 200
      && domain & 0x80 == 0
      && forall s :: |perm(s)| == 200
    }
  }

  function Shake256(perm: Bytes -> Bytes): Sponge { Sponge(136, 0x1f, perm) }

  // ---- Specification ----

  /** XORs `data` into `st` from byte `pos` on. */
  function XorAt(st: Bytes, pos: nat, data: Bytes): (r: Bytes)
    requires pos + |data| <= |st|
    ensures |r| == |st|
  {
    seq(|st|, i requires 0 <= i < |st| => if pos <= i < pos + |data| then XorByte(st[i], data[i - pos]) else st[i])
  }

  /** Absorbs every whole block of `data`; an incomplete last block is ignored. */
  function Absorb(sp: Sponge, st: Bytes, data: Bytes): (r: Bytes)
    requires sp.Valid() && |st| == 200
    ensures |r| == 200
    decreases |data|
  {
    if |data| < sp.rate then st
    else Absorb(sp, sp.perm(XorAt(st, 0, data[..sp.rate])), data[sp.rate..])
  }

  /** The domain byte and the final bit of the padding; the two share a byte when only one is left. */
  function Padding(sp: Sponge, len: nat): (r: Bytes)
    requires sp.Valid()
    ensures |r| == sp.rate - len % sp.rate
  {
    var room := sp.rate - len % sp.rate;
    if room == 1 then [sp.domain | 0x80] else [sp.domain] + Zeros(room - 2) + [0x80]
  }

  function Iterate(sp: Sponge, st: Bytes, k: nat): (r: Bytes)
    requires sp.Valid() && |st| == 200
    ensures |r| == 200
  {
    if k == 0 then st else sp.perm(Iterate(sp, st, k - 1))
  }

  function Absorbed(sp: Sponge, m: Bytes): (r: Bytes)
    requires sp.Valid()
    ensures |r| == 200
  {
    Absorb(sp, Zeros(200), m + Padding(sp, |m|))
  }

  /** Byte `i` of the unbounded output for message `m`. */
  function OutputByte(sp: Sponge, m: Bytes, i: nat): byte
    requires sp.Valid()
  {
    ModBound(i, sp.rate);
    Iterate(sp, Absorbed(sp, m), i / sp.rate)[i % sp.rate]
  }

  /** Output bytes [from, from + len). */
  function OutputRange(sp: Sponge, m: Bytes, from: nat, len: nat): (r: Bytes)
    requires sp.Valid()
    ensures |r| == len
  {
    seq(len, i requires 0 <= i < len => OutputByte(sp, m, from + i))
  }

  function Xof(sp: Sponge, m: Bytes, len: nat): (r: Bytes)
    requires sp.Valid()
    ensures |r| == len
  {
    OutputRange(sp, m, 0, len)
  }

  // ---- Facts about the specification ----

  lemma {:induction false} AbsorbConcat(sp: Sponge, st: Bytes, a: Bytes, b: Bytes)
    requires sp.Valid() && |st| == 200 && |a| % sp.rate == 0
    ensures Absorb(sp, st, a + b) == Absorb(sp, Absorb(sp, st, a), b)
    decreases |a|
  {
    if a == [] {
      assert a + b == b;
    } else {
      hide XorAt;
      var n := sp.rate;
      MultipleAtLeast(|a|, n);
      assert (a + b)[..n] == a[..n] && (a + b)[n..] == a[n..] + b;
      AbsorbConcat(sp, sp.perm(XorAt(st, 0, a[..n])), a[n..], b);
    }
  }

  lemma AbsorbBlock(sp: Sponge, st: Bytes, block: Bytes)
    requires sp.Valid() && |st| == 200 && |block| == sp.rate
    ensures Absorb(sp, st, block) == sp.perm(XorAt(st, 0, block))
  {
    assert block[..sp.rate] == block;
  }

  /** A whole block at the end is permuted in last. */
  lemma AbsorbLast(sp: Sponge, st: Bytes, a: Bytes, b: Bytes)
    requires sp.Valid() && |st| == 200 && |a| % sp.rate == 0 && |b| == sp.rate
    ensures Absorb(sp, st, a + b) == sp.perm(XorAt(Absorb(sp, st, a), 0, b))
  {
    hide XorAt, Absorb;
    AbsorbConcat(sp, st, a, b);
    AbsorbBlock(sp, Absorb(sp, st, a), b);
  }

  /** What SHAKE256 permutes for a message that fills less than a block: the message, the bits of the domain and of the
      padding, and zeros up to 200 bytes. */
  function OnlyState(m: Bytes): (st: Bytes)
    requires |m| < 136
    ensures |st| == 200
  {
    m + (if |m| == 135 then [0x9f] else [0x1f] + Zeros(134 - |m|) + [0x80]) + Zeros(64)
  }

  /** A short message and a short output take one permutation. */
  lemma XofOfShort(sp: Sponge, m: Bytes, len: nat)
    requires sp.Valid() && sp == Shake256(sp.perm) && |m| < 136 && len <= 136
    ensures Xof(sp, m, len) == sp.perm(OnlyState(m))[..len]
  {
    hide XorAt, Absorb;
    var block := m + Padding(sp, |m|);
    assert (0x1f as byte) | 0x80 == 0x9f;
    assert [] + block == block;
    AbsorbLast(sp, Zeros(200), [], block);
    AbsorbNone(sp);
    XorAtZeros(block);
    assert block + Zeros(64) == OnlyState(m);
    assert Absorbed(sp, m) == sp.perm(OnlyState(m));
    forall i | 0 <= i < len
      ensures Xof(sp, m, len)[i] == Absorbed(sp, m)[i]
    {
      ModUnique(i, sp.rate, 0, i);
    }
  }

  lemma AbsorbNone(sp: Sponge)
    requires sp.Valid()
    ensures Absorb(sp, Zeros(200), []) == Zeros(200)
  {
  }

  lemma XorAtZeros(block: Bytes)
    requires |block| == 136
    ensures XorAt(Zeros(200), 0, block) == block + Zeros(64)
  {
    forall i | 0 <= i < 200
      ensures XorAt(Zeros(200), 0, block)[i] == (block + Zeros(64))[i]
    {
      if i < 136 {
        XorZeroByte(block[i]);
      }
    }
  }

  lemma XorZeroByte(b: byte)
    ensures XorByte(0, b) == b
  {
  }

  lemma XorAtConcat(st: Bytes, pos: nat, a: Bytes, b: Bytes)
    requires pos + |a| + |b| <= |st|
    ensures XorAt(XorAt(st, pos, a), pos + |a|, b) == XorAt(st, pos, a + b)
  {
    hide XorByte;
  }

  lemma XorAtNothing(st: Bytes, pos: nat)
    requires pos <= |st|
    ensures XorAt(st, pos, []) == st
  {
  }

  /** The state while absorbing: whole blocks permuted in, the tail only XORed in. */
  ghost function Partial(sp: Sponge, m: Bytes): (r: Bytes)
    requires sp.Valid()
    ensures |r| == 200
  {
    var full := |m| - |m| % sp.rate;
    XorAt(Absorb(sp, Zeros(200), m[..full]), 0, m[full..])
  }

  lemma PartialFeed(sp: Sponge, m: Bytes, d: Bytes)
    requires sp.Valid() && |m| % sp.rate + |d| < sp.rate
    ensures |m + d| % sp.rate == |m| % sp.rate + |d|
    ensures Partial(sp, m + d) == XorAt(Partial(sp, m), |m| % sp.rate, d)
  {
    hide Absorb, XorAt;
    var used := |m| % sp.rate;
    var full := |m| - used;
    FeedMod(|m|, |d|, sp.rate);
    MultipleLess(|m|, sp.rate);
    assert (m + d)[..full] == m[..full] && (m + d)[full..] == m[full..] + d;
    XorAtConcat(Absorb(sp, Zeros(200), m[..full]), 0, m[full..], d);
  }

  lemma PartialFill(sp: Sponge, m: Bytes, d: Bytes)
    requires sp.Valid() && |m| % sp.rate + |d| == sp.rate
    ensures |m + d| % sp.rate == 0
    ensures Partial(sp, m + d) == sp.perm(XorAt(Partial(sp, m), |m| % sp.rate, d))
    ensures Partial(sp, m + d) == Absorb(sp, Zeros(200), m + d)
  {
    hide Absorb, XorAt;
    MultipleLess(|m|, sp.rate);
    var used := |m| % sp.rate;
    var full := |m| - used;
    var st := Absorb(sp, Zeros(200), m[..full]);
    FeedMod(|m|, |d|, sp.rate);
    var block := m[full..] + d;
    assert m + d == m[..full] + block;
    AbsorbConcat(sp, Zeros(200), m[..full], block);
    AbsorbBlock(sp, st, block);
    XorAtConcat(st, 0, m[full..], d);
    WholeBlocks(sp, m + d);
  }

  lemma WholeBlocks(sp: Sponge, m: Bytes)
    requires sp.Valid() && |m| % sp.rate == 0
    ensures Partial(sp, m) == Absorb(sp, Zeros(200), m)
  {
    hide Absorb, XorAt;
    assert m[..|m|] == m && m[|m|..] == [];
    XorAtNothing(Absorb(sp, Zeros(200), m), 0);
  }

  /** The state handed to the squeezing phase: padded but not yet permuted. */
  ghost function Padded(sp: Sponge, m: Bytes): (r: Bytes)
    requires sp.Valid()
    ensures |r| == 200
  {
    XorAt(Partial(sp, m), |m| % sp.rate, Padding(sp, |m|))
  }

  lemma PaddedPermuted(sp: Sponge, m: Bytes)
    requires sp.Valid()
    ensures Absorbed(sp, m) == sp.perm(Padded(sp, m))
  {
    PartialFill(sp, m, Padding(sp, |m|));
  }

  /** XORing the domain byte and then the final bit pads the state, also when both hit the same byte. */
  lemma PaddingTwoXors(sp: Sponge, st: Bytes, len: nat)
    requires sp.Valid() && |st| == 200
    ensures XorAt(XorAt(st, len % sp.rate, [sp.domain]), sp.rate - 1, [0x80])
            == XorAt(st, len % sp.rate, Padding(sp, len))
  {
    var used := len % sp.rate;
    var left, right := XorAt(XorAt(st, used, [sp.domain]), sp.rate - 1, [0x80]), XorAt(st, used, Padding(sp, len));
    forall i | 0 <= i < 200
      ensures left[i] == right[i]
    {
      PaddingTwoXorsAt(sp, st, len, i);
    }
  }

  lemma PaddingTwoXorsAt(sp: Sponge, st: Bytes, len: nat, i: nat)
    requires sp.Valid() && |st| == 200 && i < 200
    ensures XorAt(XorAt(st, len % sp.rate, [sp.domain]), sp.rate - 1, [0x80])[i]
            == XorAt(st, len % sp.rate, Padding(sp, len))[i]
  {
    hide Padding, XorAt, XorByte;
    var used := len % sp.rate;
    var mid := XorAt(st, used, [sp.domain]);
    XorAtByte(st, used, [sp.domain], i);
    XorAtByte(mid, sp.rate - 1, [0x80], i);
    XorAtByte(st, used, Padding(sp, len), i);
    if used <= i < sp.rate {
      PaddingByte(sp, len, i - used);
      if used == sp.rate - 1 {
        XorOfOr(st[i], sp.domain);
      } else if used < i < sp.rate - 1 {
        XorByteZero(st[i]);
      }
    }
  }

  lemma XorAtByte(st: Bytes, pos: nat, data: Bytes, i: nat)
    requires pos + |data| <= |st| && i < |st|
    ensures XorAt(st, pos, data)[i] == if pos <= i < pos + |data| then XorByte(st[i], data[i - pos]) else st[i]
  {
  }

  lemma PaddingByte(sp: Sponge, len: nat, i: nat)
    requires sp.Valid() && i < sp.rate - len % sp.rate
    ensures var room := sp.rate - len % sp.rate;
            Padding(sp, len)[i] ==
              if room == 1 then sp.domain | 0x80 else if i == 0 then sp.domain else if i == room - 1 then 0x80 else 0
  {
  }

  lemma XorOfOr(s: byte, d: byte)
    requires d & 0x80 == 0
    ensures XorByte(XorByte(s, d), 0x80) == XorByte(s, d | 0x80)
  {
  }

  lemma {:induction false} IterateShift(sp: Sponge, st: Bytes, k: nat)
    requires sp.Valid() && |st| == 200
    ensures Iterate(sp, sp.perm(st), k) == Iterate(sp, st, k + 1)
  {
    if k > 0 {
      IterateShift(sp, st, k - 1);
    }
  }

  lemma OutputAt(sp: Sponge, m: Bytes, k: nat, j: nat)
    requires sp.Valid() && j < sp.rate
    ensures OutputByte(sp, m, k * sp.rate + j) == Iterate(sp, Padded(sp, m), k + 1)[j]
  {
    hide Iterate, Padded, Absorbed;
    PaddedPermuted(sp, m);
    IterateShift(sp, Padded(sp, m), k);
    ModUnique(k * sp.rate + j, sp.rate, k, j);
  }

  /** A stretch of output that lies inside the block of permutation number `k`. */
  lemma OutputWithinBlock(sp: Sponge, m: Bytes, k: nat, at: nat, len: nat)
    requires sp.Valid() && at + len <= sp.rate
    ensures OutputRange(sp, m, k * sp.rate + at, len) == Iterate(sp, Padded(sp, m), k + 1)[at..at + len]
  {
    hide Iterate, Padded, OutputByte;
    var block, from := Iterate(sp, Padded(sp, m), k + 1), k * sp.rate;
    forall j | at <= j < at + len
      ensures OutputByte(sp, m, from + j) == block[j]
    {
      OutputAt(sp, m, k, j);
    }
    RangeIsSlice(sp, m, from, at, len, block);
  }

  lemma RangeIsSlice(sp: Sponge, m: Bytes, from: nat, at: nat, len: nat, block: Bytes)
    requires sp.Valid() && at + len <= |block|
    requires forall j :: at <= j < at + len ==> OutputByte(sp, m, from + j) == block[j]
    ensures OutputRange(sp, m, from + at, len) == block[at..at + len]
  {
    hide OutputByte;
    var out := OutputRange(sp, m, from + at, len);
    forall i | 0 <= i < len
      ensures out[i] == block[at..at + len][i]
    {
      assert from + at + i == from + (at + i);
    }
  }

  lemma OutputConcat(sp: Sponge, m: Bytes, from: nat, a: nat, b: nat)
    requires sp.Valid()
    ensures OutputRange(sp, m, from, a + b) == OutputRange(sp, m, from, a) + OutputRange(sp, m, from + a, b)
  {
    hide OutputByte;
  }

  // ---- Lanes ----

  /** The 200 bytes stored in 25 lanes. */
  ghost function StateBytes(lanes: seq<bv64>): (r: Bytes)
    ensures |r| == 8 * |lanes|
  {
    seq(8 * |lanes|, i requires 0 <= i < 8 * |lanes| => LaneByte(lanes[i / 8], i % 8))
  }

  /** load64 */
  method Load64(x: Bytes) returns (lane: bv64)
    requires |x| == 8
    ensures forall k | 0 <= k < 8 :: LaneByte(lane, k) == x[k]
  {
    hide LaneByte, Shifted, XorByte;
    lane := 0;
    ZeroLane();
    for i := 0 to 8
      invariant forall k | 0 <= k < 8 :: LaneByte(lane, k) == if k < i then x[k] else 0
    {
      var next := lane | Shifted(x[i], i);
      forall k | 0 <= k < 8
        ensures LaneByte(next, k) == if k <= i then x[k] else 0
      {
        OrBytewise(lane, Shifted(x[i], i), k);
        ShiftedByte(x[i], i, k);
        if k == i {
          OrZero(x[i]);
        } else {
          OrZero(LaneByte(lane, k));
        }
      }
      lane := next;
    }
  }

  lemma ZeroLane()
    ensures forall k | 0 <= k < 8 :: LaneByte(0, k) == 0
  {
    assert LaneByte(0, 0) == 0 && LaneByte(0, 1) == 0 && LaneByte(0, 2) == 0 && LaneByte(0, 3) == 0;
    assert LaneByte(0, 4) == 0 && LaneByte(0, 5) == 0 && LaneByte(0, 6) == 0 && LaneByte(0, 7) == 0;
  }

  lemma OrZero(s: byte)
    ensures s | 0 == s && 0 | s == s
  {
  }

  /** store64 of the first `count` lanes. */
  method StoreLanes(lanes: array<bv64>, count: nat) returns (h: Bytes)
    requires count <= lanes.Length
    ensures h == StateBytes(lanes[..])[..8 * count]
  {
    hide LaneByte;
    h := [];
    for i := 0 to count
      invariant h == StateBytes(lanes[..])[..8 * i]
    {
      for k := 0 to 8
        invariant h == StateBytes(lanes[..])[..8 * i + k]
      {
        assert StateBytes(lanes[..])[8 * i + k] == LaneByte(lanes[i], k);
        h := h + [LaneByte(lanes[i], k)];
      }
    }
  }

  /** KeccakF1600_StatePermute: the permutation of the 200 bytes, applied to the lanes in place. */
  method Permute(sp: Sponge, lanes: array<bv64>)
    requires sp.Valid() && lanes.Length == 25
    modifies lanes
    ensures StateBytes(lanes[..]) == sp.perm(StateBytes(old(lanes[..])))
  {
    hide LaneByte;
    var bytes := StoreLanes(lanes, 25);
    assert bytes == StateBytes(lanes[..]);
    var next := sp.perm(bytes);
    for i := 0 to 25
      invariant forall j | 0 <= j < 8 * i :: LaneByte(lanes[j / 8], j % 8) == next[j]
    {
      lanes[i] := Load64(next[8 * i..8 * i + 8]);
      forall j | 8 * i <= j < 8 * i + 8
        ensures LaneByte(lanes[j / 8], j % 8) == next[j]
      {
        assert next[8 * i..8 * i + 8][j % 8] == next[j];
      }
    }
    assert StateBytes(lanes[..]) == next;
  }

  /** `s_inc[pos >> 3] ^= (uint64_t)b << (8 * (pos & 7))` XORs byte `pos` of the state and no other. */
  lemma XorLaneByte(lanes: seq<bv64>, pos: nat, b: byte)
    requires pos < 8 * |lanes|
    ensures var k := pos / 8;
            StateBytes(lanes[k := XorWord(lanes[k], Shifted(b, pos % 8))]) == XorAt(StateBytes(lanes), pos, [b])
  {
    hide LaneByte, Shifted, XorByte, XorWord, StateBytes, XorAt;
    var k, j := pos / 8, pos % 8;
    var word := XorWord(lanes[k], Shifted(b, j));
    forall q | 0 <= q < 8
      ensures LaneByte(word, q) == if q == j then XorByte(LaneByte(lanes[k], q), b) else LaneByte(lanes[k], q)
    {
      ShiftedXor(lanes[k], b, j, q);
    }
    ReplaceLane(lanes, k, j, b, word);
  }

  lemma ReplaceLane(lanes: seq<bv64>, k: nat, j: nat, b: byte, word: bv64)
    requires k < |lanes| && j < 8
    requires forall q | 0 <= q < 8 ::
               LaneByte(word, q) == if q == j then XorByte(LaneByte(lanes[k], q), b) else LaneByte(lanes[k], q)
    ensures StateBytes(lanes[k := word]) == XorAt(StateBytes(lanes), 8 * k + j, [b])
  {
    hide LaneByte, XorByte;
    var left, right := StateBytes(lanes[k := word]), XorAt(StateBytes(lanes), 8 * k + j, [b]);
    forall i | 0 <= i < 8 * |lanes|
      ensures left[i] == right[i]
    {
      if i / 8 == k {
        assert LaneByte(word, i % 8) == left[i];
      }
    }
  }

  method XorLaneAt(lanes: array<bv64>, pos: nat, b: byte)
    requires pos < 8 * lanes.Length
    modifies lanes
    ensures StateBytes(lanes[..]) == XorAt(StateBytes(old(lanes[..])), pos, [b])
  {
    hide LaneByte, Shifted, XorWord, StateBytes, XorAt;
    XorLaneByte(lanes[..], pos, b);
    var k, word := pos / 8, XorWord(lanes[pos / 8], Shifted(b, pos % 8));
    ghost var before := lanes[..];
    lanes[k] := word;
    assert lanes[..] == before[k := word];
  }

  /** The byte loop of keccak_inc_absorb. */
  method XorBytes(lanes: array<bv64>, pos: nat, data: Bytes)
    requires pos + |data| <= 8 * lanes.Length
    modifies lanes
    ensures StateBytes(lanes[..]) == XorAt(StateBytes(old(lanes[..])), pos, data)
  {
    hide StateBytes, XorAt;
    XorAtNothing(StateBytes(lanes[..]), pos);
    assert data[..0] == [];
    for i := 0 to |data|
      invariant StateBytes(lanes[..]) == XorAt(StateBytes(old(lanes[..])), pos, data[..i])
    {
      XorAtConcat(StateBytes(old(lanes[..])), pos, data[..i], [data[i]]);
      assert data[..i] + [data[i]] == data[..i + 1];
      XorLaneAt(lanes, pos + i, data[i]);
    }
    assert data[..|data|] == data;
  }

  /** `s[i] ^= load64(m + 8 * i)` for the lanes of the rate: the lane-wise XOR of keccak_absorb. */
  method XorLanes(sp: Sponge, lanes: array<bv64>, block: Bytes)
    requires sp.Valid() && lanes.Length == 25 && |block| == sp.rate
    modifies lanes
    ensures StateBytes(lanes[..]) == XorAt(StateBytes(old(lanes[..])), 0, block)
  {
    hide LaneXored, StateBytes, XorAt;
    ghost var before := lanes[..];
    for i := 0 to sp.rate / 8
      invariant forall j | i <= j < 25 :: lanes[j] == before[j]
      invariant forall l | 0 <= l < i :: LaneXored(lanes[l], before[l], block[8 * l..8 * l + 8])
    {
      XorLane(lanes, i, block[8 * i..8 * i + 8]);
    }
    XorLanesBytes(sp, before, lanes[..], block);
  }

  method XorLane(lanes: array<bv64>, i: nat, chunk: Bytes)
    requires i < lanes.Length && |chunk| == 8
    modifies lanes
    ensures LaneXored(lanes[i], old(lanes[i]), chunk)
    ensures forall j | 0 <= j < lanes.Length && j != i :: lanes[j] == old(lanes[j])
  {
    hide LaneXored, LaneByte, XorByte, XorWord;
    var word := Load64(chunk);
    var lane := lanes[i];
    XorWordChunk(lane, word, chunk);
    lanes[i] := XorWord(lane, word);
  }

  lemma XorWordChunk(lane: bv64, word: bv64, chunk: Bytes)
    requires |chunk| == 8
    requires forall k | 0 <= k < 8 :: LaneByte(word, k) == chunk[k]
    ensures LaneXored(XorWord(lane, word), lane, chunk)
  {
    hide LaneByte, XorByte, XorWord;
    forall k | 0 <= k < 8
      ensures LaneByte(XorWord(lane, word), k) == XorByte(LaneByte(lane, k), chunk[k])
    {
      XorBytewise(lane, word, k);
    }
  }

  ghost predicate LaneXored(after: bv64, before: bv64, chunk: Bytes)
    requires |chunk| == 8
  {
    forall k | 0 <= k < 8 :: LaneByte(after, k) == XorByte(LaneByte(before, k), chunk[k])
  }

  lemma XorLanesBytes(sp: Sponge, before: seq<bv64>, after: seq<bv64>, block: Bytes)
    requires sp.Valid() && |before| == |after| == 25 && |block| == sp.rate
    requires forall j | sp.rate / 8 <= j < 25 :: after[j] == before[j]
    requires forall l | 0 <= l < sp.rate / 8 :: LaneXored(after[l], before[l], block[8 * l..8 * l + 8])
    ensures StateBytes(after) == XorAt(StateBytes(before), 0, block)
  {
    hide LaneByte, XorByte;
    forall i | 0 <= i < 200
      ensures StateBytes(after)[i] == XorAt(StateBytes(before), 0, block)[i]
    {
      if i < sp.rate {
        assert LaneXored(after[i / 8], before[i / 8], block[8 * (i / 8)..8 * (i / 8) + 8]);
        assert block[8 * (i / 8)..8 * (i / 8) + 8][i % 8] == block[i];
      }
    }
  }

  method ZeroState(lanes: array<bv64>)
    requires lanes.Length == 25
    modifies lanes
    ensures StateBytes(lanes[..]) == Zeros(200)
  {
    hide LaneByte;
    for i := 0 to 25
      invariant forall j | 0 <= j < i :: lanes[j] == 0
    {
      lanes[i] := 0;
    }
    ZeroLane();
  }

  // ---- One-shot: keccak_absorb, keccak_squeezeblocks, shake256 ----

  /** keccak_absorb: whole blocks, then the padded rest built in a temporary block. */
  method AbsorbMessage(sp: Sponge, s: array<bv64>, m: Bytes)
    requires sp.Valid() && s.Length == 25
    modifies s
    ensures StateBytes(s[..]) == Padded(sp, m)
  {
    hide StateBytes, Absorb, XorAt;
    ZeroState(s);
    ghost var zero := Zeros(200);
    var pos := 0;
    assert Partial(sp, []) == zero by { AbsorbNothing(sp); }
    assert m[..0] == [];
    while |m| - pos >= sp.rate
      invariant pos <= |m| && pos % sp.rate == 0
      invariant StateBytes(s[..]) == Partial(sp, m[..pos])
      decreases |m| - pos
    {
      ghost var block := m[pos..pos + sp.rate];
      PartialFill(sp, m[..pos], block);
      assert m[..pos] + block == m[..pos + sp.rate];
      XorLanes(sp, s, m[pos..pos + sp.rate]);
      Permute(sp, s);
      pos := pos + sp.rate;
    }
    LastBlock(sp, s, m, pos);
  }

  lemma AbsorbNothing(sp: Sponge)
    requires sp.Valid()
    ensures Partial(sp, []) == Zeros(200)
  {
    XorAtNothing(Zeros(200), 0);
    var e: Bytes := [];
    assert e[..0] == [];
  }

  /** The tail of keccak_absorb: `t` holds the rest, the domain byte and the final bit. */
  method LastBlock(sp: Sponge, s: array<bv64>, m: Bytes, pos: nat)
    requires sp.Valid() && s.Length == 25
    requires pos <= |m| < pos + sp.rate && pos % sp.rate == 0
    requires StateBytes(s[..]) == Partial(sp, m[..pos])
    modifies s
    ensures StateBytes(s[..]) == Padded(sp, m)
  {
    hide StateBytes, Absorb, XorAt, Padding;
    var t := TailBlock(sp, m[pos..]);
    ModUnique(|m|, sp.rate, pos / sp.rate, |m| - pos);
    WholeBlocks(sp, m[..pos]);
    PaddingOfTail(sp, |m|, |m| - pos);
    XorAtConcat(Absorb(sp, Zeros(200), m[..pos]), 0, m[pos..], Padding(sp, |m|));
    XorLanes(sp, s, t);
  }

  lemma PaddingOfTail(sp: Sponge, len: nat, tail: nat)
    requires sp.Valid() && len % sp.rate == tail
    ensures tail < sp.rate && tail % sp.rate == tail && Padding(sp, len) == Padding(sp, tail)
  {
    ModUnique(tail, sp.rate, 0, tail);
  }

  /** The block `t` of keccak_absorb: zeros, the message tail, the domain byte, and the last bit ORed in. */
  method TailBlock(sp: Sponge, tail: Bytes) returns (block: Bytes)
    requires sp.Valid() && |tail| < sp.rate
    ensures |tail| % sp.rate == |tail| && block == tail + Padding(sp, |tail|)
  {
    var t := new byte[sp.rate](_ => 0);
    Memcpy(t, 0, tail);
    assert t[..] == tail + Zeros(sp.rate - |tail|);
    t[|tail|] := sp.domain;
    var last := t[sp.rate - 1] | 0x80;
    t[sp.rate - 1] := last;
    ModUnique(|tail|, sp.rate, 0, |tail|);
    OrZero(0x80);
    block := t[..];
  }

  /** keccak_squeezeblocks: block number k holds output bytes [k * rate, (k + 1) * rate). */
  method SqueezeBlocks(sp: Sponge, nblocks: nat, s: array<bv64>, ghost m: Bytes, ghost done: nat, ghost from: nat)
    returns (h: Bytes)
    requires sp.Valid() && s.Length == 25 && from == done * sp.rate
    requires StateBytes(s[..]) == Iterate(sp, Padded(sp, m), done)
    modifies s
    ensures |h| == nblocks * sp.rate && h == OutputRange(sp, m, from, |h|)
    ensures StateBytes(s[..]) == Iterate(sp, Padded(sp, m), done + nblocks)
  {
    hide StateBytes, OutputRange, Padded;
    h := [];
    for b := 0 to nblocks
      invariant |h| == b * sp.rate && h == OutputRange(sp, m, from, |h|)
      invariant StateBytes(s[..]) == Iterate(sp, Padded(sp, m), done + b)
    {
      Permute(sp, s);
      var block := StoreLanes(s, sp.rate / 8);
      OutputWithinBlock(sp, m, done + b, 0, sp.rate);
      assert (done + b) * sp.rate == from + |h|;
      OutputConcat(sp, m, from, |h|, sp.rate);
      assert (b + 1) * sp.rate == b * sp.rate + sp.rate;
      h := h + block;
    }
  }

  /** shake256 */
  method ShakeDigest(sp: Sponge, outlen: nat, input: Bytes) returns (output: Bytes)
    requires sp.Valid()
    ensures output == Xof(sp, input, outlen)
    ensures sp == Shake256(sp.perm) && |input| < 136 && outlen <= 136 ==> output == sp.perm(OnlyState(input))[..outlen]
  {
    hide StateBytes, OutputRange, Padded, Iterate, Xof, OnlyState;
    ghost var short := sp.rate == 136 && sp == Shake256(sp.perm) && |input| < 136 && outlen <= 136;
    if short {
      XofOfShort(sp, input, outlen);
    }
    var s := new bv64[25];
    AbsorbMessage(sp, s, input);
    assert Iterate(sp, Padded(sp, input), 0) == Padded(sp, input) by { IterateZero(sp, Padded(sp, input)); }
    var nblocks := WholeBlockCount(outlen, sp.rate);
    output := SqueezeBlocks(sp, nblocks, s, input, 0, 0);
    output := SqueezeRest(sp, outlen, s, input, nblocks, output);
  }

  /** `outlen / SHAKE256_RATE` */
  method WholeBlockCount(outlen: nat, rate: nat) returns (nblocks: nat)
    requires rate > 0
    ensures nblocks * rate <= outlen < nblocks * rate + rate
  {
    QuotientBound(outlen, rate);
    nblocks := outlen / rate;
  }

  /** `if (outlen) { squeeze one block; copy the first outlen bytes of it }` */
  method SqueezeRest(sp: Sponge, outlen: nat, s: array<bv64>, ghost input: Bytes, ghost nblocks: nat, whole: Bytes)
    returns (output: Bytes)
    requires sp.Valid() && s.Length == 25 && |whole| == nblocks * sp.rate && |whole| <= outlen < |whole| + sp.rate
    requires StateBytes(s[..]) == Iterate(sp, Padded(sp, input), nblocks) && whole == OutputRange(sp, input, 0, |whole|)
    modifies s
    ensures output == Xof(sp, input, outlen)
  {
    hide StateBytes, OutputRange, Padded, Iterate;
    var rest := outlen - |whole|;
    output := whole;
    if rest > 0 {
      var t := SqueezeBlocks(sp, 1, s, input, nblocks, |whole|);
      OutputPrefix(sp, input, |whole|, sp.rate, rest);
      OutputConcat(sp, input, 0, |whole|, rest);
      output := whole + t[..rest];
    }
  }

  lemma IterateZero(sp: Sponge, st: Bytes)
    requires sp.Valid() && |st| == 200
    ensures Iterate(sp, st, 0) == st
  {
  }

  lemma OutputPrefix(sp: Sponge, m: Bytes, from: nat, len: nat, cut: nat)
    requires sp.Valid() && cut <= len
    ensures OutputRange(sp, m, from, len)[..cut] == OutputRange(sp, m, from, cut)
  {
    hide OutputByte;
  }

  // ---- Incremental: keccak_inc_* ----

  /** `uint64_t s_inc[26]`: 25 lanes and, as a separate field, the counter of lane 25. */
  class IncSponge {
    const sp: Sponge
    const lanes: array<bv64>
    var counter: nat
    ghost var message: Bytes // everything absorbed
    ghost var produced: nat // output bytes handed out
    ghost var permutations: nat // since finalize

    ghost predicate Absorbing()
      reads this, lanes
    {
      && sp.Valid() && lanes.Length == 25
      && counter == |message| % sp.rate
      && StateBytes(lanes[..]) == Partial(sp, message)
    }

    ghost predicate Squeezing()
      reads this, lanes
    {
      && sp.Valid() && lanes.Length == 25
      && counter < sp.rate
      && produced + counter == permutations * sp.rate
      && StateBytes(lanes[..]) == Iterate(sp, Padded(sp, message), permutations)
    }

    /** keccak_inc_init */
    constructor (sp: Sponge)
      requires sp.Valid()
      ensures Absorbing() && this.sp == sp && message == [] && fresh(lanes)
    {
      this.sp := sp;
      lanes := new bv64[25];
      counter, message := 0, [];
      new;
      ZeroState(lanes);
      AbsorbNothing(sp);
    }

    /** keccak_inc_absorb */
    method Absorb(m: Bytes)
      requires Absorbing()
      modifies this, lanes
      ensures Absorbing() && message == old(message) + m
    {
      hide StateBytes, Partial, XorAt;
      var pos := 0;
      while |m| - pos + counter >= sp.rate
        invariant 0 <= pos <= |m| && Absorbing()
        invariant message == old(message) + m[..pos]
        decreases |m| - pos + counter
      {
        var room := sp.rate - counter;
        var part := m[pos..pos + room];
        PartialFill(sp, message, part);
        assert |part| == room;
        XorBytes(lanes, counter, part);
        message := message + part;
        assert m[..pos + room] == m[..pos] + part;
        pos := pos + room;
        counter := 0;
        Permute(sp, lanes);
      }
      PartialFeed(sp, message, m[pos..]);
      XorBytes(lanes, counter, m[pos..]);
      message := message + m[pos..];
      assert m == m[..pos] + m[pos..];
      counter := counter + |m[pos..]|;
    }

    /** keccak_inc_finalize */
    method Finalize()
      requires Absorbing()
      modifies this, lanes
      ensures Squeezing() && produced == 0 && message == old(message)
    {
      hide StateBytes, Partial, XorAt, Padding;
      PaddingTwoXors(sp, Partial(sp, message), |message|);
      XorLaneAt(lanes, counter, sp.domain);
      XorLaneAt(lanes, sp.rate - 1, 0x80);
      counter, produced, permutations := 0, 0, 0;
    }

    /** keccak_inc_squeeze: leftover bytes of the last block first, then new blocks. */
    method Squeeze(outlen: nat) returns (h: Bytes)
      requires Squeezing()
      modifies this, lanes
      ensures Squeezing() && produced == old(produced) + outlen && message == old(message)
      ensures h == OutputRange(sp, message, old(produced), outlen)
    {
      hide StateBytes, OutputRange, Padded;
      var take := if outlen < counter then outlen else counter;
      h := [];
      if take > 0 {
        h := TakeLeftover(take);
      } else {
        assert h == OutputRange(sp, message, produced, 0);
      }
      var rest := outlen - take;
      while rest > 0
        invariant 0 <= rest <= outlen && (rest > 0 ==> counter == 0)
        invariant Squeezing() && produced == old(produced) + outlen - rest && message == old(message)
        invariant h == OutputRange(sp, message, old(produced), outlen - rest)
      {
        var i := if rest < sp.rate then rest else sp.rate;
        var part := NextBlock(i);
        OutputConcat(sp, message, old(produced), outlen - rest, i);
        h := h + part;
        rest := rest - i;
      }
    }

    /** The second loop of keccak_inc_squeeze: permute and hand out the first `i` bytes. */
    method NextBlock(i: nat) returns (part: Bytes)
      requires Squeezing() && counter == 0 && 0 < i <= sp.rate
      modifies this, lanes
      ensures Squeezing() && produced == old(produced) + i && message == old(message) && counter == sp.rate - i
      ensures part == OutputRange(sp, message, old(produced), i)
    {
      hide StateBytes, OutputRange, Padded;
      Permute(sp, lanes);
      OutputWithinBlock(sp, message, permutations, 0, i);
      assert permutations * sp.rate + 0 == produced;
      permutations := permutations + 1;
      assert permutations * sp.rate == produced + sp.rate;
      part := ReadBytes(0, i);
      counter := sp.rate - i;
      produced := produced + i;
    }

    /** Bytes [at, at + len) of the state, one by one. */
    method ReadBytes(at: nat, len: nat) returns (h: Bytes)
      requires lanes.Length == 25 && at + len <= 200
      ensures h == StateBytes(lanes[..])[at..at + len]
    {
      hide LaneByte;
      h := [];
      for i := 0 to len
        invariant h == StateBytes(lanes[..])[at..at + i]
      {
        assert StateBytes(lanes[..])[at + i] == LaneByte(lanes[(at + i) / 8], (at + i) % 8);
        h := h + [LaneByte(lanes[(at + i) / 8], (at + i) % 8)];
      }
    }

    /** The first loop of keccak_inc_squeeze. */
    method TakeLeftover(take: nat) returns (h: Bytes)
      requires Squeezing() && 0 < take <= counter
      modifies this
      ensures Squeezing() && produced == old(produced) + take && counter == old(counter) - take
      ensures message == old(message)
      ensures h == OutputRange(sp, message, old(produced), take)
    {
      hide StateBytes, OutputRange, Padded;
      assert permutations > 0;
      MulStep(permutations, sp.rate);
      h := ReadBytes(sp.rate - counter, take);
      OutputWithinBlock(sp, message, permutations - 1, sp.rate - counter, take);
      counter := counter - take;
      produced := produced + take;
    }
  }
}
