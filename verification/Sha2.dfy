/** The SHA-2 wrappers of sha256.c: padding, the incremental block API and the carry buffer.
    The compression function is a parameter; SHA-256 and SHA-512 differ only in the record `Md`. */
module Sha2 {
  import opened Arith
  import opened Bytes

  const TWO64: nat := 0x1_0000_0000_0000_0000

  /** block: block size; lenBytes: width of the length field in the padded message;
      countBytes: how many of its low bytes the code writes (the others stay zero). */
  datatype Md = Md(block: nat, lenBytes: nat, countBytes: nat, iv: Bytes, cf: (Bytes, Bytes) -> Bytes) {
    ghost predicate Valid() {
      && (block, lenBytes, countBytes) in {(64, 8, 8), (128, 16, 9)}
      && forall s, b :: |cf(s, b)| == |iv|
    }
  }

  function Sha256(iv: Bytes, cf: (Bytes, Bytes) -> Bytes): Md { Md(64, 8, 8, iv, cf) }
  function Sha512(iv: Bytes, cf: (Bytes, Bytes) -> Bytes): Md { Md(128, 16, 9, iv, cf) }

  // ---- Specification: FIPS 180-4 sections 5.1 and 6 over an abstract compression function ----

  /** Compresses every whole block of `data`; an incomplete last block is ignored. */
  function Blocks(md: Md, st: Bytes, data: Bytes): (r: Bytes)
    decreases |data|
  {
    if md.block == 0 || |data| < md.block then st
    else Blocks(md, md.cf(st, data[..md.block]), data[md.block..])
  }

  /** Number of zero bytes between the 0x80 byte and the length field. */
  function ZeroFill(md: Md, len: nat): (z: nat)
    requires md.Valid()
    ensures (len + 1 + z + md.lenBytes) % md.block == 0 && z < md.block
  {
    var used := len % md.block + 1 + md.lenBytes;
    if used <= md.block then md.block - used else 2 * md.block - used
  }

  function Padding(md: Md, len: nat): Bytes
    requires md.Valid()
  {
    [0x80] + Zeros(ZeroFill(md, len)) + BigEndian(8 * len, md.lenBytes)
  }

  function Hash(md: Md, m: Bytes): (r: Bytes)
    requires md.Valid()
  {
    Blocks(md, md.iv, m + Padding(md, |m|))
  }

  // ---- Facts about the block fold ----

  lemma {:induction false} BlocksLength(md: Md, st: Bytes, data: Bytes)
    requires md.Valid() && |st| == |md.iv|
    ensures |Blocks(md, st, data)| == |md.iv|
    decreases |data|
  {
    if |data| >= md.block {
      BlocksLength(md, md.cf(st, data[..md.block]), data[md.block..]);
    }
  }

  lemma HashLength(md: Md, m: Bytes)
    requires md.Valid()
    ensures |Hash(md, m)| == |md.iv|
  {
    BlocksLength(md, md.iv, m + Padding(md, |m|));
  }

  lemma {:induction false} BlocksConcat(md: Md, st: Bytes, a: Bytes, b: Bytes)
    requires md.Valid() && |a| % md.block == 0
    ensures Blocks(md, st, a + b) == Blocks(md, Blocks(md, st, a), b)
    decreases |a|
  {
    if a == [] {
      assert a + b == b;
    } else {
      var n := md.block;
      assert |a| >= n;
      assert (a + b)[..n] == a[..n];
      assert (a + b)[n..] == a[n..] + b;
      assert |a[n..]| % n == 0;
      BlocksConcat(md, md.cf(st, a[..n]), a[n..], b);
    }
  }

  /** A whole block at the end is compressed last. */
  lemma BlocksLast(md: Md, st: Bytes, a: Bytes, b: Bytes)
    requires md.Valid() && |a| % md.block == 0 && |b| == md.block
    ensures Blocks(md, st, a + b) == md.cf(Blocks(md, st, a), b)
  {
    BlocksConcat(md, st, a, b);
    assert b[..md.block] == b && b[md.block..] == [];
  }

  /** The reference: compress the blocks one after the other, by number. */
  function Compressed(md: Md, data: Bytes, k: nat): Bytes
    requires k * md.block <= |data|
  {
    if k == 0 then md.iv
    else
      MulStep(k, md.block);
      md.cf(Compressed(md, data, k - 1), Chunk(data, md.block, k - 1))
  }

  lemma {:induction false} BlocksAreCompressed(md: Md, data: Bytes, k: nat)
    requires md.Valid() && k * md.block <= |data|
    ensures Blocks(md, md.iv, data[..k * md.block]) == Compressed(md, data, k)
  {
    if k > 0 {
      MulStep(k, md.block);
      BlocksAreCompressed(md, data, k - 1);
      var at := (k - 1) * md.block;
      MultipleMod(k - 1, md.block);
      BlocksLast(md, md.iv, data[..at], data[at..at + md.block]);
      assert data[..at] + data[at..at + md.block] == data[..k * md.block];
    }
  }

  /** The padded message: the message, a byte 0x80, zeros, and the bit length; whole blocks, and the fewest of them. */
  lemma PaddedShape(md: Md, m: Bytes)
    requires md.Valid()
    ensures var padded := m + Padding(md, |m|);
            && |padded| % md.block == 0 && |m| + 1 + md.lenBytes <= |padded| < |m| + 1 + md.lenBytes + md.block
            && padded[..|m|] == m && padded[|m|] == 0x80
            && (forall i :: |m| < i < |padded| - md.lenBytes ==> padded[i] == 0)
            && padded[|padded| - md.lenBytes..] == BigEndian(8 * |m|, md.lenBytes)
  {
    hide BigEndian;
  }

  /** The hash of a message is the chaining value after the blocks of the padded message. */
  lemma HashIsCompressed(md: Md, m: Bytes, k: nat)
    requires md.Valid() && k * md.block == |m + Padding(md, |m|)|
    ensures Hash(md, m) == Compressed(md, m + Padding(md, |m|), k)
  {
    hide Blocks, Padding;
    var padded := m + Padding(md, |m|);
    BlocksAreCompressed(md, padded, k);
    assert padded[..k * md.block] == padded;
  }

  /** The one block of a short message. */
  function OnlyBlock(md: Md, m: Bytes): (b: Bytes)
    requires md.Valid() && |m| < md.block - md.lenBytes
    ensures |b| == md.block
  {
    m + [0x80] + Zeros(md.block - md.lenBytes - |m| - 1) + BigEndian(8 * |m|, md.lenBytes)
  }

  /** A short message takes one compression of the initial value. */
  lemma HashOfShort(md: Md, m: Bytes)
    requires md.Valid() && |m| < md.block - md.lenBytes
    ensures Hash(md, m) == md.cf(md.iv, OnlyBlock(md, m))
  {
    hide BigEndian;
    assert ZeroFill(md, |m|) == md.block - md.lenBytes - |m| - 1;
    assert m + Padding(md, |m|) == [] + OnlyBlock(md, m);
    BlocksLast(md, md.iv, [], OnlyBlock(md, m));
  }

  /** The incomplete last block does not reach the compression function. */
  lemma BlocksDropTail(md: Md, st: Bytes, data: Bytes)
    requires md.Valid()
    ensures |data| % md.block <= |data| && Blocks(md, st, data) == Blocks(md, st, data[..|data| - |data| % md.block])
  {
    hide Blocks;
    MultipleLess(|data|, md.block);
    var n := |data| - |data| % md.block;
    assert data == data[..n] + data[n..];
    BlocksConcat(md, st, data[..n], data[n..]);
    ShortTail(md, Blocks(md, st, data[..n]), data[n..]);
  }

  lemma ShortTail(md: Md, st: Bytes, data: Bytes)
    requires |data| < md.block
    ensures Blocks(md, st, data) == st
  {
  }

  lemma BitCountMod(len: nat)
    ensures (8 * len) % TWO64 == (8 * (len % TWO64)) % TWO64
  {
    var q, count := len / TWO64, len % TWO64;
    var a, r := 8 * count / TWO64, 8 * count % TWO64;
    assert 8 * len == (8 * q + a) * TWO64 + r;
    ModUnique(8 * len, TWO64, 8 * q + a, r);
  }

  lemma WidthOfCount()
    ensures Pow256(8) == TWO64 && Pow256(9) == 256 * TWO64
  {
    assert Pow256(4) == 0x1_0000_0000;
    assert Pow256(6) == 256 * 256 * 0x1_0000_0000;
  }

  /** What the code writes after the message - zeros, then `countBytes` bytes of the bit count, where
      `count` is the message length modulo 2^64 - is the length field of the whole message. */
  lemma PaddingWritten(md: Md, len: nat, count: nat)
    requires md.Valid() && count == len % TWO64
    requires md.countBytes == 9 ==> len < TWO64
    ensures BigEndian(8 * len, md.lenBytes) == Zeros(md.lenBytes - md.countBytes) + BigEndian(8 * count, md.countBytes)
  {
    WidthOfCount();
    if md.countBytes == 8 {
      BitCountMod(len);
      BigEndianMod(8 * len, 8, 8);
      BigEndianMod(8 * count, 8, 8);
      assert Zeros(0) + BigEndian(8 * count, 8) == BigEndian(8 * count, 8);
    } else {
      assert count == len;
      BigEndianZeroExtend(8 * len, 9, 7);
    }
  }

  // ---- The C state ----

  /** The 40 bytes of a saved state. */
  datatype Saved = Saved(chain: Bytes, count: nat) {
    /** The state left by compressing `data`. */
    ghost predicate Of(md: Md, data: Bytes) {
      md.Valid() && |data| % md.block == 0 && chain == Blocks(md, md.iv, data) && count == |data| % TWO64
    }
  }

  /** `uint8_t state[40]` (or [72]): the chaining value and the 64-bit count of compressed bytes. */
  class MdState {
    const md: Md
    var chain: Bytes
    var count: nat
    ghost var absorbed: Bytes // everything compressed so far

    ghost predicate Valid()
      reads this
    {
      && md.Valid()
      && |absorbed| % md.block == 0
      && chain == Blocks(md, md.iv, absorbed)
      && count == |absorbed| % TWO64
    }

    /** sha256_inc_init, sha512_inc_init */
    constructor (md: Md)
      requires md.Valid()
      ensures Valid() && this.md == md && absorbed == []
    {
      this.md := md;
      chain := md.iv;
      count := 0;
      absorbed := [];
    }

    /** `memcpy(sha2_state, state_seeded, 40)` */
    method Restore(saved: Saved, ghost data: Bytes)
      requires saved.Of(md, data)
      modifies this
      ensures Valid() && absorbed == data
    {
      chain := saved.chain;
      count := saved.count;
      absorbed := data;
    }

    /** sha256_inc_blocks, sha512_inc_blocks */
    method IncBlocks(data: Bytes, inblocks: nat)
      requires Valid() && inblocks * md.block <= |data|
      modifies this
      ensures Valid() && absorbed == old(absorbed) + data[..inblocks * md.block]
      ensures inblocks == 1 ==> md.block <= |data| && chain == md.cf(old(chain), data[..md.block])
    {
      var input := data[..inblocks * md.block];
      BlocksConcat(md, md.iv, absorbed, input);
      MultipleMod(inblocks, md.block);
      chain := HashBlocks(md, chain, input);
      CountStep(|absorbed|, |input|);
      count := (count + |input|) % TWO64;
      absorbed := absorbed + input;
      AddMod(|old(absorbed)|, |input|, md.block);
    }

    /** sha256_inc_finalize, sha512_inc_finalize: one padded block or two. */
    method IncFinalize(input: Bytes) returns (out: Bytes)
      requires Valid()
      requires md.countBytes == 9 ==> |absorbed| + |input| < TWO64
      modifies this
      ensures out == Hash(md, old(absorbed) + input)
    {
      var bytes := (count + |input|) % TWO64;
      CountStep(|absorbed|, |input|);
      chain := FinalChain(md, chain, input, bytes, absorbed);
      out := chain;
    }
  }

  /** crypto_hashblocks_sha256, crypto_hashblocks_sha512: every whole block, in order. */
  method HashBlocks(md: Md, st: Bytes, data: Bytes) returns (out: Bytes)
    requires md.Valid()
    ensures out == Blocks(md, st, data)
    ensures |data| == md.block ==> out == md.cf(st, data)
  {
    out := st;
    var rest := data;
    while |rest| >= md.block
      invariant Blocks(md, out, rest) == Blocks(md, st, data)
      decreases |rest|
    {
      out, rest := md.cf(out, rest[..md.block]), rest[md.block..];
    }
    if |data| == md.block {
      BlocksLast(md, st, [], data);
      assert [] + data == data;
    }
  }

  /** The three calls of crypto_hashblocks in finalize: whole blocks, then one or two padded ones. */
  method FinalChain(md: Md, chain: Bytes, input: Bytes, bytes: nat, ghost absorbed: Bytes) returns (out: Bytes)
    requires md.Valid() && |absorbed| % md.block == 0 && chain == Blocks(md, md.iv, absorbed)
    requires bytes == (|absorbed| + |input|) % TWO64
    requires md.countBytes == 9 ==> |absorbed| + |input| < TWO64
    ensures out == Hash(md, absorbed + input)
  {
    hide Blocks, Padding, BigEndian, Hash;
    out := HashBlocks(md, chain, input);
    var inlen := |input| % md.block;
    var padded, end := PadTail(md, input[|input| - inlen..], bytes);
    FinalBlocks(md, absorbed, input);
    PaddedTail(md, |absorbed| + |input|, inlen, bytes);
    out := HashBlocks(md, out, padded[..end]);
  }

  /** The `padded` buffer of finalize: the length field ends the first block when it fits there and the
      second one otherwise. */
  method PadTail(md: Md, tail: Bytes, bytes: nat) returns (padded: array<byte>, end: nat)
    requires md.Valid() && |tail| < md.block
    ensures fresh(padded) && end == FinalEnd(md, |tail|) <= padded.Length
    ensures padded[..end]
            == tail + ([0x80] + Zeros(end - md.countBytes - |tail| - 1) + BigEndian(8 * bytes, md.countBytes))
  {
    hide BigEndian;
    end := if |tail| < md.block - md.lenBytes then md.block else 2 * md.block;
    padded := new byte[2 * md.block](_ => 0);
    FillPadded(padded, tail, end - md.countBytes, md.countBytes, 8 * bytes);
  }

  method FillPadded(padded: array<byte>, tail: Bytes, cut: nat, width: nat, bits: nat)
    requires |tail| < cut && cut + width <= padded.Length
    modifies padded
    ensures padded[..cut + width] == tail + ([0x80] + Zeros(cut - |tail| - 1) + BigEndian(bits, width))
  {
    hide BigEndian;
    Memcpy(padded, 0, tail);
    padded[|tail|] := 0x80;
    ghost var head := tail + [0x80];
    assert padded[..|head|] == head;
    ZeroRange(padded, |tail| + 1, cut);
    assert padded[..cut] == padded[..|head|] + padded[|head|..cut];
    ghost var zeros := Zeros(cut - |tail| - 1);
    UllToBytes(padded, cut, width, bits);
    assert padded[..cut + width] == padded[..cut] + padded[cut..cut + width];
    assert head + zeros + BigEndian(bits, width) == tail + ([0x80] + zeros + BigEndian(bits, width));
  }

  /** `for (i = from; i < to; ++i) padded[i] = 0` */
  method ZeroRange(padded: array<byte>, from: nat, to: nat)
    requires from <= to <= padded.Length
    modifies padded
    ensures padded[..from] == old(padded[..from]) && padded[from..to] == Zeros(to - from)
  {
    for i := from to to
      invariant padded[..from] == old(padded[..from])
      invariant forall j | from <= j < i :: padded[j] == 0
    {
      padded[i] := 0;
    }
  }

  lemma CountStep(a: nat, b: nat)
    ensures (a % TWO64 + b) % TWO64 == (a + b) % TWO64
  {
  }

  ghost function FinalEnd(md: Md, inlen: nat): nat
    requires md.Valid() && inlen < md.block
  {
    if inlen < md.block - md.lenBytes then md.block else 2 * md.block
  }

  /** The tail that finalize pads is the end of the padded message. */
  lemma PaddedTail(md: Md, len: nat, inlen: nat, bytes: nat)
    requires md.Valid() && inlen == len % md.block && bytes == len % TWO64
    requires md.countBytes == 9 ==> len < TWO64
    ensures var end := FinalEnd(md, inlen);
            [0x80] + Zeros(end - md.countBytes - inlen - 1) + BigEndian(8 * bytes, md.countBytes) == Padding(md, len)
  {
    hide BigEndian;
    PaddingWritten(md, len, bytes);
    var end := FinalEnd(md, inlen);
    var gap := md.lenBytes - md.countBytes;
    assert Zeros(end - md.countBytes - inlen - 1) == Zeros(ZeroFill(md, len)) + Zeros(gap);
  }

  /** The blocks that finalize builds complete the hash of everything absorbed. */
  lemma FinalBlocks(md: Md, absorbed: Bytes, input: Bytes)
    requires md.Valid() && |absorbed| % md.block == 0
    ensures var inlen := |input| % md.block;
            var len := |absorbed| + |input|;
            && inlen == len % md.block
            && Blocks(md, Blocks(md, Blocks(md, md.iv, absorbed), input), input[|input| - inlen..] + Padding(md, len))
               == Hash(md, absorbed + input)
  {
    hide Padding, Blocks;
    var n, full, inlen := md.block, |input| - |input| % md.block, |input| % md.block;
    var padded := input[full..] + Padding(md, |absorbed| + |input|);
    BlocksDropTail(md, Blocks(md, md.iv, absorbed), input);
    assert full % n == 0;
    BlocksConcat(md, md.iv, absorbed, input[..full]);
    AddMod(|absorbed|, full, n);
    BlocksConcat(md, md.iv, absorbed + input[..full], padded);
    Remainder(|absorbed| + full, inlen, n);
    assert absorbed + input[..full] + padded == absorbed + input + Padding(md, |absorbed + input|);
  }

  /** sha256, sha512: the whole message in one call. */
  method Digest(md: Md, input: Bytes) returns (out: Bytes)
    requires md.Valid()
    requires md.countBytes == 9 ==> |input| < TWO64
    ensures out == Hash(md, input) && |out| == |md.iv|
    ensures |input| < md.block - md.lenBytes ==> out == md.cf(md.iv, OnlyBlock(md, input))
  {
    hide Blocks, Hash, OnlyBlock;
    if |input| < md.block - md.lenBytes {
      HashOfShort(md, input);
    }
    var state := new MdState(md);
    out := state.IncFinalize(input);
    assert [] + input == input;
    HashLength(md, input);
  }

  // ---- Streaming: sha256_inc_state_t ----

  /** The block state plus a carry buffer of unprocessed bytes. */
  class IncState {
    const st: MdState
    const tmp: array<byte>
    var usedTmpBytes: nat
    ghost var fed: Bytes // everything passed to Update

    ghost predicate Valid()
      reads this, st, tmp
    {
      && st.Valid()
      && tmp.Length == st.md.block
      && usedTmpBytes < st.md.block
      && fed == st.absorbed + tmp[..usedTmpBytes]
    }

    /** sha256_inc_state_init */
    constructor (md: Md)
      requires md.Valid()
      ensures Valid() && st.md == md && fed == []
      ensures fresh(st) && fresh(tmp)
    {
      st := new MdState(md);
      tmp := new byte[md.block](_ => 0);
      usedTmpBytes := 0;
      fed := [];
    }

    /** `memcpy(sha256_state->state, state_seeded, 40)` with the carry buffer still empty */
    method Restore(saved: Saved, ghost data: Bytes)
      requires Valid() && fed == [] && saved.Of(st.md, data)
      modifies this, st
      ensures Valid() && fed == data
    {
      st.Restore(saved, data);
      fed := data;
      usedTmpBytes := 0;
    }

    /** sha256_inc_state_update */
    method Update(data: Bytes)
      requires Valid() && |data| < 0x1_0000_0000 // `processed` is a 32-bit unsigned
      modifies this, st, tmp
      ensures Valid() && fed == old(fed) + data
    {
      hide Blocks;
      var processed := 0;
      fed := fed + data;
      if usedTmpBytes > 0 {
        if usedTmpBytes + |data| >= st.md.block {
          processed := FillCarry(data);
        } else {
          Memcpy(tmp, usedTmpBytes, data);
          assert tmp[..usedTmpBytes + |data|] == old(tmp[..usedTmpBytes]) + data;
          usedTmpBytes := usedTmpBytes + |data|;
          return;
        }
      }
      UpdateBlocks(data, processed);
    }

    /** Completes the carried block with the first bytes of `data` and compresses it. */
    method FillCarry(data: Bytes) returns (processed: nat)
      requires st.Valid() && tmp.Length == st.md.block
      requires 0 < usedTmpBytes < st.md.block <= usedTmpBytes + |data|
      requires fed == st.absorbed + tmp[..usedTmpBytes] + data
      modifies this, st, tmp
      ensures st.Valid() && usedTmpBytes == 0 && fed == old(fed)
      ensures processed <= |data| && fed == st.absorbed + data[processed..]
    {
      hide Blocks;
      processed := st.md.block - usedTmpBytes;
      Memcpy(tmp, usedTmpBytes, data[..processed]);
      ghost var block := tmp[..];
      assert block == old(tmp[..usedTmpBytes]) + data[..processed];
      st.IncBlocks(tmp[..], 1);
      assert block[..1 * st.md.block] == block;
      assert data == data[..processed] + data[processed..];
      usedTmpBytes := 0;
    }

    /** The part of Update after the carry buffer has been emptied. */
    method UpdateBlocks(data: Bytes, start: nat)
      requires start <= |data| && usedTmpBytes == 0 && st.Valid() && tmp.Length == st.md.block
      requires fed == st.absorbed + data[start..]
      modifies this, st, tmp
      ensures Valid() && fed == old(fed)
    {
      hide Blocks;
      ghost var rest := data[start..];
      var numBlocks := |data[start..]| / st.md.block;
      var whole := numBlocks * st.md.block;
      QuotientBound(|rest|, st.md.block);
      assert rest == rest[..whole] + rest[whole..];
      if numBlocks > 0 {
        st.IncBlocks(data[start..], numBlocks);
      } else {
        assert rest[..0] == [];
      }
      assert fed == st.absorbed + rest[whole..];
      var processed := start + whole;
      assert data[processed..] == rest[whole..];
      usedTmpBytes := |data| - processed;
      Memcpy(tmp, 0, data[processed..]);
    }

    /** sha256_inc_state_finalize: the digest cut to N bytes. */
    method Finalize(n: nat) returns (out: Bytes)
      requires Valid() && n <= |st.md.iv|
      requires st.md.countBytes == 9 ==> |fed| < TWO64
      modifies st
      ensures |out| == n && out <= Hash(st.md, old(fed))
    {
      hide Hash, Blocks;
      HashLength(st.md, fed);
      out := st.IncFinalize(tmp[..usedTmpBytes]);
      if n < |st.md.iv| {
        out := out[..n];
      }
    }
  }

  /** After any sequence of updates the carry buffer is exactly the unprocessed tail of the input. */
  lemma CarryIsTail(s: IncState)
    requires s.Valid()
    ensures var whole := |s.fed| - |s.fed| % s.st.md.block;
            && s.st.absorbed == s.fed[..whole]
            && s.tmp[..s.usedTmpBytes] == s.fed[whole..]
            && s.st.count == whole % TWO64
  {
    Remainder(|s.st.absorbed|, s.usedTmpBytes, s.st.md.block);
  }

}
