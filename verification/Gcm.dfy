/**
 Counter mode and AES-GCM seal/open (src/sslGcm.c), over an arbitrary block
 cipher. Pointers into buffers are an array and an offset; the plaintext and
 ciphertext regions may coincide, as the record reader relies on.
 */
module Gcm {
  import opened Gf2Poly
  import opened Bytes
  import opened GcmField
  import opened Ghash

  /** The forward block cipher under one key, with a record of every block put to it. */
  class BlockCipher {
    const E: Block -> Block
    ghost var log: seq<Block>

    constructor (e: Block -> Block)
      ensures E == e && log == []
    {
      E := e;
      log := [];
    }

    method Encrypt(block: Block) returns (r: Block)
      modifies this
      ensures r == E(block) && log == old(log) + [block]
    {
      log := log + [block];
      r := E(block);
    }
  }

  // ----- counters -----

  function Inc32(b: Block): Block {
    b[..12] + BigEndian((FromBigEndian(b[12..]) + 1) % TWO32, 4)
  }

  function Counter(icb: Block, n: nat): Block {
    if n == 0 then icb else Inc32(Counter(icb, n - 1))
  }

  function J0(iv: seq<Byte>): Block
    requires |iv| == 12
  {
    iv + [0, 0, 0, 1]
  }

  function Blocks(len: nat): nat {
    (len + 15) / 16
  }

  function CounterBlocks(icb: Block, n: nat): (r: seq<Block>)
    ensures |r| == n
  {
    seq(n, k requires 0 <= k < n => Counter(icb, k))
  }

  function KeyByte(e: Block -> Block, icb: Block, k: nat): Byte {
    e(Counter(icb, k / 16))[k % 16]
  }

  /** GCTR: every octet is added to the key stream octet at its position. */
  function GctrSpec(e: Block -> Block, icb: Block, x: seq<Byte>): (r: seq<Byte>)
    ensures |r| == |x|
  {
    seq(|x|, k requires 0 <= k < |x| => XorByte(x[k], KeyByte(e, icb, k)))
  }

  lemma GctrInvolution(e: Block -> Block, icb: Block, x: seq<Byte>)
    ensures GctrSpec(e, icb, GctrSpec(e, icb, x)) == x
  {
    forall k | 0 <= k < |x|
      ensures GctrSpec(e, icb, GctrSpec(e, icb, x))[k] == x[k]
    {
      XorByteCancel(x[k], KeyByte(e, icb, k));
    }
  }

  // ----- seal and open as values -----

  datatype Sealed = Sealed(ct: seq<Byte>, tag: Block)

  function TagSpec(e: Block -> Block, iv: seq<Byte>, aad: seq<Byte>, ct: seq<Byte>): Block
    requires |iv| == 12
  {
    XorSeq(HashSpec(e(Zeros(16)), aad, ct), e(J0(iv)))
  }

  function SealSpec(e: Block -> Block, iv: seq<Byte>, aad: seq<Byte>, pt: seq<Byte>): Sealed
    requires |iv| == 12
  {
    var ct := GctrSpec(e, Inc32(J0(iv)), pt);
    Sealed(ct, TagSpec(e, iv, aad, ct))
  }

  /** The blocks that key stream and tag mask are made from, in order. */
  function KeyInputs(iv: seq<Byte>, len: nat): seq<Block>
    requires |iv| == 12
  {
    CounterBlocks(Inc32(J0(iv)), Blocks(len)) + [J0(iv)]
  }

  /** Every block one seal puts to the cipher, in order; the first gives the hash key. */
  function SealInputs(iv: seq<Byte>, len: nat): seq<Block>
    requires |iv| == 12
  {
    [Zeros(16)] + KeyInputs(iv, len)
  }

  predicate Accepts(e: Block -> Block, iv: seq<Byte>, aad: seq<Byte>, s: Sealed)
    requires |iv| == 12
  {
    TagSpec(e, iv, aad, s.ct) == s.tag
  }

  function OpenSpec(e: Block -> Block, iv: seq<Byte>, ct: seq<Byte>): seq<Byte>
    requires |iv| == 12
  {
    GctrSpec(e, Inc32(J0(iv)), ct)
  }

  /** Open accepts exactly the sealed pairs, and recovers the only plaintext. */
  lemma OpenInvertsSeal(e: Block -> Block, iv: seq<Byte>, aad: seq<Byte>, s: Sealed)
    requires |iv| == 12
    ensures Accepts(e, iv, aad, s) <==> exists pt :: SealSpec(e, iv, aad, pt) == s
    ensures forall pt :: SealSpec(e, iv, aad, pt) == s ==> pt == OpenSpec(e, iv, s.ct)
  {
    hide GctrSpec, TagSpec;
    var icb := Inc32(J0(iv));
    GctrInvolution(e, icb, s.ct);
    if Accepts(e, iv, aad, s) {
      assert SealSpec(e, iv, aad, OpenSpec(e, iv, s.ct)) == s;
    }
    forall pt | SealSpec(e, iv, aad, pt) == s
      ensures pt == OpenSpec(e, iv, s.ct)
    {
      GctrInvolution(e, icb, pt);
    }
  }

  // ----- the code -----

  /** Two regions of `len` octets that coincide or do not overlap. */
  predicate SameOrApart(a: array<Byte>, aOff: nat, b: array<Byte>, bOff: nat, len: nat) {
    a != b || aOff == bOff || aOff + len <= bOff || bOff + len <= aOff
  }

  /** inc32, on the counter array in place. */
  method IncrementCounter(ctr: array<Byte>)
    requires ctr.Length == 16
    modifies ctr
    ensures ctr[..] == Inc32(old(ctr[..]))
  {
    var c := (ctr[12] as nat) * 0x100_0000 + (ctr[13] as nat) * 0x1_0000 + (ctr[14] as nat) * 0x100 + ctr[15] as nat;
    ghost var s := ctr[12..];
    assert s[..3][..2] == s[..2] && s[..2][..1] == s[..1];
    assert FromBigEndian(s[..1]) == s[0];
    assert FromBigEndian(s[..2]) == 0x100 * (s[0] as nat) + s[1] as nat;
    assert FromBigEndian(s) == c;
    c := (c + 1) % TWO32;
    BigEndian4(c);
    ctr[12], ctr[13], ctr[14], ctr[15] := c / 0x100_0000 % 256, c / 0x1_0000 % 256, c / 0x100 % 256, c % 256;
    assert ctr[..12] == old(ctr[..12]);
    assert ctr[12..] == BigEndian(c, 4);
    assert ctr[..] == ctr[..12] + ctr[12..];
  }

  lemma BigEndian4(c: nat)
    ensures BigEndian(c, 4) == [c / 0x100_0000 % 256, c / 0x1_0000 % 256, c / 0x100 % 256, c % 256]
  {
    assert BigEndian(c / 0x100_0000, 1) == [c / 0x100_0000 % 256];
    assert c / 0x100 / 0x100 / 0x100 == c / 0x100_0000 && c / 0x100 / 0x100 == c / 0x1_0000;
    assert BigEndian(c / 0x1_0000, 2) == [c / 0x100_0000 % 256, c / 0x1_0000 % 256];
    assert BigEndian(c / 0x100, 3) == [c / 0x100_0000 % 256, c / 0x1_0000 % 256, c / 0x100 % 256];
  }

  /** The inner loops of gctr: `n` octets of one block. */
  method XorKeyStream(src: array<Byte>, srcOff: nat, dst: array<Byte>, dstOff: nat, ks: Block, n: nat)
    requires n <= 16 && srcOff + n <= src.Length && dstOff + n <= dst.Length
    requires SameOrApart(src, srcOff, dst, dstOff, n)
    modifies dst
    ensures dst[..] == old(dst[..dstOff]) + XorSeq(old(src[srcOff..srcOff + n]), ks[..n]) + old(dst[dstOff + n..])
  {
    hide XorByte;
    for j := 0 to n
      invariant forall k :: 0 <= k < j ==> dst[dstOff + k] == XorByte(old(src[srcOff + k]), ks[k])
      invariant forall k :: srcOff + j <= k < srcOff + n ==> src[k] == old(src[k])
      invariant forall k :: 0 <= k < dst.Length && !(dstOff <= k < dstOff + j) ==> dst[k] == old(dst[k])
    {
      dst[dstOff + j] := XorByte(src[srcOff + j], ks[j]);
    }
    assert dst[dstOff..dstOff + n] == XorSeq(old(src[srcOff..srcOff + n]), ks[..n]);
    assert dst[..] == dst[..dstOff] + dst[dstOff..dstOff + n] + dst[dstOff + n..];
  }

  /** A buffer after the first `i` octets of `g` were written at `off`. */
  ghost function Written(base: seq<Byte>, off: nat, g: seq<Byte>, i: nat): seq<Byte>
    requires i <= |g| && off + i <= |base|
  {
    base[..off] + g[..i] + base[off + i..]
  }

  lemma WrittenStep(base: seq<Byte>, off: nat, g: seq<Byte>, i: nat, m: nat)
    requires i + m <= |g| && off + i + m <= |base|
    ensures var w := Written(base, off, g, i);
            |w| == |base| && w[..off + i] + g[i..i + m] + w[off + i + m..] == Written(base, off, g, i + m)
    ensures Written(base, off, g, 0) == base
  {
  }

  lemma WrittenAll(base: seq<Byte>, off: nat, g: seq<Byte>)
    requires off + |g| <= |base|
    ensures Written(base, off, g, |g|) == base[..off] + g + base[off + |g|..]
  {
  }

  lemma SliceSlice(s: seq<Byte>, at: nat, n: nat, i: nat, m: nat)
    requires at + n <= |s| && i + m <= n
    ensures s[at..at + n][i..i + m] == s[at + i..at + i + m]
  {
    var l, r := s[at..at + n][i..i + m], s[at + i..at + i + m];
    forall k | 0 <= k < |l|
      ensures l[k] == r[k]
    {
      assert l[k] == s[at..at + n][i + k];
    }
  }

  /** Source octets not yet reached are not yet overwritten, even in place. */
  lemma ReadAhead(src: seq<Byte>, dst: seq<Byte>, src0: seq<Byte>, dst0: seq<Byte>, same: bool,
                  at: nat, off: nat, g: seq<Byte>, i: nat, m: nat)
    requires i + m <= |g| && off + |g| <= |dst0| && at + |g| <= |src0|
    requires dst == Written(dst0, off, g, i)
    requires if same then src == dst && src0 == dst0 && (at == off || at + |g| <= off || off + |g| <= at) else src == src0
    ensures |src| == |src0| && src[at + i..at + i + m] == src0[at + i..at + i + m]
  {
    assert forall p :: at + i <= p < at + i + m ==> src[p] == src0[p];
  }

  /** Parts at the same place of two regions coincide or do not overlap either. */
  lemma PartsApart(a: array<Byte>, aOff: nat, b: array<Byte>, bOff: nat, len: nat, i: nat, m: nat)
    requires SameOrApart(a, aOff, b, bOff, len) && i + m <= len
    ensures SameOrApart(a, aOff + i, b, bOff + i, m)
    ensures a == b ==> aOff == bOff || aOff + len <= bOff || bOff + len <= aOff
  {
  }

  /** One round of gctr, over `m` octets from position i = 16 n. */
  method GctrRound(cipher: BlockCipher, ctr: seq<Byte>, src: array<Byte>, srcOff: nat, dst: array<Byte>, dstOff: nat,
                   i: nat, m: nat, ghost n: nat, ghost icb: Block, ghost x: seq<Byte>, ghost src0: seq<Byte>, ghost dst0: seq<Byte>)
    requires m <= 16 && i == 16 * n && i + m <= |x|
    requires |src0| == src.Length && |dst0| == dst.Length
    requires srcOff + |x| <= src.Length && dstOff + |x| <= dst.Length
    requires SameOrApart(src, srcOff, dst, dstOff, |x|)
    requires x == src0[srcOff..srcOff + |x|]
    requires ctr == Counter(icb, n)
    requires dst[..] == Written(dst0, dstOff, GctrSpec(cipher.E, icb, x), i)
    requires if src == dst then src0 == dst0 else src[..] == src0
    modifies cipher, dst
    ensures dst[..] == Written(dst0, dstOff, GctrSpec(cipher.E, icb, x), i + m)
    ensures cipher.log == old(cipher.log) + [ctr]
  {
    hide *;
    ghost var g, was, read := GctrSpec(cipher.E, icb, x), dst[..], src[srcOff + i..srcOff + i + m];
    PartsApart(src, srcOff, dst, dstOff, |x|, i, m);
    ReadAhead(src[..], was, src0, dst0, src == dst, srcOff, dstOff, g, i, m);
    assert read == src[..][srcOff + i..srcOff + i + m];
    SliceSlice(src0, srcOff, |x|, i, m);
    var ks := cipher.Encrypt(ctr);
    XorKeyStream(src, srcOff + i, dst, dstOff + i, ks, m);
    GctrChunk(cipher.E, icb, x, n, m);
    assert dst[..] == was[..dstOff + i] + g[i..i + m] + was[dstOff + i + m..];
    WrittenStep(dst0, dstOff, g, i, m);
  }

  /** The rounds of gctr over whole blocks. */
  method GctrBlocks(cipher: BlockCipher, ctr: array<Byte>, src: array<Byte>, srcOff: nat, dst: array<Byte>, dstOff: nat, len: nat,
                    ghost icb: Block, ghost x: seq<Byte>, ghost src0: seq<Byte>, ghost dst0: seq<Byte>) returns (i: nat, ghost n: nat)
    requires ctr.Length == 16 && ctr[..] == icb && ctr != src && ctr != dst
    requires |src0| == src.Length && |dst0| == dst.Length && |x| == len
    requires srcOff + len <= src.Length && dstOff + len <= dst.Length
    requires SameOrApart(src, srcOff, dst, dstOff, len)
    requires x == src0[srcOff..srcOff + len] && src[..] == src0 && dst[..] == dst0
    modifies cipher, dst, ctr
    ensures i == 16 * n && i <= len < i + 16
    ensures ctr[..] == Counter(icb, n)
    ensures cipher.log == old(cipher.log) + CounterBlocks(icb, n)
    ensures if src == dst then src0 == dst0 else src[..] == src0
    ensures dst[..] == Written(dst0, dstOff, GctrSpec(cipher.E, icb, x), i)
  {
    hide *;
    CounterStep(icb, 0);
    CounterBlocksStep(icb, 0);
    WrittenStep(dst0, dstOff, GctrSpec(cipher.E, icb, x), 0, 0);
    i, n := 0, 0;
    while i + 16 <= len
      invariant i == 16 * n && i <= len
      invariant ctr[..] == Counter(icb, n)
      invariant cipher.log == old(cipher.log) + CounterBlocks(icb, n)
      invariant if src == dst then src0 == dst0 else src[..] == src0
      invariant dst[..] == Written(dst0, dstOff, GctrSpec(cipher.E, icb, x), i)
    {
      GctrRound(cipher, ctr[..], src, srcOff, dst, dstOff, i, 16, n, icb, x, src0, dst0);
      CounterBlocksStep(icb, n);
      CounterStep(icb, n);
      IncrementCounter(ctr);
      i, n := i + 16, n + 1;
    }
  }

  /** gctr */
  method Gctr(cipher: BlockCipher, icb: Block, src: array<Byte>, srcOff: nat, dst: array<Byte>, dstOff: nat, len: nat)
    requires srcOff + len <= src.Length && dstOff + len <= dst.Length
    requires SameOrApart(src, srcOff, dst, dstOff, len)
    modifies cipher, dst
    ensures dst[..] == old(dst[..dstOff]) + GctrSpec(cipher.E, icb, old(src[srcOff..srcOff + len])) + old(dst[dstOff + len..])
    ensures cipher.log == old(cipher.log) + CounterBlocks(icb, Blocks(len))
  {
    hide *;
    var ctr := new Byte[16](i requires 0 <= i < 16 => icb[i]);
    assert ctr[..] == icb;
    ghost var x, src0, dst0 := src[srcOff..srcOff + len], src[..], dst[..];
    var i, n := GctrBlocks(cipher, ctr, src, srcOff, dst, dstOff, len, icb, x, src0, dst0);
    if i < len {
      GctrRound(cipher, ctr[..], src, srcOff, dst, dstOff, i, len - i, n, icb, x, src0, dst0);
      CounterBlocksStep(icb, n);
    }
    BlocksAre(len, n);
    WrittenAll(dst0, dstOff, GctrSpec(cipher.E, icb, x));
  }

  lemma CounterStep(icb: Block, n: nat)
    ensures Counter(icb, 0) == icb && Counter(icb, n + 1) == Inc32(Counter(icb, n))
  {
  }

  lemma BlocksAre(len: nat, n: nat)
    requires 16 * n <= len < 16 * n + 16
    ensures Blocks(len) == if 16 * n < len then n + 1 else n
  {
  }

  lemma GctrChunk(e: Block -> Block, icb: Block, x: seq<Byte>, n: nat, m: nat)
    requires m <= 16 && 16 * n + m <= |x|
    ensures GctrSpec(e, icb, x)[16 * n..16 * n + m] == XorSeq(x[16 * n..16 * n + m], e(Counter(icb, n))[..m])
  {
    hide Counter, XorByte;
    var g, ks := GctrSpec(e, icb, x), e(Counter(icb, n));
    forall j | 0 <= j < m
      ensures g[16 * n + j] == XorByte(x[16 * n + j], ks[j])
    {
      Quotient(16 * n + j, 16, n, j);
    }
  }

  lemma CounterBlocksStep(icb: Block, n: nat)
    ensures CounterBlocks(icb, 0) == [] && CounterBlocks(icb, n + 1) == CounterBlocks(icb, n) + [Counter(icb, n)]
  {
  }

  /** compute_j0_96 */
  method ComputeJ0(iv: seq<Byte>) returns (j: array<Byte>)
    requires |iv| == 12
    ensures fresh(j) && j.Length == 16 && j[..] == J0(iv)
  {
    j := new Byte[16](_ => 0);
    CopyInto(j, 0, iv);
    j[12], j[13], j[14], j[15] := 0, 0, 0, 1;
    assert j[..12] == iv && j[12..] == [0, 0, 0, 1];
    assert j[..] == j[..12] + j[12..];
  }

  /** The tag of `ct`, once the hash key is known, at an offset of a buffer. */
  method AuthTag(cipher: BlockCipher, h: Block, iv: seq<Byte>, aad: seq<Byte>, ct: seq<Byte>, tag: array<Byte>, tagOff: nat)
    requires |iv| == 12 && tagOff + 16 <= tag.Length && h == cipher.E(Zeros(16))
    modifies cipher, tag
    ensures tag[tagOff..tagOff + 16] == TagSpec(cipher.E, iv, aad, ct)
    ensures forall k :: 0 <= k < tag.Length && !(tagOff <= k < tagOff + 16) ==> tag[k] == old(tag[k])
    ensures cipher.log == old(cipher.log) + [J0(iv)]
  {
    hide *;
    var H := new Byte[16](i requires 0 <= i < 16 => h[i]);
    assert H[..] == h;
    var S := GhashFull(H, aad, ct);
    var j := ComputeJ0(iv);
    var ekJ0 := cipher.Encrypt(j[..]);
    XorBlock(tag, tagOff, S, ekJ0);
    TagSpecDef(cipher.E, iv, aad, ct);
  }

  /** sslGcmSeal */
  method Seal(cipher: BlockCipher, iv: seq<Byte>, aad: seq<Byte>,
              pt: array<Byte>, ptOff: nat, len: nat, ct: array<Byte>, ctOff: nat, tag: array<Byte>, tagOff: nat)
    requires |iv| == 12
    requires ptOff + len <= pt.Length && ctOff + len <= ct.Length && tagOff + 16 <= tag.Length
    requires SameOrApart(pt, ptOff, ct, ctOff, len)
    requires ct != tag || ctOff + len <= tagOff || tagOff + 16 <= ctOff
    modifies cipher, ct, tag
    ensures Sealed(ct[ctOff..ctOff + len], tag[tagOff..tagOff + 16])
         == SealSpec(cipher.E, iv, aad, old(pt[ptOff..ptOff + len]))
    ensures forall k :: 0 <= k < ct.Length && !(ctOff <= k < ctOff + len) && !(ct == tag && tagOff <= k < tagOff + 16)
              ==> ct[k] == old(ct[k])
    ensures forall k :: 0 <= k < tag.Length && !(tagOff <= k < tagOff + 16) && !(ct == tag && ctOff <= k < ctOff + len)
              ==> tag[k] == old(tag[k])
    ensures cipher.log == old(cipher.log) + SealInputs(iv, len)
  {
    hide *;
    ghost var p := pt[ptOff..ptOff + len];
    var h := cipher.Encrypt(Zeros(16));
    var ctr := ComputeJ0(iv);
    IncrementCounter(ctr);
    Gctr(cipher, ctr[..], pt, ptOff, ct, ctOff, len);
    ghost var c := ct[ctOff..ctOff + len];
    assert c == GctrSpec(cipher.E, Inc32(J0(iv)), p);
    AuthTag(cipher, h, iv, aad, ct[ctOff..ctOff + len], tag, tagOff);
    assert ct[ctOff..ctOff + len] == c;
    SealSpecDef(cipher.E, iv, aad, p);
    SealInputsDef(iv, len);
  }

  lemma SealSpecDef(e: Block -> Block, iv: seq<Byte>, aad: seq<Byte>, pt: seq<Byte>)
    requires |iv| == 12
    ensures var ct := GctrSpec(e, Inc32(J0(iv)), pt);
            SealSpec(e, iv, aad, pt) == Sealed(ct, TagSpec(e, iv, aad, ct))
  {
  }

  lemma SealInputsDef(iv: seq<Byte>, len: nat)
    requires |iv| == 12
    ensures SealInputs(iv, len) == [Zeros(16)] + CounterBlocks(Inc32(J0(iv)), Blocks(len)) + [J0(iv)]
  {
  }

  /** The tag comparison: accumulates differences without leaving the loop early. */
  method Differs(a: array<Byte>, b: seq<Byte>) returns (diff: bool)
    requires a.Length == |b| == 16
    ensures diff <==> a[..] != b
  {
    diff := false;
    for i := 0 to 16
      invariant diff <==> a[..i] != b[..i]
    {
      XorEqual(a[i], b[i]);
      diff := diff || XorByte(a[i], b[i]) != 0;
      assert a[..i + 1] == a[..i] + [a[i]] && b[..i + 1] == b[..i] + [b[i]];
    }
    assert a[..16] == a[..] && b[..16] == b;
  }

  lemma XorEqual(a: Byte, b: Byte)
    ensures XorByte(a, b) == 0 <==> a == b
  {
    XorCancel(a, b);
    XorZero(b);
    XorSelf(a);
  }

  /** sslGcmOpen */
  method Open(cipher: BlockCipher, iv: seq<Byte>, aad: seq<Byte>,
              ct: array<Byte>, ctOff: nat, len: nat, tag: seq<Byte>, pt: array<Byte>, ptOff: nat) returns (ok: bool)
    requires |iv| == 12 && |tag| == 16
    requires ctOff + len <= ct.Length && ptOff + len <= pt.Length
    requires SameOrApart(ct, ctOff, pt, ptOff, len)
    modifies cipher, pt
    ensures ok <==> exists p :: SealSpec(cipher.E, iv, aad, p) == Sealed(old(ct[ctOff..ctOff + len]), tag)
    ensures ok ==> SealSpec(cipher.E, iv, aad, pt[ptOff..ptOff + len]) == Sealed(old(ct[ctOff..ctOff + len]), tag)
    ensures !ok ==> pt[..] == old(pt[..])
    ensures forall k :: 0 <= k < pt.Length && !(ptOff <= k < ptOff + len) ==> pt[k] == old(pt[k])
  {
    hide *;
    var c := ct[ctOff..ctOff + len];
    var h := cipher.Encrypt(Zeros(16));
    var expected := new Byte[16](_ => 0);
    AuthTag(cipher, h, iv, aad, c, expected, 0);
    assert expected[..] == expected[0..16];
    OpenInvertsSeal(cipher.E, iv, aad, Sealed(c, tag));
    AcceptsDef(cipher.E, iv, aad, Sealed(c, tag));
    var diff := Differs(expected, tag);
    if diff {
      return false;
    }
    var ctr := ComputeJ0(iv);
    IncrementCounter(ctr);
    Gctr(cipher, ctr[..], ct, ctOff, pt, ptOff, len);
    OpenSpecDef(cipher.E, iv, c);
    return true;
  }

  lemma TagSpecDef(e: Block -> Block, iv: seq<Byte>, aad: seq<Byte>, ct: seq<Byte>)
    requires |iv| == 12
    ensures TagSpec(e, iv, aad, ct) == XorSeq(HashSpec(e(Zeros(16)), aad, ct), e(J0(iv)))
  {
  }

  lemma AcceptsDef(e: Block -> Block, iv: seq<Byte>, aad: seq<Byte>, s: Sealed)
    requires |iv| == 12
    ensures Accepts(e, iv, aad, s) <==> TagSpec(e, iv, aad, s.ct) == s.tag
  {
  }

  lemma OpenSpecDef(e: Block -> Block, iv: seq<Byte>, ct: seq<Byte>)
    requires |iv| == 12
    ensures OpenSpec(e, iv, ct) == GctrSpec(e, Inc32(J0(iv)), ct)
  {
  }
}
