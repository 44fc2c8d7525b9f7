/**
 The streaming SHA-1 of cryptkit-vendor/ckSHA1.c and ckSHA1_priv.c, and the
 one-shot hash of FIPS 180-1. A LONG has 32 bits and words are big-endian, which
 is what the code presumes. The 80-word work buffer is a 64-octet block buffer and
 a local array for the expansion, whose upper words are never read again.
 */
module Sha1 {
  import opened Bytes

  type Word = bv32

  datatype Digest = Digest(a: Word, b: Word, c: Word, d: Word, e: Word)

  const H0: Digest := Digest(0x67452301, 0xEFCDAB89, 0x98BADCFE, 0x10325476, 0xC3D2E1F0)

  // ----- the compression function -----

  function Rotl(n: nat, x: Word): Word
    requires 0 < n < 32
  {
    (x << n) | (x >> (32 - n))
  }

  function F(t: nat, x: Word, y: Word, z: Word): Word {
    if t < 20 then (x & y) | (!x & z)
    else if t < 40 then x ^ y ^ z
    else if t < 60 then (x & y) | (x & z) | (y & z)
    else x ^ y ^ z
  }

  function K(t: nat): Word {
    if t < 20 then 0x5A827999 else if t < 40 then 0x6ED9EBA1 else if t < 60 then 0x8F1BBCDC else 0xCA62C1D6
  }

  /** The first function chooses by `x` between `y` and `z`, bit by bit. */
  lemma Chooses(t: nat, x: Word, y: Word, z: Word)
    requires t < 20
    ensures F(t, x, y, z) & x == y & x && F(t, x, y, z) & !x == z & !x
  {
  }

  /** The third takes the majority: where two agree it is what they say. */
  lemma Majority(t: nat, x: Word, y: Word, z: Word)
    requires 40 <= t < 60
    ensures (x ^ y) & (F(t, x, y, z) ^ z) == 0
    ensures !(x ^ y) & (F(t, x, y, z) ^ x) == 0
  {
  }

  /** The others add the bits: each input bit flips the output bit. */
  lemma Parity(t: nat, x: Word, y: Word, z: Word)
    requires 20 <= t < 40 || 60 <= t
    ensures F(t, 0, 0, z) == z && F(t, 0, y, y) == 0 && F(t, x, x, z) == z
  {
    XorWith(x, z);
    XorWith(y, y);
  }

  lemma XorWith(a: Word, z: Word)
    ensures a ^ a == 0 && 0 ^ z == z
  {
  }

  /** The constants are the square roots of 2, 3, 5 and 10, times 2^30. */
  lemma RootConstants(t: nat)
    ensures var k, n := K(t) as nat, if t < 20 then 2 else if t < 40 then 3 else if t < 60 then 5 else 10;
            k * k <= n * 0x1000_0000_0000_0000 < (k + 1) * (k + 1)
  {
  }

  /** Word `t` of a block, most significant octet first. */
  function WordAt(block: seq<Byte>, t: nat): Word
    requires 4 * t + 4 <= |block|
  {
    (block[4 * t] as Word << 24) | (block[4 * t + 1] as Word << 16) | (block[4 * t + 2] as Word << 8) | block[4 * t + 3] as Word
  }

  /** The message schedule. */
  ghost function W(block: seq<Byte>, t: nat): Word
    requires |block| == 64
  {
    if t < 16 then WordAt(block, t)
    else Rotl(1, W(block, t - 3) ^ W(block, t - 8) ^ W(block, t - 14) ^ W(block, t - 16))
  }

  function Round(r: Digest, t: nat, w: Word): Digest {
    Digest(Rotl(5, r.a) + F(t, r.b, r.c, r.d) + r.e + w + K(t), r.a, Rotl(30, r.b), r.c, r.d)
  }

  /** The registers after the first `n` rounds. */
  ghost function Rounds(block: seq<Byte>, r: Digest, n: nat): Digest
    requires |block| == 64
  {
    if n == 0 then r else Round(Rounds(block, r, n - 1), n - 1, W(block, n - 1))
  }

  function Add(x: Digest, y: Digest): Digest {
    Digest(x.a + y.a, x.b + y.b, x.c + y.c, x.d + y.d, x.e + y.e)
  }

  ghost function Compress(r: Digest, block: seq<Byte>): Digest
    requires |block| == 64
  {
    Add(r, Rounds(block, r, 80))
  }

  // ----- the one-shot hash -----

  /** The chaining value after the first `n` blocks of `b`. */
  ghost function Fold(r: Digest, b: seq<Byte>, n: nat): Digest
    requires 64 * n <= |b|
  {
    if n == 0 then r else Compress(Fold(r, b, n - 1), b[64 * (n - 1)..64 * n])
  }

  /** The length of `n` octets in bits, modulo 2^64. */
  function Bits(n: nat): nat {
    8 * n % TWO64
  }

  /** A bit count that goes on by `n` octets. */
  function CountAfter(count: nat, n: nat): nat {
    (count + 8 * n) % TWO64
  }

  lemma AddWrapped(x: nat, y: nat)
    ensures CountAfter(Bits(x), y) == Bits(x + y) && Bits(0) == 0
  {
    AddAfterMod(8 * x, 8 * y, TWO64);
  }

  /** Zero octets between the 0x80 octet and the length, for `r` octets in the last block. */
  function PadZeros(r: nat): nat
    requires r < 64
  {
    if r < 56 then 55 - r else 119 - r
  }

  /** The padded message; bit lengths are taken modulo 2^64. */
  function Pad(msg: seq<Byte>): seq<Byte> {
    msg + [0x80] + Zeros(PadZeros(|msg| % 64)) + BigEndian(Bits(|msg|), 8)
  }

  ghost function Hash(msg: seq<Byte>): Digest {
    Fold(H0, Pad(msg), |Pad(msg)| / 64)
  }

  lemma {:induction false} FoldConcat(r: Digest, a: seq<Byte>, b: seq<Byte>, m: nat, n: nat)
    requires |a| == 64 * m && 64 * n <= |b|
    ensures Fold(r, a + b, m + n) == Fold(Fold(r, a, m), b, n)
    decreases n
  {
    hide Compress;
    if n == 0 {
      FoldPrefix(r, a + b, a, m);
    } else {
      FoldConcat(r, a, b, m, n - 1);
      assert (a + b)[64 * (m + n - 1)..64 * (m + n)] == b[64 * (n - 1)..64 * n];
    }
  }

  lemma {:induction false} FoldPrefix(r: Digest, a: seq<Byte>, b: seq<Byte>, n: nat)
    requires 64 * n <= |a| && 64 * n <= |b| && a[..64 * n] == b[..64 * n]
    ensures Fold(r, a, n) == Fold(r, b, n)
  {
    hide Compress;
    if n != 0 {
      var p, q := a[..64 * n], b[..64 * n];
      assert a[..64 * (n - 1)] == p[..64 * (n - 1)] && b[..64 * (n - 1)] == q[..64 * (n - 1)];
      FoldPrefix(r, a, b, n - 1);
      assert a[64 * (n - 1)..64 * n] == p[64 * (n - 1)..] && b[64 * (n - 1)..64 * n] == q[64 * (n - 1)..];
    }
  }

  lemma FoldOne(r: Digest, b: seq<Byte>)
    requires |b| == 64
    ensures Fold(r, b, 1) == Compress(r, b)
  {
    assert b[0..64] == b;
    assert Fold(r, b, 0) == r;
  }

  // ----- the compression code -----

  /** SHS_INFO and the functions on it. */
  class ShsInfo {
    var digest: Digest
    var countLo: nat
    var countHi: nat
    const data: array<Byte>

    constructor ()
      ensures fresh(data) && Valid() && digest == H0 && Count() == 0
    {
      data := new Byte[64](_ => 0);
      digest, countLo, countHi := H0, 0, 0;
    }

    ghost predicate Valid()
      reads this
    {
      data.Length == 64 && countLo < TWO32 && countHi < TWO32
    }

    /** The 64-bit bit count held in two words. */
    ghost function Count(): nat
      reads this
    {
      countHi * TWO32 + countLo
    }

    /** shsInit */
    method Init()
      requires Valid()
      modifies this
      ensures Valid() && digest == H0 && Count() == 0
    {
      digest, countLo, countHi := H0, 0, 0;
    }

    /** The message schedule: the sixteen words of the block, and sixty-four more. */
    method Expand() returns (w: array<Word>)
      requires Valid()
      ensures fresh(w) && w.Length == 80
      ensures forall k :: 0 <= k < 80 ==> w[k] == W(data[..], k)
    {
      hide W, Rotl, WordAt;
      ghost var block := data[..];
      w := new Word[80](_ => 0);
      for t := 0 to 16
        invariant forall k :: 0 <= k < t ==> w[k] == W(block, k)
      {
        WStep(block, t);
        w[t] := WordAt(data[..], t);
      }
      for t := 16 to 80
        invariant forall k :: 0 <= k < t ==> w[k] == W(block, k)
      {
        WStep(block, t);
        w[t] := Rotl(1, w[t - 3] ^ w[t - 8] ^ w[t - 14] ^ w[t - 16]);
      }
    }

    /** shsTransform */
    method Transform()
      requires Valid()
      modifies this`digest
      ensures digest == Compress(old(digest), data[..])
    {
      hide W, Rounds, Compress, Add, Round;
      ghost var block := data[..];
      var w := Expand();
      var r := digest;
      RoundsStep(block, r, 0);
      for t := 0 to 80
        invariant digest == old(digest)
        invariant forall k :: 0 <= k < 80 ==> w[k] == W(block, k)
        invariant r == Rounds(block, digest, t)
      {
        RoundsStep(block, digest, t);
        r := Round(r, t, w[t]);
      }
      CompressDef(digest, block);
      digest := Add(digest, r);
    }

    /** The bit count part of shsUpdate. */
    method AddCount(count: nat)
      requires Valid() && count < 0x8000_0000
      modifies this`countLo, this`countHi
      ensures Valid() && Count() == CountAfter(old(Count()), count)
    {
      CountArithmetic(countHi, countLo, count);
      var lo := NewLo(countLo, count);
      if lo < countLo {
        countHi := (countHi + 1) % TWO32;
      }
      countLo := lo;
      countHi := (countHi + count / 0x2000_0000) % TWO32;
    }

    /** shsUpdate; a length that is not a multiple of 64 leaves the rest in `data`. */
    method Update(buffer: seq<Byte>)
      requires Valid() && |buffer| < 0x8000_0000
      modifies this`digest, this`countLo, this`countHi, data
      ensures Valid() && Count() == CountAfter(old(Count()), |buffer|)
      ensures digest == Fold(old(digest), buffer, |buffer| / 64)
      ensures data[..|buffer| % 64] == buffer[|buffer| / 64 * 64..]
    {
      hide Compress, Fold, CountAfter;
      AddCount(|buffer|);
      var at := 0;
      ghost var n := 0;
      FoldStep(digest, buffer, 0);
      while at + 64 <= |buffer|
        invariant at == 64 * n <= |buffer|
        invariant digest == Fold(old(digest), buffer, n)
        invariant Valid() && Count() == CountAfter(old(Count()), |buffer|)
      {
        CopyInto(data, 0, buffer[at..at + 64]);
        assert data[..] == buffer[at..at + 64];
        Transform();
        FoldStep(old(digest), buffer, n);
        at, n := at + 64, n + 1;
      }
      assert n == |buffer| / 64;
      CopyInto(data, 0, buffer[at..]);
    }

    /** memset(data + from, 0, to - from) */
    method ClearData(from: nat, to: nat)
      requires Valid() && from <= to <= 64
      modifies data
      ensures data[..] == old(data[..from]) + Zeros(to - from) + old(data[to..])
    {
      CopyInto(data, from, Zeros(to - from));
    }

    /** shsFinal, for a message whose last partial block is in `data`. */
    method Final(ghost msg: seq<Byte>)
      requires Valid() && Count() == Bits(|msg|)
      requires digest == Fold(H0, msg, |msg| / 64)
      requires data[..|msg| % 64] == msg[|msg| / 64 * 64..]
      modifies this`digest, data
      ensures Valid() && digest == Hash(msg)
    {
      hide Compress, Fold, Hash, BigEndian, Tail, IsTail, Bits;
      ghost var chain, tail := digest, Tail(msg);
      ghost var start := msg[|msg| / 64 * 64..] + [0x80];
      CountOctets(countHi, countLo, |msg|);
      var count := MarkEnd(start);
      TailShape(msg, start);
      BigEndianWords(countHi, countLo);
      StartTail(count, start, BigEndian(countHi, 4) + BigEndian(countLo, 4), tail);
      EndTail(tail[|tail| - 64..]);
      HashTail(msg, chain);
    }

    /** The octet 0x80 behind the message. */
    method MarkEnd(ghost start: seq<Byte>) returns (count: nat)
      requires Valid() && start != [] && start[|start| - 1] == 0x80 && countLo / 8 % 64 == |start| - 1
      requires data[..|start| - 1] == start[..|start| - 1]
      modifies data
      ensures count == |start| && data[..count] == start
    {
      count := countLo / 8 % 64;
      data[count] := 0x80;
      count := count + 1;
      assert start == start[..count - 1] + [0x80];
    }

    /** The length, and the last block. */
    method EndTail(ghost last: seq<Byte>)
      requires Valid() && data[..56] + (BigEndian(countHi, 4) + BigEndian(countLo, 4)) == last
      modifies this`digest, data
      ensures |last| == 64 && digest == Compress(old(digest), last)
    {
      hide Compress, BigEndian;
      CopyInto(data, 56, BigEndian(countHi, 4) + BigEndian(countLo, 4));
      assert data[..] == last;
      Transform();
    }

    /** Zeros up to the length field, with a block of their own where the length no longer fits. */
    method StartTail(count: nat, ghost start: seq<Byte>, ghost len: seq<Byte>, ghost tail: seq<Byte>)
      requires Valid() && count == |start| <= 64 && |len| == 8
      requires data[..count] == start && IsTail(tail, start, len)
      modifies this`digest, data
      ensures |tail| >= 64 && data[..56] + len == tail[|tail| - 64..]
      ensures digest == if count <= 56 then old(digest) else Compress(old(digest), tail[..64])
      ensures |tail| == if count <= 56 then 64 else 128
    {
      hide Compress, Zeros;
      if count > 56 {
        ClearData(count, 64);
        assert data[..] == tail[..64];
        Transform();
        ClearData(0, 56);
      } else {
        ClearData(count, 56);
      }
    }
  }

  lemma TailShape(msg: seq<Byte>, start: seq<Byte>)
    requires start == msg[|msg| / 64 * 64..] + [0x80]
    ensures IsTail(Tail(msg), start, BigEndian(Bits(|msg|), 8))
  {
    hide BigEndian, Zeros, IsTail, PadZeros, Bits;
    var r := |msg| % 64;
    assert |start| == r + 1;
    TailParts(start, BigEndian(Bits(|msg|), 8));
  }

  /** The tail block by block. */
  ghost predicate IsTail(t: seq<Byte>, start: seq<Byte>, len: seq<Byte>)
    requires |start| <= 64
  {
    if |start| <= 56 then t == start + Zeros(56 - |start|) + len
    else |t| == 128 && t[..64] == start + Zeros(64 - |start|) && t[64..] == Zeros(56) + len
  }

  lemma TailParts(start: seq<Byte>, len: seq<Byte>)
    requires 0 < |start| <= 64 && |len| == 8
    ensures IsTail(start + Zeros(PadZeros(|start| - 1)) + len, start, len)
  {
    hide Zeros;
    if |start| > 56 {
      ZerosSplit(64 - |start|, 56);
      TwoBlocks(start, Zeros(64 - |start|), Zeros(56), len);
    }
  }

  lemma ZerosSplit(m: nat, n: nat)
    ensures Zeros(m + n) == Zeros(m) + Zeros(n)
  {
  }

  lemma TwoBlocks(a: seq<Byte>, b: seq<Byte>, c: seq<Byte>, d: seq<Byte>)
    ensures var t := a + (b + c) + d;
            t[..|a| + |b|] == a + b && t[|a| + |b|..] == c + d
  {
  }

  /** Everything from the last partial block on, padded: one block or two. */
  function Tail(msg: seq<Byte>): (r: seq<Byte>)
    ensures |r| == if |msg| % 64 < 56 then 64 else 128
  {
    msg[|msg| / 64 * 64..] + [0x80] + Zeros(PadZeros(|msg| % 64)) + BigEndian(Bits(|msg|), 8)
  }

  lemma HashTail(msg: seq<Byte>, chain: Digest)
    requires chain == Fold(H0, msg, |msg| / 64)
    ensures var t := Tail(msg);
            Hash(msg) == if |t| == 64 then Compress(chain, t) else Compress(Compress(chain, t[..64]), t[64..])
  {
    hide Compress, Fold, Tail, Pad, Bits;
    var n, t := |msg| / 64, Tail(msg);
    var front := msg[..64 * n];
    PadParts(msg);
    FoldPrefix(H0, msg, front, n);
    FoldConcat(H0, front, t, n, |t| / 64);
    FoldOne(chain, t[..64]);
    FoldStep(chain, t, 0);
    assert t[0..64] == t[..64];
    if |t| == 64 {
      assert t[..64] == t;
    } else {
      FoldStep(chain, t, 1);
      assert t[64..128] == t[64..];
    }
  }

  lemma PadParts(msg: seq<Byte>)
    ensures Pad(msg) == msg[..64 * (|msg| / 64)] + Tail(msg)
    ensures |Pad(msg)| / 64 == |msg| / 64 + |Tail(msg)| / 64
  {
    hide BigEndian;
    var n := |msg| / 64;
    assert msg == msg[..64 * n] + msg[64 * n..];
  }

  lemma CountOctets(hi: nat, lo: nat, len: nat)
    requires lo < TWO32 && hi * TWO32 + lo == Bits(len)
    ensures lo / 8 % 64 == len % 64
  {
    var q := 8 * len / TWO64;
    var k := q * 0x80_0000_0000_0000 + hi * 0x80_0000;
    assert lo == 8 * (len - 64 * k);
    LowSix(len - 64 * k, k);
  }

  lemma LowSix(y: int, k: int)
    ensures (y + 64 * k) % 64 == y % 64
  {
  }

  lemma BigEndianWords(hi: nat, lo: nat)
    requires lo < TWO32
    ensures BigEndian(hi * TWO32 + lo, 8) == BigEndian(hi, 4) + BigEndian(lo, 4)
  {
    BigEndianSplit(hi, lo, 4, 4);
    assert Pow256(4) == TWO32;
  }

  lemma {:induction false} BigEndianSplit(hi: nat, lo: nat, j: nat, k: nat)
    requires lo < Pow256(k)
    ensures BigEndian(hi * Pow256(k) + lo, j + k) == BigEndian(hi, j) + BigEndian(lo, k)
    decreases k
  {
    if k == 0 {
      assert BigEndian(hi, j) + [] == BigEndian(hi, j);
    } else {
      var x := hi * Pow256(k) + lo;
      assert hi * Pow256(k) == 256 * (hi * Pow256(k - 1));
      assert x / 256 == hi * Pow256(k - 1) + lo / 256 && x % 256 == lo % 256;
      BigEndianSplit(hi, lo / 256, j, k - 1);
    }
  }

  // ----- the incremental object -----

  /**
   How much one call can add to `n` octets: the buffer is filled up first, and the whole
   blocks after that go to shsUpdate, which counts them in an int.
   */
  function MaxData(n: nat): nat {
    0x8000_0000 + (64 - n % 64) % 64
  }

  lemma RoomLeft(hashed: nat, b: nat)
    requires b < 64
    ensures MaxData(64 * hashed + b) == 0x8000_0000 + if b == 0 then 0 else 64 - b
  {
    assert (64 * hashed + b) % 64 == b;
  }

  function Joined(chunks: seq<seq<Byte>>): seq<Byte> {
    if chunks == [] then [] else Joined(chunks[..|chunks| - 1]) + chunks[|chunks| - 1]
  }

  /**
   However a message is cut into calls, the digest is that of the whole; what comes
   after the digest was taken is ignored, and taking it again gives the same.
   */
  method HashChunks(chunks: seq<seq<Byte>>, late: seq<seq<Byte>>) returns (d: Digest, again: Digest)
    requires forall i :: 0 <= i < |chunks| ==> |chunks[i]| < MaxData(|Joined(chunks[..i])|)
    ensures d == Hash(Joined(chunks)) && again == d
  {
    hide Hash, Fold, Bits;
    var sha := new Sha1Inst();
    for i := 0 to |chunks|
      invariant fresh(sha) && fresh(sha.context) && fresh(sha.context.data) && fresh(sha.dataBuf)
      invariant sha.Valid() && !sha.isDone && sha.msg == Joined(chunks[..i])
    {
      assert chunks[..i + 1][..i] == chunks[..i] && chunks[..i + 1][i] == chunks[i];
      sha.AddData(chunks[i]);
    }
    assert chunks[..|chunks|] == chunks;
    d := sha.Digest();
    for i := 0 to |late|
      invariant fresh(sha) && fresh(sha.context) && fresh(sha.context.data) && fresh(sha.dataBuf)
      invariant sha.Valid() && sha.isDone && sha.msg == Joined(chunks)
    {
      sha.AddData(late[i]);
    }
    again := sha.Digest();
  }

  /** sha1Inst: buffers partial blocks between calls. */
  class Sha1Inst {
    const context: ShsInfo
    var isDone: bool
    const dataBuf: array<Byte>
    var bufBytes: nat
    ghost var msg: seq<Byte>
    ghost var hashed: nat

    /**
     While open, `hashed` blocks of the message are in the chaining value and the
     rest is buffered; once done, digest and bit count are those of the message.
     */
    ghost predicate Valid()
      reads this, context, context.data, dataBuf
    {
      && context.Valid() && dataBuf.Length == 64 && context.data != dataBuf
      && (isDone ==> context.digest == Hash(msg) && context.Count() == Bits(|msg|))
      && (!isDone ==> bufBytes < 64 && Holds())
    }

    /** What an open object holds, also for the moment when the buffer is full. */
    ghost predicate Holds()
      reads this, context, context.data, dataBuf
    {
      && context.Valid() && dataBuf.Length == 64 && context.data != dataBuf
      && bufBytes <= 64 && |msg| == 64 * hashed + bufBytes
      && dataBuf[..bufBytes] == msg[64 * hashed..]
      && context.digest == Fold(H0, msg, hashed)
      && context.Count() == Bits(64 * hashed)
    }

    /** sha1Alloc */
    constructor ()
      ensures Valid() && fresh(context) && fresh(context.data) && fresh(dataBuf)
      ensures !isDone && msg == []
    {
      context := new ShsInfo();
      dataBuf := new Byte[64](_ => 0);
      isDone, bufBytes, msg, hashed := false, 0, [], 0;
      new;
      hide Fold, Hash, Bits, CountAfter;
      FoldStep(H0, [], 0);
      AddWrapped(0, 0);
    }

    /** sha1Reinit */
    method Reinit()
      requires Valid()
      modifies this, context
      ensures Valid() && !isDone && msg == []
    {
      hide Fold, Hash, Bits, CountAfter;
      context.Init();
      FoldStep(H0, [], 0);
      AddWrapped(0, 0);
      isDone, bufBytes, msg, hashed := false, 0, [], 0;
    }

    /** Hands `k` whole blocks to the context, after `n` blocks `m`. */
    method Absorb(blocks: seq<Byte>, ghost k: nat, ghost m: seq<Byte>, ghost n: nat)
      requires context.Valid() && |blocks| == 64 * k < 0x8000_0000 && |m| == 64 * n
      requires context.digest == Fold(H0, m, n) && context.Count() == Bits(64 * n)
      modifies context, context.data
      ensures context.Valid()
      ensures context.digest == Fold(H0, m + blocks, n + k) && context.Count() == Bits(64 * (n + k))
    {
      hide Fold, Bits, CountAfter;
      context.Update(blocks);
      assert |blocks| / 64 == k;
      FoldConcat(H0, m, blocks, n, k);
      AddWrapped(64 * n, 64 * k);
    }

    /** The first step of sha1AddData: fill up a partial block, and hash it when full. */
    method TopUp(data: seq<Byte>) returns (toMove: nat)
      requires Valid() && !isDone && bufBytes != 0
      modifies this`bufBytes, this`msg, this`hashed, context, context.data, dataBuf
      ensures Valid() && toMove <= |data| && msg == old(msg) + data[..toMove]
      ensures bufBytes == 0 || toMove == |data|
      ensures toMove == |data| || toMove == 64 - old(bufBytes)
    {
      hide Fold, Hash, Bits, CountAfter;
      toMove := 64 - bufBytes;
      if toMove > |data| {
        toMove := |data|;
      }
      Buffer(data[..toMove]);
      if bufBytes == 64 {
        Flush();
      }
    }

    /** Puts octets behind those in the buffer. */
    method Buffer(more: seq<Byte>)
      requires Holds() && bufBytes + |more| <= 64
      modifies this`bufBytes, this`msg, dataBuf
      ensures Holds() && bufBytes == old(bufBytes) + |more| && msg == old(msg) + more
    {
      hide Fold, Bits, CountAfter;
      FoldPrefix(H0, msg, msg + more, hashed);
      CopyInto(dataBuf, bufBytes, more);
      bufBytes := bufBytes + |more|;
      msg := msg + more;
      assert dataBuf[..bufBytes] == old(dataBuf[..bufBytes]) + more;
    }

    /** Hands a full buffer on. */
    method Flush()
      requires Holds() && bufBytes == 64
      modifies this`bufBytes, this`hashed, context, context.data
      ensures Holds() && bufBytes == 0
    {
      hide Fold, Bits, CountAfter;
      ghost var m := msg[..64 * hashed];
      FoldPrefix(H0, msg, m, hashed);
      assert msg == m + dataBuf[..];
      Absorb(dataBuf[..], 1, m, hashed);
      bufBytes, hashed := 0, hashed + 1;
    }

    /** sha1AddData */
    method AddData(data: seq<Byte>)
      requires Valid() && (isDone || |data| < MaxData(|msg|))
      modifies this, context, context.data, dataBuf
      ensures Valid() && isDone == old(isDone)
      ensures msg == if isDone then old(msg) else old(msg) + data
    {
      hide Fold, Hash, Bits, MaxData;
      if isDone {
        return;
      }
      RoomLeft(hashed, bufBytes);
      var rest := data;
      if bufBytes != 0 {
        var moved := TopUp(data);
        rest := data[moved..];
      }
      assert msg + rest == old(msg) + data;
      if rest != [] {
        AddAligned(rest);
      }
    }

    /** The rest of sha1AddData: whole blocks first, then the remainder into the buffer. */
    method AddAligned(data: seq<Byte>)
      requires Valid() && !isDone && bufBytes == 0 && |data| < 0x8000_0000
      modifies this`bufBytes, this`msg, this`hashed, context, context.data, dataBuf
      ensures Valid() && msg == old(msg) + data
    {
      hide Fold, Hash, Bits, CountAfter;
      var blocks := |data| / 64;
      var toMove := blocks * 64;
      if toMove != 0 {
        AddBlocks(data[..toMove], blocks);
      }
      if toMove != |data| {
        Buffer(data[toMove..]);
      }
      assert data[..toMove] + data[toMove..] == data;
    }

    /** Whole blocks do not pass through the buffer. */
    method AddBlocks(data: seq<Byte>, blocks: nat)
      requires Valid() && !isDone && bufBytes == 0 && |data| == 64 * blocks < 0x8000_0000
      modifies this`msg, this`hashed, context, context.data
      ensures Valid() && msg == old(msg) + data
    {
      hide Fold, Hash, Bits, CountAfter;
      Absorb(data, blocks, msg, hashed);
      msg, hashed := msg + data, hashed + blocks;
    }

    /** sha1Digest */
    method Digest() returns (d: Digest)
      requires Valid()
      modifies this, context, context.data
      ensures Valid() && isDone && msg == old(msg)
      ensures d == Hash(msg) && context.Count() == Bits(|msg|)
    {
      hide Fold, Hash, Bits, CountAfter;
      if !isDone {
        Quotient(|msg|, 64, hashed, bufBytes);
        PassRest();
        context.Final(msg);
        isDone := true;
      }
      d := context.digest;
    }

    /** Hands a partial block to the context, where it stays for the padding. */
    method PassRest()
      requires Holds() && bufBytes < 64
      modifies this`bufBytes, context, context.data
      ensures context.Valid() && context.Count() == Bits(|msg|)
      ensures context.digest == Fold(H0, msg, hashed) && context.data[..|msg| - 64 * hashed] == msg[64 * hashed..]
    {
      hide Fold, Bits, CountAfter;
      FoldStep(context.digest, dataBuf[..bufBytes], 0);
      AddWrapped(64 * hashed, bufBytes);
      if bufBytes != 0 {
        context.Update(dataBuf[..bufBytes]);
        bufBytes := 0;
      }
    }
  }

  lemma WStep(block: seq<Byte>, t: nat)
    requires |block| == 64
    ensures t < 16 ==> W(block, t) == WordAt(block, t)
    ensures t >= 16 ==> W(block, t) == Rotl(1, W(block, t - 3) ^ W(block, t - 8) ^ W(block, t - 14) ^ W(block, t - 16))
  {
    hide Rotl, WordAt;
  }

  lemma RoundsStep(block: seq<Byte>, r: Digest, n: nat)
    requires |block| == 64
    ensures Rounds(block, r, 0) == r && Rounds(block, r, n + 1) == Round(Rounds(block, r, n), n, W(block, n))
  {
    hide Round, W;
  }

  lemma CompressDef(r: Digest, block: seq<Byte>)
    requires |block| == 64
    ensures Compress(r, block) == Add(r, Rounds(block, r, 80))
  {
    hide Rounds, Add;
  }

  lemma FoldStep(r: Digest, b: seq<Byte>, n: nat)
    requires 64 * n <= |b|
    ensures Fold(r, b, 0) == r
    ensures 64 * n + 64 <= |b| ==> Fold(r, b, n + 1) == Compress(Fold(r, b, n), b[64 * n..64 * n + 64])
  {
    hide Compress;
  }

  /** The low word plus `count << 3`. */
  function NewLo(lo: nat, count: nat): nat {
    (lo + count * 8 % TWO32) % TWO32
  }

  /** Carry and the bits that the shift loses, put together. */
  lemma CountArithmetic(hi: nat, lo: nat, count: nat)
    requires hi < TWO32 && lo < TWO32 && count < 0x8000_0000
    ensures var h := if NewLo(lo, count) < lo then (hi + 1) % TWO32 else hi;
            (h + count / 0x2000_0000) % TWO32 * TWO32 + NewLo(lo, count) == (hi * TWO32 + lo + 8 * count) % TWO64
  {
    var low, up := count * 8 % TWO32, count / 0x2000_0000;
    var carry := if NewLo(lo, count) < lo then 1 else 0;
    ShiftParts(count);
    Carry(lo, low);
    AddAfterMod(hi + carry, up, TWO32);
    WrapWords(hi + carry + up, NewLo(lo, count));
  }

  lemma ShiftParts(count: nat)
    ensures 8 * count == count / 0x2000_0000 * TWO32 + count * 8 % TWO32
  {
    Quotient(count * 8, TWO32, count / 0x2000_0000, 8 * (count % 0x2000_0000));
  }

  lemma Carry(lo: nat, low: nat)
    requires lo < TWO32 && low < TWO32
    ensures lo + low == (if (lo + low) % TWO32 < lo then 1 else 0) * TWO32 + (lo + low) % TWO32
  {
    var c := if lo + low < TWO32 then 0 else 1;
    Quotient(lo + low, TWO32, c, lo + low - c * TWO32);
  }

  lemma WrapWords(top: nat, lo: nat)
    requires lo < TWO32
    ensures (top * TWO32 + lo) % TWO64 == top % TWO32 * TWO32 + lo
  {
    var q, r := top / TWO32, top % TWO32;
    Quotient(top * TWO32 + lo, TWO64, q, r * TWO32 + lo);
  }
}
