/** The TLS 1.2 pseudo-random function of src/tls12Callouts.c (section 5 of RFC 5246). */
module Prf {
  import opened Bytes

  /** HMAC with a fixed hash: a function of key and text with a fixed output size. */
  datatype Hmac = Hmac(macSize: nat, compute: (seq<Byte>, seq<Byte>) -> seq<Byte>) {
    ghost predicate Valid() {
      macSize > 0 && forall k, x :: |compute(k, x)| == macSize
    }
  }

  /** A(0) = seed, A(i + 1) = HMAC(secret, A(i)) */
  function A(h: Hmac, secret: seq<Byte>, seed: seq<Byte>, i: nat): seq<Byte> {
    if i == 0 then seed else h.compute(secret, A(h, secret, seed, i - 1))
  }

  /** The first `n` blocks of HMAC(secret, A(1) + seed) + HMAC(secret, A(2) + seed) + ... */
  function Stream(h: Hmac, secret: seq<Byte>, seed: seq<Byte>, n: nat): seq<Byte> {
    if n == 0 then []
    else Stream(h, secret, seed, n - 1) + h.compute(secret, A(h, secret, seed, n) + seed)
  }

  /** Output octet `k` of P_hash, for every k. */
  function StreamByte(h: Hmac, secret: seq<Byte>, seed: seq<Byte>, k: nat): Byte
    requires h.Valid()
  {
    StreamLength(h, secret, seed, k + 1);
    Stream(h, secret, seed, k + 1)[k]
  }

  lemma {:induction false} StreamLength(h: Hmac, secret: seq<Byte>, seed: seq<Byte>, n: nat)
    requires h.Valid()
    ensures |Stream(h, secret, seed, n)| == n * h.macSize >= n
  {
    if n != 0 {
      StreamLength(h, secret, seed, n - 1);
      assert n * h.macSize == (n - 1) * h.macSize + h.macSize;
    }
  }

  lemma {:induction false} StreamPrefix(h: Hmac, secret: seq<Byte>, seed: seq<Byte>, m: nat, n: nat)
    requires m <= n
    ensures Stream(h, secret, seed, m) <= Stream(h, secret, seed, n)
    decreases n
  {
    if m < n {
      StreamPrefix(h, secret, seed, m, n - 1);
    }
  }

  /** P_hash: the first `outLen` octets of the stream. */
  function PHashSpec(h: Hmac, secret: seq<Byte>, seed: seq<Byte>, outLen: nat): (r: seq<Byte>)
    requires h.Valid()
    ensures |r| == outLen
  {
    seq(outLen, k requires 0 <= k < outLen => StreamByte(h, secret, seed, k))
  }

  lemma StreamIsPHash(h: Hmac, secret: seq<Byte>, seed: seq<Byte>, n: nat, outLen: nat)
    requires h.Valid() && outLen <= |Stream(h, secret, seed, n)|
    ensures Stream(h, secret, seed, n)[..outLen] == PHashSpec(h, secret, seed, outLen)
  {
    hide Stream;
    var s := Stream(h, secret, seed, n);
    forall k | 0 <= k < outLen
      ensures s[k] == StreamByte(h, secret, seed, k)
    {
      StreamLength(h, secret, seed, k + 1);
      if k + 1 <= n {
        StreamPrefix(h, secret, seed, k + 1, n);
      } else {
        StreamPrefix(h, secret, seed, n, k + 1);
      }
    }
  }

  /** Shorter outputs are prefixes of longer ones. */
  lemma PHashPrefix(h: Hmac, secret: seq<Byte>, seed: seq<Byte>, m: nat, n: nat)
    requires h.Valid() && m <= n
    ensures PHashSpec(h, secret, seed, m) <= PHashSpec(h, secret, seed, n)
  {
  }

  /** The steps up to number `n` succeed. */
  ghost predicate NoneFails(fails: nat -> bool, n: nat) {
    forall k :: 0 <= k <= n ==> !fails(k)
  }

  lemma FailsAt(fails: nat -> bool, k: nat, n: nat)
    ensures k <= n && fails(k) ==> !NoneFails(fails, n)
    ensures NoneFails(fails, k) <==> (k == 0 || NoneFails(fails, k - 1)) && !fails(k)
  {
  }

  /** How many HMAC blocks `outLen` octets take; there is always one. */
  function BlockCount(macSize: nat, outLen: nat): (r: nat)
    requires macSize > 0
    ensures r >= 1 && outLen <= r * macSize && (r > 1 ==> (r - 1) * macSize < outLen)
    decreases outLen
  {
    if outLen <= macSize then 1 else BlockCount(macSize, outLen - macSize) + 1
  }

  /**
   tls12PHash. The HMAC steps are numbered: 0 allocates, 2 i - 1 computes A(i) and 2 i the
   output block i; `fails` says which steps fail. The call succeeds exactly when none
   of those it takes fails, and otherwise has written some prefix of the output.
   */
  method PHash(h: Hmac, secret: seq<Byte>, seed: seq<Byte>, out: array<Byte>, fails: nat -> bool) returns (ok: bool)
    requires h.Valid()
    modifies out
    ensures ok <==> NoneFails(fails, 2 * BlockCount(h.macSize, out.Length))
    ensures ok ==> out[..] == PHashSpec(h, secret, seed, out.Length)
    ensures !ok ==> Partly(h, secret, seed, old(out[..]), out[..])
  {
    hide *;
    Steps(h, secret, seed, 0, out.Length);
    ghost var blocks, was := BlockCount(h.macSize, out.Length), out[..];
    Begun(h, secret, seed, was);
    PartlyWritten(h, secret, seed, 0, 0, was, was);
    FailsAt(fails, 0, 2 * blocks);
    FailsAt(fails, 1, 2 * blocks);
    if fails(0) || fails(1) {
      return false;
    }
    var aSubI := h.compute(secret, seed);
    var at, outLen, n := 0, out.Length, 0;
    while true
      invariant 0 <= at && at + outLen == out.Length && 0 <= outLen && 0 <= n
      invariant aSubI == A(h, secret, seed, n + 1)
      invariant Written(h, secret, seed, n, at, was, out[..])
      invariant n + BlockCount(h.macSize, outLen) == blocks
      invariant NoneFails(fails, 2 * n + 1)
      decreases outLen
    {
      Steps(h, secret, seed, n, outLen);
      FailsAt(fails, 2 * n + 2, 2 * blocks);
      FailsAt(fails, 2 * n + 3, 2 * blocks);
      if fails(2 * n + 2) {
        PartlyWritten(h, secret, seed, n, at, was, out[..]);
        return false;
      }
      var digest := h.compute(secret, aSubI + seed);
      if outLen <= |digest| {
        PutLast(h, secret, seed, n, at, was, out, digest);
        return true;
      }
      PutBlock(h, secret, seed, n, at, was, out, digest);
      at, outLen, n := at + |digest|, outLen - |digest|, n + 1;
      if fails(2 * n + 1) {
        PartlyWritten(h, secret, seed, n, at, was, out[..]);
        return false;
      }
      aSubI := h.compute(secret, aSubI);
    }
  }

  /** The buffer after `n` blocks of `at` octets in all. */
  ghost predicate Written(h: Hmac, secret: seq<Byte>, seed: seq<Byte>, n: nat, at: nat, was: seq<Byte>, now: seq<Byte>) {
    at <= |was| == |now| && now[..at] == Stream(h, secret, seed, n) && now[at..] == was[at..]
  }

  lemma Begun(h: Hmac, secret: seq<Byte>, seed: seq<Byte>, was: seq<Byte>)
    ensures Written(h, secret, seed, 0, 0, was, was)
  {
  }

  /** Moves a whole block to the output. */
  method PutBlock(ghost h: Hmac, ghost secret: seq<Byte>, ghost seed: seq<Byte>, ghost n: nat, at: nat, ghost was: seq<Byte>,
                  out: array<Byte>, digest: seq<Byte>)
    requires at + |digest| <= out.Length && Written(h, secret, seed, n, at, was, out[..])
    requires digest == h.compute(secret, A(h, secret, seed, n + 1) + seed)
    modifies out
    ensures Written(h, secret, seed, n + 1, at + |digest|, was, out[..])
  {
    hide A;
    CopyInto(out, at, digest);
    assert out[..at + |digest|] == old(out[..at]) + digest;
    assert was[at + |digest|..] == was[at..][|digest|..];
  }

  /** Moves the front of the last block to the output. */
  method PutLast(ghost h: Hmac, ghost secret: seq<Byte>, ghost seed: seq<Byte>, ghost n: nat, at: nat, ghost was: seq<Byte>,
                 out: array<Byte>, digest: seq<Byte>)
    requires h.Valid() && at <= out.Length <= at + |digest| && Written(h, secret, seed, n, at, was, out[..])
    requires digest == h.compute(secret, A(h, secret, seed, n + 1) + seed)
    modifies out
    ensures out[..] == PHashSpec(h, secret, seed, out.Length)
  {
    hide A, PHashSpec;
    var outLen := out.Length - at;
    CopyInto(out, at, digest[..outLen]);
    assert out[..] == (old(out[..at]) + digest)[..out.Length];
    StreamIsPHash(h, secret, seed, n + 1, out.Length);
  }

  /** The first octets of the output, and after them what was there before. */
  ghost predicate Partly(h: Hmac, secret: seq<Byte>, seed: seq<Byte>, was: seq<Byte>, now: seq<Byte>)
    requires h.Valid()
  {
    |now| == |was| && exists n :: 0 <= n <= |was| && now[..n] == PHashSpec(h, secret, seed, n) && now[n..] == was[n..]
  }

  lemma PartlyWritten(h: Hmac, secret: seq<Byte>, seed: seq<Byte>, n: nat, at: nat, was: seq<Byte>, now: seq<Byte>)
    requires h.Valid() && Written(h, secret, seed, n, at, was, now)
    ensures Partly(h, secret, seed, was, now)
  {
    StreamIsPHash(h, secret, seed, n, at);
  }

  /** One round of the loop, from `n` finished blocks and `outLen` octets to go. */
  lemma Steps(h: Hmac, secret: seq<Byte>, seed: seq<Byte>, n: nat, outLen: nat)
    requires h.Valid()
    ensures A(h, secret, seed, 1) == h.compute(secret, seed) && Stream(h, secret, seed, 0) == []
    ensures var digest := h.compute(secret, A(h, secret, seed, n + 1) + seed);
            |digest| == h.macSize > 0 && Stream(h, secret, seed, n + 1) == Stream(h, secret, seed, n) + digest
    ensures A(h, secret, seed, n + 2) == h.compute(secret, A(h, secret, seed, n + 1))
    ensures BlockCount(h.macSize, outLen)
         == if outLen <= h.macSize then 1 else BlockCount(h.macSize, outLen - h.macSize) + 1
  {
    assert A(h, secret, seed, 0) == seed;
  }

  datatype Label = NoLabel | Label(bytes: seq<Byte>)

  datatype Status = NoErr | MemFull | HmacFail

  /** tls12_PRF: a label, when given, is put in front of the seed, in memory asked for that. */
  method PRF(h: Hmac, secret: seq<Byte>, name: Label, seed: seq<Byte>, out: array<Byte>, hasMemory: bool, fails: nat -> bool)
    returns (err: Status)
    requires h.Valid()
    modifies out
    ensures err == MemFull <==> name.Label? && !hasMemory
    ensures err == HmacFail <==> err != MemFull && !NoneFails(fails, 2 * BlockCount(h.macSize, out.Length))
    ensures err == NoErr && name.NoLabel? ==> out[..] == PHashSpec(h, secret, seed, out.Length)
    ensures err == NoErr && name.Label? ==> out[..] == PHashSpec(h, secret, name.bytes + seed, out.Length)
    ensures err == MemFull ==> out[..] == old(out[..])
  {
    hide PHashSpec, BlockCount, NoneFails;
    var labelSeed := seed;
    if name.Label? {
      if !hasMemory {
        return MemFull;
      }
      var buf := new Byte[|name.bytes| + |seed|](_ => 0);
      CopyInto(buf, 0, name.bytes);
      CopyInto(buf, |name.bytes|, seed);
      assert buf[..] == name.bytes + seed;
      labelSeed := buf[..];
    }
    var ok := PHash(h, secret, labelSeed, out, fails);
    return if ok then NoErr else HmacFail;
  }

  const RANDOM_SIZE: nat := 32

  /** "key expansion" in ASCII */
  const KEY_EXPANSION: seq<Byte> := [107, 101, 121, 32, 101, 120, 112, 97, 110, 115, 105, 111, 110]

  lemma KeyExpansionText()
    ensures var text := "key expansion";
            |KEY_EXPANSION| == |text| && forall i :: 0 <= i < |text| ==> KEY_EXPANSION[i] == text[i] as int
  {
  }

  /** tls12GenerateKeyMaterial: puts the label into the seed buffer and passes none. */
  method GenerateKeyMaterial(h: Hmac, master: seq<Byte>, serverRandom: seq<Byte>, clientRandom: seq<Byte>, key: array<Byte>,
                             fails: nat -> bool) returns (err: Status)
    requires h.Valid() && |serverRandom| == |clientRandom| == RANDOM_SIZE
    modifies key
    ensures err == HmacFail <==> !NoneFails(fails, 2 * BlockCount(h.macSize, key.Length))
    ensures err != HmacFail ==>
              err == NoErr && key[..] == PHashSpec(h, master, KEY_EXPANSION + (serverRandom + clientRandom), key.Length)
  {
    hide PHashSpec, BlockCount, A, Stream, NoneFails;
    var seedBuf := Joined(KEY_EXPANSION, serverRandom, clientRandom);
    err := PRF(h, master, NoLabel, seedBuf[..], key, false, fails);
  }

  /** Three parts moved into one buffer. */
  method Joined(a: seq<Byte>, b: seq<Byte>, c: seq<Byte>) returns (buf: array<Byte>)
    ensures fresh(buf) && buf[..] == a + (b + c)
  {
    buf := new Byte[|a| + |b| + |c|](_ => 0);
    CopyInto(buf, 0, a);
    CopyInto(buf, |a|, b);
    assert buf[..|a| + |b|] == a + b;
    CopyInto(buf, |a| + |b|, c);
    assert buf[..] == a + b + c;
  }
}
