/** Octets, exclusive or on octet strings, and big-endian integers. */
module Bytes {
  import opened Gf2Poly

  type Byte = x: int | 0 <= x < 256

  const TWO32: nat := 0x1_0000_0000
  const TWO64: nat := 0x1_0000_0000_0000_0000

  /** The C operator >> on an unsigned value. */
  function Shr(x: nat, n: nat): nat {
    if n == 0 then x else Shr(x / 2, n - 1)
  }

  function XorByte(a: Byte, b: Byte): Byte {
    XorBound(8, a, b);
    Xor(a, b)
  }

  function XorSeq(a: seq<Byte>, b: seq<Byte>): (r: seq<Byte>)
    requires |a| == |b|
    ensures |r| == |a|
  {
    seq(|a|, i requires 0 <= i < |a| => XorByte(a[i], b[i]))
  }

  lemma XorByteCancel(a: Byte, b: Byte)
    ensures XorByte(XorByte(a, b), b) == a
  {
    XorCancel(a, b);
  }

  function Zeros(n: nat): (r: seq<Byte>)
    ensures |r| == n
  {
    seq(n, _ => 0)
  }

  // ----- big-endian integers -----

  function Pow256(k: nat): (r: nat)
    ensures r > 0
  {
    if k == 0 then 1 else 256 * Pow256(k - 1)
  }

  /** The low `k` octets of `n`, most significant first. */
  function BigEndian(n: nat, k: nat): (r: seq<Byte>)
    ensures |r| == k
  {
    if k == 0 then [] else BigEndian(n / 256, k - 1) + [n % 256]
  }

  function FromBigEndian(s: seq<Byte>): nat {
    if s == [] then 0 else 256 * FromBigEndian(s[..|s| - 1]) + s[|s| - 1]
  }

  lemma {:induction false} BigEndianRoundTrip(n: nat, k: nat)
    requires n < Pow256(k)
    ensures FromBigEndian(BigEndian(n, k)) == n
  {
    hide *;
    if k == 0 {
      NoOctets(n);
    } else {
      HighPart(n, k);
      BigEndianRoundTrip(n / 256, k - 1);
      LastOctet(n, k);
    }
  }

  lemma NoOctets(n: nat)
    requires n < Pow256(0)
    ensures FromBigEndian(BigEndian(n, 0)) == n
  {
  }

  lemma HighPart(n: nat, k: nat)
    requires k > 0 && n < Pow256(k)
    ensures n / 256 < Pow256(k - 1)
  {
  }

  lemma LastOctet(n: nat, k: nat)
    requires k > 0 && FromBigEndian(BigEndian(n / 256, k - 1)) == n / 256
    ensures FromBigEndian(BigEndian(n, k)) == n
  {
    var high := BigEndian(n / 256, k - 1);
    assert (high + [n % 256])[..k - 1] == high;
  }

  lemma {:induction false} FromBigEndianRoundTrip(s: seq<Byte>)
    ensures FromBigEndian(s) < Pow256(|s|)
    ensures BigEndian(FromBigEndian(s), |s|) == s
  {
    if s != [] {
      FromBigEndianRoundTrip(s[..|s| - 1]);
      assert s == s[..|s| - 1] + [s[|s| - 1]];
    }
  }

  lemma BigEndianInjective(m: nat, n: nat, k: nat)
    requires m < Pow256(k) && n < Pow256(k)
    requires BigEndian(m, k) == BigEndian(n, k)
    ensures m == n
  {
    BigEndianRoundTrip(m, k);
    BigEndianRoundTrip(n, k);
  }

  lemma {:induction false} BigEndianAt(n: nat, k: nat, i: nat)
    requires i < k
    ensures BigEndian(n, k)[k - 1 - i] == n / Pow256(i) % 256
  {
    if i > 0 {
      BigEndianAt(n / 256, k - 1, i - 1);
      DivDiv(n, Pow256(i - 1));
    }
  }

  lemma DivDiv(n: nat, p: nat)
    requires p > 0
    ensures n / 256 / p == n / (256 * p)
  {
    var q, r := n / 256 / p, n / 256 % p;
    assert n / 256 == p * q + r;
    assert n == 256 * (p * q) + 256 * r + n % 256;
    assert 256 * (p * q) == (256 * p) * q;
    Quotient(n, 256 * p, q, 256 * r + n % 256);
  }

  lemma Quotient(n: nat, d: nat, q: nat, r: nat)
    requires r < d && n == d * q + r
    ensures n / d == q && n % d == r
  {
    var e := n / d - q;
    assert d * e == r - n % d;
    MultipleGrows(d, e);
  }

  lemma AddAfterMod(x: nat, y: nat, d: nat)
    requires d > 0
    ensures (x % d + y) % d == (x + y) % d
  {
    var z := x % d + y;
    DivMod(x, d);
    DivMod(z, d);
    Distribute(d, x / d, z / d);
    Quotient(x + y, d, x / d + z / d, z % d);
  }

  lemma DivMod(x: nat, d: nat)
    requires d > 0
    ensures x == d * (x / d) + x % d && x / d >= 0 && x % d < d
  {
  }

  lemma Distribute(d: nat, p: nat, q: nat)
    ensures d * p + d * q == d * (p + q)
  {
  }

  lemma MultipleGrows(b: int, d: int)
    requires 0 < b
    ensures d >= 1 ==> b * d >= b
    ensures d <= -1 ==> b * d <= -b
  {
  }

  /** The eight octets of a 64-bit number, written from the last to the first. */
  method PutUInt64(dst: array<Byte>, off: nat, n: nat)
    requires off + 8 <= dst.Length
    modifies dst
    ensures dst[..] == old(dst[..off]) + BigEndian(n, 8) + old(dst[off + 8..])
  {
    hide BigEndian;
    ghost var b := BigEndian(n, 8);
    var p := 1;
    for i := 0 to 8
      invariant p == Pow256(i)
      invariant forall k :: off + 8 - i <= k < off + 8 ==> dst[k] == b[k - off]
      invariant forall k :: 0 <= k < dst.Length && !(off + 8 - i <= k < off + 8) ==> dst[k] == old(dst[k])
    {
      dst[off + 7 - i] := n / p % 256;
      BigEndianAt(n, 8, i);
      p := p * 256;
    }
  }

  /** memcpy of `bytes` to `dst + off`. */
  method CopyInto(dst: array<Byte>, off: nat, bytes: seq<Byte>)
    requires off + |bytes| <= dst.Length
    modifies dst
    ensures dst[..] == old(dst[..off]) + bytes + old(dst[off + |bytes|..])
  {
    for i := 0 to |bytes|
      invariant forall k :: off <= k < off + i ==> dst[k] == bytes[k - off]
      invariant forall k :: 0 <= k < dst.Length && !(off <= k < off + i) ==> dst[k] == old(dst[k])
    {
      dst[off + i] := bytes[i];
    }
  }
}
