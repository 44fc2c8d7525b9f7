/** GHASH as src/sslGcm.c computes it, and section 6.4 of NIST SP 800-38D. */
module Ghash {
  import opened Gf2Poly
  import opened Bytes
  import opened GcmField

  /** Zero-padding to a whole number of blocks. */
  function Pad16(s: seq<Byte>): (r: seq<Byte>)
    ensures |r| % 16 == 0
  {
    s + Zeros((16 - |s| % 16) % 16)
  }

  lemma AlignedSum(m: nat, n: nat)
    requires m % 16 == 0 && n % 16 == 0
    ensures (m + n) % 16 == 0
  {
  }

  /** What is left of whole blocks after the first are whole blocks. */
  lemma WithoutBlock(data: seq<Byte>)
    requires |data| % 16 == 0 && data != []
    ensures |data| >= 16 && |data[16..]| % 16 == 0
  {
  }

  /** The running hash after absorbing whole blocks. */
  function Absorb(h: Block, y: Block, data: seq<Byte>): Block
    requires |data| % 16 == 0
    decreases |data|
  {
    if data == [] then y
    else
      WithoutBlock(data);
      Absorb(h, AbsorbOne(h, y, data[..16]), data[16..])
  }

  function AbsorbOne(h: Block, y: Block, block: Block): Block {
    FieldMul(XorSeq(y, block), h)
  }

  /** Bit lengths of both parts, 64 bits each; lengths are computed modulo 2^64. */
  function LenBlock(aadLen: nat, ctLen: nat): Block {
    BigEndian(aadLen * 8 % TWO64, 8) + BigEndian(ctLen * 8 % TWO64, 8)
  }

  /** What GHASH is applied to: padded AAD, padded ciphertext, length block. */
  function HashInput(aad: seq<Byte>, ct: seq<Byte>): (r: seq<Byte>)
    ensures |r| % 16 == 0
  {
    AlignedSum(|Pad16(aad)|, |Pad16(ct)|);
    AlignedSum(|Pad16(aad)| + |Pad16(ct)|, 16);
    Pad16(aad) + Pad16(ct) + LenBlock(|aad|, |ct|)
  }

  function HashSpec(h: Block, aad: seq<Byte>, ct: seq<Byte>): Block {
    Absorb(h, Zeros(16), HashInput(aad, ct))
  }

  lemma {:induction false} AbsorbConcat(h: Block, y: Block, a: seq<Byte>, b: seq<Byte>)
    requires |a| % 16 == 0 && |b| % 16 == 0
    ensures Absorb(h, y, a + b) == Absorb(h, Absorb(h, y, a), b)
    decreases |a|
  {
    hide FieldMul;
    if a == [] {
      assert a + b == b;
    } else {
      assert (a + b)[..16] == a[..16] && (a + b)[16..] == a[16..] + b;
      AbsorbConcat(h, FieldMul(XorSeq(y, a[..16]), h), a[16..], b);
    }
  }

  // ----- the closed form -----

  function Power(h: Block, k: nat): Block {
    if k == 0 then ONE else FieldMul(Power(h, k - 1), h)
  }

  function PowerTerm(h: Block, b: Block, k: nat): Block {
    FieldMul(b, Power(h, k))
  }

  /** The sum of block_i * H^(m - i) over the m blocks i = 0 .. m - 1. */
  function PowerSum(h: Block, data: seq<Byte>): Block
    requires |data| % 16 == 0
    decreases |data|
  {
    if data == [] then Zeros(16)
    else
      var rest := PowerSum(h, data[16..]);
      XorSeq(PowerTerm(h, data[..16], |data| / 16), rest)
  }

  /** GHASH is the polynomial in H whose coefficients are the input blocks. */
  lemma {:induction false} AbsorbIsPowerSum(h: Block, y: Block, data: seq<Byte>)
    requires |data| % 16 == 0
    ensures Absorb(h, y, data) == XorSeq(FieldMul(y, Power(h, |data| / 16)), PowerSum(h, data))
    decreases |data|
  {
    hide FieldMul, ONE;
    var m := |data| / 16;
    if data == [] {
      FieldMulOne(y);
      XorSeqZeros(y);
    } else {
      var b: Block, y': Block := data[..16], XorSeq(y, data[..16]);
      AbsorbIsPowerSum(h, FieldMul(y', h), data[16..]);
      FieldMulAssoc(y', h, Power(h, m - 1));
      FieldMulComm(h, Power(h, m - 1));
      FieldMulXor(y, b, Power(h, m));
      XorSeqAssoc(FieldMul(y, Power(h, m)), FieldMul(b, Power(h, m)), PowerSum(h, data[16..]));
    }
  }

  lemma XorSeqZeros(a: seq<Byte>)
    ensures XorSeq(a, Zeros(|a|)) == a && XorSeq(Zeros(|a|), a) == a
  {
    forall i | 0 <= i < |a|
      ensures XorByte(a[i], 0) == a[i] && XorByte(0, a[i]) == a[i]
    {
      XorZero(a[i]);
    }
  }

  lemma XorSeqAssoc(a: seq<Byte>, b: seq<Byte>, c: seq<Byte>)
    requires |a| == |b| == |c|
    ensures XorSeq(XorSeq(a, b), c) == XorSeq(a, XorSeq(b, c))
  {
    forall i | 0 <= i < |a|
      ensures XorByte(XorByte(a[i], b[i]), c[i]) == XorByte(a[i], XorByte(b[i], c[i]))
    {
      XorAssoc(a[i], b[i], c[i]);
    }
  }

  /** GHASH is that polynomial of the padded AAD, the padded ciphertext and the length block, in this order. */
  lemma HashSpecClosedForm(h: Block, aad: seq<Byte>, ct: seq<Byte>)
    ensures |Pad16(aad) + Pad16(ct) + LenBlock(|aad|, |ct|)| % 16 == 0
    ensures HashSpec(h, aad, ct) == PowerSum(h, Pad16(aad) + Pad16(ct) + LenBlock(|aad|, |ct|))
  {
    hide Pad16, LenBlock;
    var data := HashInput(aad, ct);
    AbsorbIsPowerSum(h, Zeros(16), data);
    FieldMulZero(Power(h, |data| / 16));
    XorSeqZeros(PowerSum(h, data));
  }

  // ----- where everything lies -----

  /** The padding is zeros, and fewer than a block. */
  lemma PadMeans(s: seq<Byte>)
    ensures |Pad16(s)| % 16 == 0 && |s| <= |Pad16(s)| < |s| + 16
    ensures Pad16(s)[..|s|] == s && forall k :: |s| <= k < |Pad16(s)| ==> Pad16(s)[k] == 0
  {
  }

  /** The AAD's bit length comes first, the ciphertext's second. */
  lemma LenBlockFields(aadLen: nat, ctLen: nat)
    ensures FromBigEndian(LenBlock(aadLen, ctLen)[..8]) == aadLen * 8 % TWO64
    ensures FromBigEndian(LenBlock(aadLen, ctLen)[8..]) == ctLen * 8 % TWO64
  {
    assert Pow256(8) == TWO64;
    hide Pow256, BigEndian, FromBigEndian;
    var a, c := aadLen * 8 % TWO64, ctLen * 8 % TWO64;
    assert LenBlock(aadLen, ctLen)[..8] == BigEndian(a, 8) && LenBlock(aadLen, ctLen)[8..] == BigEndian(c, 8);
    BigEndianRoundTrip(a, 8);
    BigEndianRoundTrip(c, 8);
  }

  /** With the identity as hash key nothing moves, and zeros leave only the lengths. */
  lemma HashOfZeros(a: nat, c: nat)
    ensures HashSpec(ONE, Zeros(a), Zeros(c)) == BigEndian(8 * a % TWO64, 8) + BigEndian(8 * c % TWO64, 8)
  {
    hide *;
    PaddedZeros(a);
    PaddedZeros(c);
    HashSpecSteps(ONE, Zeros(a), Zeros(c));
    AbsorbZeros(Zeros(16), |Pad16(Zeros(a))|);
    AbsorbZeros(Zeros(16), |Pad16(Zeros(c))|);
    LenBlockIs(a, c);
    XorSeqZeros(LenBlock(a, c));
    FieldMulOne(LenBlock(a, c));
  }

  lemma LenBlockIs(a: nat, c: nat)
    ensures LenBlock(a, c) == BigEndian(8 * a % TWO64, 8) + BigEndian(8 * c % TWO64, 8)
  {
    hide BigEndian;
  }

  lemma PaddedZeros(a: nat)
    ensures Pad16(Zeros(a)) == Zeros(|Pad16(Zeros(a))|)
  {
    PadMeans(Zeros(a));
  }

  lemma {:induction false} AbsorbZeros(y: Block, n: nat)
    requires n % 16 == 0
    ensures Absorb(ONE, y, Zeros(n)) == y
    decreases n
  {
    hide FieldMul, ONE;
    if n == 0 {
      AbsorbNone(ONE, y, Zeros(n));
    } else {
      assert Zeros(n) == Zeros(16) + Zeros(n - 16);
      AbsorbStep(ONE, y, Zeros(16), Zeros(n - 16));
      XorSeqZeros(y);
      FieldMulOne(y);
      AbsorbZeros(y, n - 16);
    }
  }

  /** One block of each: ((aad H + ct) H + lengths) H. */
  lemma HashOfOneEach(h: Block, aad: Block, ct: Block)
    ensures HashSpec(h, aad, ct)
         == FieldMul(XorSeq(FieldMul(XorSeq(FieldMul(aad, h), ct), h), LenBlock(16, 16)), h)
  {
    hide FieldMul, Absorb, XorSeq, LenBlock;
    HashSpecSteps(h, aad, ct);
    PadMeans(aad);
    PadMeans(ct);
    assert Pad16(aad) == aad == aad + [] && Pad16(ct) == ct == ct + [];
    AbsorbStep(h, Zeros(16), aad, []);
    XorSeqZeros(aad);
    AbsorbNone(h, FieldMul(aad, h), []);
    AbsorbStep(h, FieldMul(aad, h), ct, []);
    AbsorbNone(h, FieldMul(XorSeq(FieldMul(aad, h), ct), h), []);
  }

  // ----- the code -----

  /** One round of ghash_update on the array `Y`. */
  method AbsorbBlock(Y: array<Byte>, H: array<Byte>, block: seq<Byte>)
    requires Y.Length == H.Length == |block| == 16 && Y != H
    modifies Y
    ensures Y[..] == FieldMul(XorSeq(old(Y[..]), block), H[..])
  {
    XorBlock(Y, 0, Y, block);
    assert Y[..] == XorSeq(old(Y[..]), block);
    GfMult(Y, H, Y);
  }

  /** ghash_update */
  method GhashUpdate(Y: array<Byte>, H: array<Byte>, data: seq<Byte>)
    requires Y.Length == H.Length == 16 && Y != H
    modifies Y
    ensures Y[..] == Absorb(H[..], old(Y[..]), Pad16(data))
  {
    hide FieldMul, XorSeq, Absorb, Pad16;
    ghost var h, all, n := H[..], Pad16(data), 0;
    ghost var blocks := |all| / 16;
    PadParts(data);
    var i := 0;
    while i + 16 <= |data|
      invariant i == 16 * n && i <= |data|
      invariant H[..] == h && |all[i..]| % 16 == 0
      invariant Absorb(h, Y[..], all[i..]) == Absorb(h, old(Y[..]), all)
    {
      Quotient(|all| - i - 16, 16, blocks - n - 1, 0);
      var block := data[i..i + 16];
      assert all[i..] == block + all[i + 16..];
      AbsorbStep(h, Y[..], block, all[i + 16..]);
      AbsorbBlock(Y, H, block);
      i, n := i + 16, n + 1;
    }
    if i < |data| {
      LastBlock(data, i, n);
      var block := data[i..] + Zeros(16 - (|data| - i));
      AbsorbStep(h, Y[..], block, []);
      AbsorbBlock(Y, H, block);
    } else {
      assert all[i..] == [];
    }
    AbsorbNone(h, Y[..], []);
  }

  /** The padding completes the last block. */
  lemma LastBlock(data: seq<Byte>, i: nat, n: nat)
    requires i == 16 * n < |data| < i + 16
    ensures Pad16(data)[i..] == data[i..] + Zeros(16 - (|data| - i)) + []
  {
    Quotient(|data|, 16, n, |data| - i);
  }

  lemma PadParts(data: seq<Byte>)
    ensures |Pad16(data)| % 16 == 0 && |data| <= |Pad16(data)| < |data| + 16 && Pad16(data)[..|data|] == data
  {
  }

  lemma AbsorbStep(h: Block, y: Block, block: Block, rest: seq<Byte>)
    requires |rest| % 16 == 0 && |block + rest| % 16 == 0
    ensures Absorb(h, y, block + rest) == Absorb(h, AbsorbOne(h, y, block), rest)
  {
    hide AbsorbOne;
    assert (block + rest)[..16] == block && (block + rest)[16..] == rest;
  }

  lemma AbsorbNone(h: Block, y: Block, data: seq<Byte>)
    requires data == []
    ensures Absorb(h, y, data) == y
  {
  }

  /** len_block */
  method BuildLenBlock(aadLen: nat, ctLen: nat) returns (out: array<Byte>)
    ensures fresh(out) && out.Length == 16 && out[..] == LenBlock(aadLen, ctLen)
  {
    hide BigEndian;
    out := new Byte[16](_ => 0);
    var aBits, cBits := aadLen * 8 % TWO64, ctLen * 8 % TWO64;
    PutUInt64(out, 0, aBits);
    PutUInt64(out, 8, cBits);
  }

  /** ghash_full */
  method GhashFull(H: array<Byte>, aad: seq<Byte>, ct: seq<Byte>) returns (S: array<Byte>)
    requires H.Length == 16
    ensures fresh(S) && S.Length == 16
    ensures S[..] == HashSpec(H[..], aad, ct)
  {
    hide *;
    S := new Byte[16](_ => 0);
    assert S[..] == Zeros(16) by {
      ZerosAt(16);
    }
    GhashUpdate(S, H, aad);
    GhashUpdate(S, H, ct);
    var lb := BuildLenBlock(|aad|, |ct|);
    AbsorbBlock(S, H, lb[..]);
    HashSpecSteps(H[..], aad, ct);
  }

  lemma ZerosAt(n: nat)
    ensures forall i :: 0 <= i < n ==> Zeros(n)[i] == 0
  {
  }

  /** The three parts of the input absorbed one after the other. */
  lemma HashSpecSteps(h: Block, aad: seq<Byte>, ct: seq<Byte>)
    ensures var y := Absorb(h, Absorb(h, Zeros(16), Pad16(aad)), Pad16(ct));
            HashSpec(h, aad, ct) == FieldMul(XorSeq(y, LenBlock(|aad|, |ct|)), h)
  {
    hide FieldMul, LenBlock, Pad16, XorSeq;
    var lb, y := LenBlock(|aad|, |ct|), Absorb(h, Zeros(16), Pad16(aad) + Pad16(ct));
    AlignedSum(|Pad16(aad)|, |Pad16(ct)|);
    AbsorbConcat(h, Zeros(16), Pad16(aad), Pad16(ct));
    AbsorbConcat(h, Zeros(16), Pad16(aad) + Pad16(ct), lb);
    assert lb[..16] == lb && lb[16..] == [];
    assert Absorb(h, y, lb) == Absorb(h, FieldMul(XorSeq(y, lb), h), []);
  }
}
