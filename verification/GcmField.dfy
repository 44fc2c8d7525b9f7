/**
 Multiplication in GF(2^128) as src/sslGcm.c performs it: a bit-serial loop over
 16-octet arrays. In GCM bit order the most significant bit of octet 0 is the
 coefficient of x^0 (section 6.3 of NIST SP 800-38D), so an octet string denotes
 a polynomial through bit reversal.
 */
module GcmField {
  import opened Gf2Poly
  import opened Bytes

  type Block = b: seq<Byte> | |b| == 16 witness Zeros(16)

  /** x^128 + x^7 + x^2 + x + 1 */
  const P: nat := Pow2(128) + 135

  // ----- octet strings as polynomials -----

  /** The low `n` bits of `x` in reverse order. */
  function Rev(x: nat, n: nat): nat {
    if n == 0 then 0 else Rev(x / 2, n - 1) + Shl(x % 2, n - 1)
  }

  function Poly(b: seq<Byte>): nat {
    if b == [] then 0 else Rev(b[0], 8) + Shl(Poly(b[1..]), 8)
  }

  /** The octet string of length `n` whose polynomial is `p`. */
  function Unpoly(p: nat, n: nat): (b: seq<Byte>)
    ensures |b| == n
    decreases n
  {
    if n == 0 then [] else RevBound(p, 8); [Rev(p, 8)] + Unpoly(Shr(p, 8), n - 1)
  }

  lemma {:induction false} RevBound(x: nat, n: nat)
    ensures Rev(x, n) < Pow2(n)
  {
    if n != 0 {
      RevBound(x / 2, n - 1);
      ShlOne(n - 1);
    }
  }

  lemma {:induction false} RevXor(a: nat, b: nat, n: nat)
    ensures Rev(Xor(a, b), n) == Xor(Rev(a, n), Rev(b, n))
  {
    hide Xor;
    if n == 0 {
      XorZero(0);
    } else {
      XorBit(a / 2, a % 2, b / 2, b % 2);
      RevXor(a / 2, b / 2, n - 1);
      RevXorStep(a / 2, a % 2, b / 2, b % 2, n - 1);
    }
  }

  lemma RevXorStep(a: nat, i: nat, b: nat, j: nat, n: nat)
    requires i < 2 && j < 2 && Rev(Xor(a, b), n) == Xor(Rev(a, n), Rev(b, n))
    ensures Rev(Xor(2 * a + i, 2 * b + j), n + 1) == Xor(Rev(2 * a + i, n + 1), Rev(2 * b + j, n + 1))
  {
    hide Xor, Rev, Shl;
    var k := if i == j then 0 else 1;
    RevBound(a, n);
    RevBound(b, n);
    XorSplit(n, Rev(a, n), Rev(b, n), i, j);
    XorBit(a, i, b, j);
    XorBit(0, i, 0, j);
    XorZero(0);
    RevBit(a, i, n);
    RevBit(b, j, n);
    RevBit(Xor(a, b), k, n);
  }

  lemma RevBit(a: nat, i: nat, n: nat)
    requires i < 2
    ensures Rev(2 * a + i, n + 1) == Rev(a, n) + Shl(i, n)
  {
    Halves(a, i);
    hide Shl;
  }

  /** Adding a bit on top of `y` puts it at the bottom of the reversal. */
  lemma {:induction false} RevTop(y: nat, c: nat, n: nat)
    requires y < Pow2(n) && c < 2
    ensures Rev(y + Shl(c, n), n + 1) == c + 2 * Rev(y, n)
  {
    if n != 0 {
      RevTop(y / 2, c, n - 1);
      assert (y + Shl(c, n)) / 2 == y / 2 + Shl(c, n - 1);
    }
  }

  lemma {:induction false} RevRev(x: nat, n: nat)
    requires x < Pow2(n)
    ensures Rev(Rev(x, n), n) == x
  {
    if n != 0 {
      RevRev(x / 2, n - 1);
      RevBound(x / 2, n - 1);
      RevTop(Rev(x / 2, n - 1), x % 2, n - 1);
    }
  }

  lemma {:induction false} ShlShr(lo: nat, q: nat, n: nat)
    requires lo < Pow2(n)
    ensures Shr(lo + Shl(q, n), n) == q && Rev(lo + Shl(q, n), n) == Rev(lo, n)
  {
    if n != 0 {
      assert (lo + Shl(q, n)) / 2 == lo / 2 + Shl(q, n - 1);
      ShlShr(lo / 2, q, n - 1);
    }
  }

  lemma {:induction false} PolyUnpoly(b: seq<Byte>)
    ensures Unpoly(Poly(b), |b|) == b
  {
    hide Rev, Shr, Shl;
    if b != [] {
      PolyUnpoly(b[1..]);
      RevBound(b[0], 8);
      ShlShr(Rev(b[0], 8), Poly(b[1..]), 8);
      assert Pow2(8) == 256;
      RevRev(b[0], 8);
    }
  }

  /** Splits off the low `n` bits. */
  lemma {:induction false} LowHigh(x: nat, n: nat)
    ensures x == Rev(Rev(x, n), n) + Shl(Shr(x, n), n)
  {
    if n != 0 {
      LowHigh(x / 2, n - 1);
      RevBound(x / 2, n - 1);
      RevTop(Rev(x / 2, n - 1), x % 2, n - 1);
    }
  }

  lemma {:induction false} UnpolyPoly(p: nat, n: nat)
    requires p < Pow2(8 * n)
    ensures Poly(Unpoly(p, n)) == p
    decreases n
  {
    if n != 0 {
      LowHigh(p, 8);
      ShrBound(p, 8, 8 * n - 8);
      UnpolyPoly(Shr(p, 8), n - 1);
      var b := Unpoly(p, n);
      assert b[1..] == Unpoly(Shr(p, 8), n - 1);
    }
  }

  lemma {:induction false} ShrBound(x: nat, k: nat, n: nat)
    requires x < Pow2(k + n)
    ensures Shr(x, k) < Pow2(n)
  {
    if k != 0 {
      ShrBound(x / 2, k - 1, n);
    }
  }

  lemma {:induction false} PolyBound(b: seq<Byte>)
    ensures Poly(b) < Pow2(8 * |b|)
  {
    if b != [] {
      PolyBound(b[1..]);
      RevBound(b[0], 8);
      ShlBound(Poly(b[1..]), 8 * |b| - 8, 8);
    }
  }

  lemma {:induction false} ShlBound(x: nat, n: nat, k: nat)
    requires x < Pow2(n)
    ensures Shl(x, k) + Pow2(k) <= Pow2(n + k)
  {
    if k != 0 {
      ShlBound(x, n, k - 1);
    }
  }

  lemma {:induction false} PolyXor(a: seq<Byte>, b: seq<Byte>)
    requires |a| == |b|
    ensures Poly(XorSeq(a, b)) == Xor(Poly(a), Poly(b))
  {
    hide *;
    if a == [] {
      PolyNil(a);
      PolyNil(XorSeq(a, b));
      XorZero(0);
    } else {
      PolyXor(a[1..], b[1..]);
      XorSeqCons(a, b);
      PolyHead(a);
      PolyHead(b);
      PolyHead(XorSeq(a, b));
      RevXor(a[0], b[0], 8);
      RevBound(a[0], 8);
      RevBound(b[0], 8);
      XorSplit(8, Rev(a[0], 8), Rev(b[0], 8), Poly(a[1..]), Poly(b[1..]));
    }
  }

  lemma PolyNil(b: seq<Byte>)
    requires b == []
    ensures Poly(b) == 0
  {
  }

  lemma XorSeqCons(a: seq<Byte>, b: seq<Byte>)
    requires |a| == |b| > 0
    ensures XorSeq(a, b)[0] == Xor(a[0], b[0]) && XorSeq(a, b)[1..] == XorSeq(a[1..], b[1..])
  {
    hide Xor;
  }

  lemma PolyHead(b: seq<Byte>)
    requires b != []
    ensures Poly(b) == Rev(b[0], 8) + Shl(Poly(b[1..]), 8)
  {
  }

  // ----- the field operations on octet strings -----

  /** The product in GF(2^128): polynomial product, then long division by P. */
  function FieldMul(x: Block, y: Block): Block {
    Unpoly(Rem(Mul(Poly(x), Poly(y)), P, 128), 16)
  }

  /** x^128 + x^7 + x^2 + x + 1 */
  lemma ModulusTerms()
    ensures P == Pow2(128) + Pow2(7) + Pow2(2) + Pow2(1) + Pow2(0)
  {
    assert Pow2(7) == 128;
  }

  lemma ModulusP()
    ensures IsModulus(P, 128) && Pow2(7) == 128
  {
    Pow2Monotone(8, 128);
  }

  lemma FieldMulPoly(x: Block, y: Block)
    ensures Poly(FieldMul(x, y)) == Rem(Mul(Poly(x), Poly(y)), P, 128)
  {
    ModulusP();
    RemBound(Mul(Poly(x), Poly(y)), P, 128);
    UnpolyPoly(Rem(Mul(Poly(x), Poly(y)), P, 128), 16);
  }

  /**
   The product is characterised without the division algorithm: it is the one
   block that differs from the polynomial product by a multiple of P.
   */
  lemma FieldMulMeaning(x: Block, y: Block, z: Block)
    ensures z == FieldMul(x, y) <==> exists q :: Mul(Poly(x), Poly(y)) == Xor(Mul(q, P), Poly(z))
  {
    hide Mul, Xor, Rem, FieldMul;
    var a := Mul(Poly(x), Poly(y));
    FieldMulPoly(x, y);
    DivisionIdentity(a, P, 128);
    forall q | a == Xor(Mul(q, P), Poly(z))
      ensures z == FieldMul(x, y)
    {
      ModulusP();
      PolyBound(z);
      RemainderUnique(a, q, Poly(z), P, 128);
      BlockEq(z, FieldMul(x, y));
    }
  }

  lemma BlockEq(x: Block, y: Block)
    requires Poly(x) == Poly(y)
    ensures x == y
  {
    PolyUnpoly(x);
    PolyUnpoly(y);
  }

  lemma FieldMulComm(x: Block, y: Block)
    ensures FieldMul(x, y) == FieldMul(y, x)
  {
    MulComm(Poly(x), Poly(y));
  }

  lemma FieldMulAssoc(x: Block, y: Block, z: Block)
    ensures FieldMul(FieldMul(x, y), z) == FieldMul(x, FieldMul(y, z))
  {
    hide Rem, Mul, Unpoly, Poly;
    ModulusP();
    var a, b, c := Poly(x), Poly(y), Poly(z);
    FieldMulPoly(x, y);
    FieldMulPoly(y, z);
    MulComm(Rem(Mul(a, b), P, 128), c);
    RemMulRem(c, Mul(a, b), P, 128);
    MulComm(c, Mul(a, b));
    MulAssoc(a, b, c);
    RemMulRem(a, Mul(b, c), P, 128);
  }

  lemma FieldMulXor(x: Block, y: Block, z: Block)
    ensures FieldMul(XorSeq(x, y), z) == XorSeq(FieldMul(x, z), FieldMul(y, z))
  {
    hide Rem, Mul, Unpoly, Poly;
    ModulusP();
    var a, b, c := Poly(x), Poly(y), Poly(z);
    PolyXor(x, y);
    MulXorLeft(a, b, c);
    RemXor(Mul(a, c), Mul(b, c), P, 128);
    FieldMulPoly(x, z);
    FieldMulPoly(y, z);
    FieldMulPoly(XorSeq(x, y), z);
    PolyXor(FieldMul(x, z), FieldMul(y, z));
    BlockEq(FieldMul(XorSeq(x, y), z), XorSeq(FieldMul(x, z), FieldMul(y, z)));
  }

  const ONE: Block := [0x80] + Zeros(15)

  lemma {:induction false} PolyZeros(n: nat)
    ensures Poly(Zeros(n)) == 0
  {
    if n != 0 {
      assert Zeros(n)[1..] == Zeros(n - 1);
      PolyZeros(n - 1);
      ShlOne(8);
      RevXor(0, 0, 8);
      XorSelf(Rev(0, 8));
      XorZero(0);
    }
  }

  lemma FieldMulOne(x: Block)
    ensures FieldMul(ONE, x) == x && FieldMul(x, ONE) == x
  {
    ModulusP();
    assert ONE[1..] == Zeros(15);
    PolyZeros(15);
    ShlOne(8);
    ShlOne(7);
    RevTop(0, 1, 7);
    PolyZeros(1);
    assert Poly(ONE) == 1;
    MulOne(Poly(x));
    PolyBound(x);
    RemSmall(Poly(x), P, 128);
    PolyUnpoly(x);
  }

  lemma FieldMulZero(x: Block)
    ensures FieldMul(Zeros(16), x) == Zeros(16)
  {
    PolyZeros(16);
    PolyUnpoly(Zeros(16));
  }

  // ----- gf_mult -----

  /** Coefficient `i` of a polynomial. */
  function Coef(x: nat, i: nat): nat {
    Shr(x, i) % 2
  }

  /** The part of `x` of degree below `n`. */
  function Low(x: nat, n: nat): nat {
    if n == 0 then 0 else x % 2 + 2 * Low(x / 2, n - 1)
  }

  lemma {:induction false} LowStep(x: nat, n: nat)
    ensures Low(x, n) < Pow2(n)
    ensures Low(x, n + 1) == Low(x, n) + Shl(Coef(x, n), n)
  {
    if n != 0 {
      LowStep(x / 2, n - 1);
    }
  }

  lemma {:induction false} LowAll(x: nat, n: nat)
    requires x < Pow2(n)
    ensures Low(x, n) == x
  {
    if n != 0 {
      LowAll(x / 2, n - 1);
    }
  }

  lemma {:induction false} CoefSplit(lo: nat, q: nat, n: nat, k: nat)
    requires lo < Pow2(n)
    ensures Coef(lo + Shl(q, n), k) == if k < n then Coef(lo, k) else Coef(q, k - n)
    decreases n
  {
    if n != 0 {
      assert (lo + Shl(q, n)) / 2 == lo / 2 + Shl(q, n - 1);
      if k != 0 {
        CoefSplit(lo / 2, q, n - 1, k - 1);
      }
    }
  }

  lemma {:induction false} CoefRev(x: nat, n: nat, k: nat)
    requires k < n
    ensures Coef(Rev(x, n), k) == Coef(x, n - 1 - k)
    decreases n
  {
    RevBound(x / 2, n - 1);
    CoefSplit(Rev(x / 2, n - 1), x % 2, n - 1, k);
    if k < n - 1 {
      CoefRev(x / 2, n - 1, k);
    }
  }

  /** The bit that gf_mult selects for i = 8 k + j is the coefficient of x^i. */
  lemma {:induction false} CoefPoly(b: seq<Byte>, k: nat, j: nat)
    requires k < |b| && j < 8
    ensures Shr(b[k], 7 - j) % 2 == Coef(Poly(b), 8 * k + j)
    decreases k
  {
    hide Rev, Shr, Shl, Coef;
    RevBound(b[0], 8);
    CoefSplit(Rev(b[0], 8), Poly(b[1..]), 8, 8 * k + j);
    if k == 0 {
      CoefRev(b[0], 8, j);
      CoefDef(b[0], 7 - j);
    } else {
      CoefPoly(b[1..], k - 1, j);
    }
  }

  lemma CoefDef(x: nat, i: nat)
    ensures Coef(x, i) == Shr(x, i) % 2
  {
  }

  /** V >> 1 with `c` shifted in at the front. */
  function ShiftBytes(v: seq<Byte>, c: nat): (r: seq<Byte>)
    requires c < 2
    ensures |r| == |v|
  {
    if v == [] then [] else [v[0] / 2 + 128 * c] + ShiftBytes(v[1..], v[0] % 2)
  }

  lemma {:induction false} ShiftBytesAt(v: seq<Byte>, c: nat, j: nat)
    requires c < 2 && j < |v|
    ensures ShiftBytes(v, c)[j] == v[j] / 2 + 128 * (if j == 0 then c else v[j - 1] % 2)
  {
    if j != 0 {
      ShiftBytesAt(v[1..], v[0] % 2, j - 1);
    }
  }

  function LastBit(v: seq<Byte>, c: nat): nat {
    if v == [] then c else v[|v| - 1] % 2
  }

  lemma RevShift(x: Byte, c: nat)
    requires c < 2
    ensures Rev(x / 2 + 128 * c, 8) + 256 * (x % 2) == c + 2 * Rev(x, 8)
  {
    hide Rev, Shl, Pow2;
    ShlSmall(c);
    ShlSmall(x % 2);
    ModulusP();
    RevTop(x / 2, c, 7);
    RevBit(x / 2, x % 2, 7);
  }

  /** Shifting multiplies by x; the bit shifted out is the coefficient of x^(8 |v|). */
  lemma {:induction false} ShiftPoly(v: seq<Byte>, c: nat)
    requires c < 2
    ensures Poly(ShiftBytes(v, c)) + Shl(LastBit(v, c), 8 * |v|) == 2 * Poly(v) + c
  {
    hide Rev, Shl;
    if v == [] {
      ShlZero(c);
    } else {
      var t, w, b := v[1..], ShiftBytes(v, c), v[0] % 2;
      ShiftPoly(t, b);
      assert w[0] == v[0] / 2 + 128 * c && w[1..] == ShiftBytes(t, b);
      assert LastBit(v, c) == LastBit(t, b);
      PolyCons(v);
      PolyCons(w);
      RevShift(v[0], c);
      ShlShl(LastBit(t, b), 8 * |t|, 8);
      ShlSmall(Shl(LastBit(t, b), 8 * |t|));
    }
  }

  lemma ShlZero(x: nat)
    ensures Shl(x, 0) == x
  {
  }

  lemma PolyCons(b: seq<Byte>)
    requires b != []
    ensures Poly(b) == Rev(b[0], 8) + 256 * Poly(b[1..])
  {
    ShlSmall(Poly(b[1..]));
  }

  /** One round of the loop on V: shift, then add R if a bit fell out. */
  function TimesX(v: Block): Block {
    var w := ShiftBytes(v, 0);
    if v[15] % 2 == 1 then w[0 := XorByte(w[0], 0xe1)] else w
  }

  lemma TimesXPoly(v: Block)
    ensures Poly(TimesX(v)) == Rem(2 * Poly(v), P, 128)
  {
    hide Poly, Rem, Xor, Reduce, ShiftBytes, Shl, Pow2;
    var w, c := ShiftBytes(v, 0), LastBit(v, 0);
    ShiftPoly(v, 0);
    PolyBound(v);
    PolyBound(w);
    RemBit(Poly(v), 0, P, 128);
    RemSmall(Poly(v), P, 128);
    ReduceTop(Poly(w), c);
    AddR(w);
  }

  lemma ReduceTop(w: nat, c: nat)
    requires w < Pow2(128) && c < 2
    ensures Reduce(w + Shl(c, 128), P, 128) == if c == 1 then Xor(w, 135) else w
  {
    hide Xor, Pow2, Shl;
    ShlOne(128);
    if c == 1 {
      RevE1();
      XorSplit(128, w, 135, 1, 1);
      XorSelf(1);
    }
  }

  lemma AddR(w: Block)
    ensures Poly(w[0 := XorByte(w[0], 0xe1)]) == Xor(Poly(w), 135)
  {
    hide Poly, Xor, Rev;
    var u := w[0 := XorByte(w[0], 0xe1)];
    RevE1();
    PolyCons(w);
    PolyCons(u);
    assert u[1..] == w[1..];
    RevXor(w[0], 0xe1, 8);
    RevBound(w[0], 8);
    ShlSmall(Poly(w[1..]));
    ShlSmall(0);
    XorSplit(8, Rev(w[0], 8), 135, Poly(w[1..]), 0);
    XorZero(Poly(w[1..]));
  }

  /** R = 0xe1 || 0^120 stands for 1 + x + x^2 + x^7. */
  lemma RevE1()
    ensures Rev(0xe1, 8) == 135 && 135 < Pow2(8) && 135 < Pow2(128)
  {
    ModulusP();
    Pow2Monotone(8, 128);
    assert Rev(0x70, 7) == 7;
  }

  /** xor_block: writes 16 octets at `dst + off`; `dst` may be `a`. */
  method XorBlock(dst: array<Byte>, off: nat, a: array<Byte>, b: seq<Byte>)
    requires off + 16 <= dst.Length && a.Length == |b| == 16
    requires dst == a ==> off == 0
    modifies dst
    ensures dst[..] == old(dst[..off]) + XorSeq(old(a[..]), b) + old(dst[off + 16..])
  {
    for i := 0 to 16
      invariant forall k :: 0 <= k < i ==> dst[off + k] == XorByte(old(a[k]), b[k])
      invariant forall k :: i <= k < 16 ==> a[k] == old(a[k])
      invariant forall k :: 0 <= k < dst.Length && !(off <= k < off + i) ==> dst[k] == old(dst[k])
    {
      dst[off + i] := XorByte(a[i], b[i]);
    }
    assert dst[off..off + 16] == XorSeq(old(a[..]), b);
    assert dst[..] == dst[..off] + dst[off..off + 16] + dst[off + 16..];
  }

  method MulByX(V: array<Byte>)
    requires V.Length == 16
    modifies V
    ensures V[..] == TimesX(old(V[..]))
  {
    var lsb := V[15] % 2;
    ghost var w := ShiftBytes(V[..], 0);
    forall j | 0 <= j < 16
      ensures w[j] == V[j] / 2 + 128 * (if j == 0 then 0 else V[j - 1] % 2)
    {
      ShiftBytesAt(V[..], 0, j);
    }
    var j := 15;
    while j > 0
      invariant 0 <= j <= 15
      invariant forall k :: 0 <= k <= j ==> V[k] == old(V[k])
      invariant forall k :: j < k < 16 ==> V[k] == w[k]
    {
      V[j] := V[j] / 2 + 128 * (V[j - 1] % 2);
      j := j - 1;
    }
    V[0] := V[0] / 2;
    assert V[..] == w;
    if lsb == 1 {
      V[0] := XorByte(V[0], 0xe1);
    }
  }

  /** gf_mult; `out` may be `X` or `Y`. */
  method GfMult(X: array<Byte>, Y: array<Byte>, out: array<Byte>)
    requires X.Length == Y.Length == out.Length == 16
    modifies out
    ensures out[..] == FieldMul(old(X[..]), old(Y[..]))
  {
    hide Poly, Rem, Mul, Low, FieldMul, TimesX, Pow2, Shr;
    var Z := new Byte[16](_ => 0);
    var V := new Byte[16](i requires 0 <= i < 16 reads Y => Y[i]);
    ghost var x: Block, y: Block := X[..], Y[..];
    ProductStart(x, y);
    assert V[..] == y && Z[..] == Zeros(16);
    for i := 0 to 128
      invariant X[..] == x
      invariant Poly(V[..]) == Rem(Mul(Pow2(i), Poly(y)), P, 128)
      invariant Poly(Z[..]) == Rem(Mul(Low(Poly(x), i), Poly(y)), P, 128)
    {
      ghost var v: Block, z: Block := V[..], Z[..];
      var byte, bit := i / 8, 7 - i % 8;
      CoefPoly(x, byte, i % 8);
      ProductStep(x, y, i, v, z);
      if Shr(X[byte], bit) % 2 == 1 {
        XorBlock(Z, 0, Z, V[..]);
        assert Z[..] == XorSeq(z, v);
      }
      MulByX(V);
    }
    ProductEnd(x, y, Z[..]);
    forall i | 0 <= i < 16 {
      out[i] := Z[i];
    }
    assert out[..] == Z[..];
  }

  lemma ProductStart(x: Block, y: Block)
    ensures Poly(y) == Rem(Mul(Pow2(0), Poly(y)), P, 128)
    ensures Poly(Zeros(16)) == Rem(Mul(Low(Poly(x), 0), Poly(y)), P, 128)
  {
    MulOne(Poly(y));
    PolyBound(y);
    RemSmall(Poly(y), P, 128);
    PolyZeros(16);
  }

  /** One round keeps V = x^i y and Z = (terms of X below x^i) y, modulo P. */
  lemma ProductStep(x: Block, y: Block, i: nat, v: Block, z: Block)
    requires Poly(v) == Rem(Mul(Pow2(i), Poly(y)), P, 128)
    requires Poly(z) == Rem(Mul(Low(Poly(x), i), Poly(y)), P, 128)
    ensures Poly(TimesX(v)) == Rem(Mul(Pow2(i + 1), Poly(y)), P, 128)
    ensures Poly(if Coef(Poly(x), i) == 1 then XorSeq(z, v) else z)
         == Rem(Mul(Low(Poly(x), i + 1), Poly(y)), P, 128)
  {
    hide Poly, Rem, Xor, Mul, Coef, TimesX;
    ModulusP();
    var a, b := Low(Poly(x), i), Poly(y);
    TimesXPoly(v);
    RemTwice(Mul(Pow2(i), b));
    MulDoubleLeft(Pow2(i), b);
    LowStep(Poly(x), i);
    ShlOne(i);
    CoefDef(Poly(x), i);
    if Coef(Poly(x), i) == 1 {
      PolyXor(z, v);
      ShlOne(0);
      XorSplit(i, a, 0, 0, 1);
      XorZero(a);
      XorZero(1);
      MulXorLeft(a, Pow2(i), b);
      RemXor(Mul(a, b), Mul(Pow2(i), b), P, 128);
    }
  }

  lemma RemTwice(a: nat)
    ensures Rem(2 * Rem(a, P, 128), P, 128) == Rem(2 * a, P, 128)
  {
    hide Rem, Mul, Reduce;
    ModulusP();
    RemBound(a, P, 128);
    RemSmall(Rem(a, P, 128), P, 128);
    RemBit(a, 0, P, 128);
    RemBit(Rem(a, P, 128), 0, P, 128);
  }

  lemma ProductEnd(x: Block, y: Block, z: Block)
    requires Poly(z) == Rem(Mul(Low(Poly(x), 128), Poly(y)), P, 128)
    ensures z == FieldMul(x, y)
  {
    PolyBound(x);
    LowAll(Poly(x), 128);
    FieldMulPoly(x, y);
    BlockEq(z, FieldMul(x, y));
  }
}
