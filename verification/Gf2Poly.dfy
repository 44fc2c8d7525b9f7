/**
 The ring GF(2)[x] of polynomials over two elements. A polynomial is a natural
 number: bit i is the coefficient of x^i. Addition is bitwise exclusive or,
 multiplication is carry-less, and `Rem` is long division by a fixed modulus.

 GHASH (src/sslGcm.c) and CRC-64 (Security-55471/authd/crc.h) both compute in
 quotients of this ring, with opposite bit orders.
 */
module Gf2Poly {

  function Pow2(n: nat): (r: nat)
    ensures r > 0
  {
    if n == 0 then 1 else 2 * Pow2(n - 1)
  }

  /** `s` times x^n. */
  function Shl(s: nat, n: nat): nat {
    if n == 0 then s else 2 * Shl(s, n - 1)
  }

  // ----- addition -----

  function Xor(a: nat, b: nat): nat
    decreases a + b
  {
    if a == 0 && b == 0 then 0
    else 2 * Xor(a / 2, b / 2) + (if a % 2 == b % 2 then 0 else 1)
  }

  lemma {:induction false} XorZero(a: nat)
    ensures Xor(a, 0) == a && Xor(0, a) == a
  {
    if a != 0 {
      XorZero(a / 2);
    }
  }

  lemma {:induction false} XorSelf(a: nat)
    ensures Xor(a, a) == 0
  {
    if a != 0 {
      XorSelf(a / 2);
    }
  }

  lemma {:induction false} XorComm(a: nat, b: nat)
    ensures Xor(a, b) == Xor(b, a)
    decreases a + b
  {
    if a != 0 || b != 0 {
      XorComm(a / 2, b / 2);
    }
  }

  /** The low bit and the rest of a number written out. */
  lemma Halves(a: nat, i: nat)
    requires i < 2
    ensures (2 * a + i) / 2 == a && (2 * a + i) % 2 == i
  {
  }

  /** The defining equation, on explicit low bits; it also holds at zero. */
  lemma XorBit(a: nat, i: nat, b: nat, j: nat)
    requires i < 2 && j < 2
    ensures Xor(2 * a + i, 2 * b + j) == 2 * Xor(a, b) + (if i == j then 0 else 1)
  {
    Halves(a, i);
    Halves(b, j);
  }

  lemma {:induction false} XorAssoc(a: nat, b: nat, c: nat)
    ensures Xor(Xor(a, b), c) == Xor(a, Xor(b, c))
    decreases a + b + c
  {
    hide Xor;
    if a == 0 {
      XorZero(b);
      XorZero(Xor(b, c));
    } else {
      var a', i, b', j, c', k := a / 2, a % 2, b / 2, b % 2, c / 2, c % 2;
      XorAssoc(a', b', c');
      XorBit(a', i, b', j);
      XorBit(b', j, c', k);
      XorBit(Xor(a', b'), if i == j then 0 else 1, c', k);
      XorBit(a', i, Xor(b', c'), if j == k then 0 else 1);
    }
  }

  lemma XorDouble(a: nat, b: nat)
    ensures Xor(2 * a, 2 * b) == 2 * Xor(a, b)
  {
    XorBit(a, 0, b, 0);
  }

  /** Exchanges the middle two of four summands. */
  lemma XorSwap(a: nat, b: nat, c: nat, d: nat)
    ensures Xor(Xor(a, b), Xor(c, d)) == Xor(Xor(a, c), Xor(b, d))
  {
    XorAssoc(a, b, Xor(c, d));
    XorAssoc(b, c, d);
    XorComm(b, c);
    XorAssoc(c, b, d);
    XorAssoc(a, c, Xor(b, d));
  }

  lemma XorCancel(a: nat, b: nat)
    ensures Xor(Xor(a, b), b) == a
  {
    XorAssoc(a, b, b);
    XorSelf(b);
    XorZero(a);
  }

  lemma AddBit(a: nat, i: nat)
    requires i < 2
    ensures Xor(2 * a, i) == 2 * a + i && Xor(i, 2 * a) == 2 * a + i
  {
    XorBit(a, 0, 0, i);
    XorBit(0, i, a, 0);
    XorZero(a);
  }

  /** Low and high parts add independently. */
  lemma {:induction false} XorSplit(n: nat, a: nat, b: nat, s: nat, t: nat)
    requires a < Pow2(n) && b < Pow2(n)
    ensures Xor(a + Shl(s, n), b + Shl(t, n)) == Xor(a, b) + Shl(Xor(s, t), n)
  {
    hide Xor;
    if n == 0 {
      XorZero(0);
    } else {
      XorSplit(n - 1, a / 2, b / 2, s, t);
      XorSplitStep(n - 1, a / 2, a % 2, b / 2, b % 2, s, t);
    }
  }

  lemma XorSplitStep(n: nat, a: nat, i: nat, b: nat, j: nat, s: nat, t: nat)
    requires i < 2 && j < 2
    requires Xor(a + Shl(s, n), b + Shl(t, n)) == Xor(a, b) + Shl(Xor(s, t), n)
    ensures Xor(2 * a + i + Shl(s, n + 1), 2 * b + j + Shl(t, n + 1)) == Xor(2 * a + i, 2 * b + j) + Shl(Xor(s, t), n + 1)
  {
    hide Xor;
    XorBit(a + Shl(s, n), i, b + Shl(t, n), j);
    XorBit(a, i, b, j);
  }

  lemma {:induction false} ShlOne(n: nat)
    ensures Shl(1, n) == Pow2(n) && Shl(0, n) == 0
  {
    if n != 0 {
      ShlOne(n - 1);
    }
  }

  lemma {:induction false} ShlShl(x: nat, m: nat, n: nat)
    ensures Shl(Shl(x, m), n) == Shl(x, m + n)
  {
    if n != 0 {
      ShlShl(x, m, n - 1);
    }
  }

  /** Shifts by small distances are multiplications. */
  lemma ShlSmall(x: nat)
    ensures Shl(x, 4) == 16 * x && Shl(x, 7) == 128 * x && Shl(x, 8) == 256 * x
  {
    assert Shl(x, 1) == 2 * x;
    assert Shl(x, 3) == 8 * x;
    assert Shl(x, 5) == 32 * x;
    assert Shl(x, 7) == 128 * x;
  }

  lemma {:induction false} Pow2Monotone(m: nat, n: nat)
    requires m <= n
    ensures Pow2(m) <= Pow2(n)
    decreases n
  {
    if m < n {
      Pow2Monotone(m, n - 1);
    }
  }

  lemma {:induction false} XorBound(n: nat, a: nat, b: nat)
    requires a < Pow2(n) && b < Pow2(n)
    ensures Xor(a, b) < Pow2(n)
  {
    if n != 0 {
      XorBound(n - 1, a / 2, b / 2);
    }
  }

  // ----- multiplication -----

  function Mul(a: nat, b: nat): nat
    decreases a
  {
    if a == 0 then 0 else Xor(Times(a % 2, b), 2 * Mul(a / 2, b))
  }

  /** `b` multiplied by a coefficient. */
  function Times(i: nat, b: nat): nat {
    if i == 1 then b else 0
  }

  /** The defining equation, on an explicit low coefficient; it also holds at zero. */
  lemma MulBit(a: nat, i: nat, b: nat)
    requires i < 2
    ensures Mul(2 * a + i, b) == Xor(Times(i, b), 2 * Mul(a, b))
  {
    Halves(a, i);
  }

  lemma MulNone(b: nat)
    ensures Mul(0, b) == 0
  {
  }

  lemma MulDoubleLeft(a: nat, b: nat)
    ensures Mul(2 * a, b) == 2 * Mul(a, b)
  {
    MulBit(a, 0, b);
    XorZero(2 * Mul(a, b));
  }

  lemma {:induction false} MulDoubleRight(a: nat, b: nat)
    ensures Mul(a, 2 * b) == 2 * Mul(a, b)
    decreases a
  {
    if a != 0 {
      MulDoubleRight(a / 2, b);
      XorDouble(Times(a % 2, b), 2 * Mul(a / 2, b));
    }
  }

  lemma {:induction false} MulZero(a: nat)
    ensures Mul(a, 0) == 0
    decreases a
  {
    if a != 0 {
      MulZero(a / 2);
    }
  }

  lemma {:induction false} MulOne(a: nat)
    ensures Mul(1, a) == a && Mul(a, 1) == a
    decreases a
  {
    MulBit(0, 1, a);
    XorZero(a);
    if a != 0 {
      MulOne(a / 2);
      AddBit(a / 2, a % 2);
    }
  }

  lemma {:induction false} MulXorLeft(a: nat, b: nat, c: nat)
    ensures Mul(Xor(a, b), c) == Xor(Mul(a, c), Mul(b, c))
    decreases a + b
  {
    hide Xor, Mul;
    if a == 0 && b == 0 {
      XorZero(0);
      MulNone(c);
    } else {
      MulXorLeft(a / 2, b / 2, c);
      MulXorStep(a / 2, a % 2, b / 2, b % 2, c);
    }
  }

  lemma MulXorStep(a: nat, i: nat, b: nat, j: nat, c: nat)
    requires i < 2 && j < 2 && Mul(Xor(a, b), c) == Xor(Mul(a, c), Mul(b, c))
    ensures Mul(Xor(2 * a + i, 2 * b + j), c) == Xor(Mul(2 * a + i, c), Mul(2 * b + j, c))
  {
    hide Xor, Mul, Times;
    XorBit(a, i, b, j);
    MulBit(a, i, c);
    MulBit(b, j, c);
    MulBit(Xor(a, b), if i == j then 0 else 1, c);
    TimesXor(i, j, c);
    XorDouble(Mul(a, c), Mul(b, c));
    XorSwap(Times(i, c), 2 * Mul(a, c), Times(j, c), 2 * Mul(b, c));
  }

  lemma TimesXor(i: nat, j: nat, c: nat)
    requires i < 2 && j < 2
    ensures Xor(Times(i, c), Times(j, c)) == Times(if i == j then 0 else 1, c)
  {
    XorSelf(c);
    XorZero(c);
  }

  lemma {:induction false} MulXorRight(a: nat, b: nat, c: nat)
    ensures Mul(a, Xor(b, c)) == Xor(Mul(a, b), Mul(a, c))
    decreases a
  {
    if a != 0 {
      var a', i := a / 2, a % 2;
      MulXorRight(a', b, c);
      XorDouble(Mul(a', b), Mul(a', c));
      XorSwap(Times(i, b), 2 * Mul(a', b), Times(i, c), 2 * Mul(a', c));
    }
  }

  lemma {:induction false} MulComm(a: nat, b: nat)
    ensures Mul(a, b) == Mul(b, a)
    decreases a
  {
    if a == 0 {
      MulZero(b);
    } else {
      MulComm(a / 2, b);
      MulBitRight(b, a / 2, a % 2);
    }
  }

  lemma MulBitRight(b: nat, a: nat, i: nat)
    requires i < 2
    ensures Mul(b, 2 * a + i) == Xor(Times(i, b), 2 * Mul(b, a))
  {
    hide Xor, Mul;
    AddBit(a, i);
    MulXorRight(b, i, 2 * a);
    MulDoubleRight(b, a);
    MulOne(b);
    MulZero(b);
  }

  lemma {:induction false} MulAssoc(a: nat, b: nat, c: nat)
    ensures Mul(Mul(a, b), c) == Mul(a, Mul(b, c))
    decreases a
  {
    if a != 0 {
      MulAssoc(a / 2, b, c);
      MulXorLeft(Times(a % 2, b), 2 * Mul(a / 2, b), c);
      MulDoubleLeft(Mul(a / 2, b), c);
    }
  }

  // ----- long division -----

  /** `p` is a polynomial of degree exactly `d`. */
  predicate IsModulus(p: nat, d: nat) {
    Pow2(d) <= p < 2 * Pow2(d)
  }

  /** One step of long division: cancel the coefficient of x^d, if any. */
  function Reduce(r: nat, p: nat, d: nat): nat {
    if r >= Pow2(d) then Xor(r, p) else r
  }

  /** The remainder of `a` modulo `p`, one dividend bit at a time from the top. */
  function Rem(a: nat, p: nat, d: nat): nat
    decreases a
  {
    if a == 0 then 0 else Reduce(2 * Rem(a / 2, p, d) + a % 2, p, d)
  }

  /** The matching quotient. */
  function Quo(a: nat, p: nat, d: nat): nat
    decreases a
  {
    if a == 0 then 0
    else 2 * Quo(a / 2, p, d) + (if 2 * Rem(a / 2, p, d) + a % 2 >= Pow2(d) then 1 else 0)
  }

  lemma RemBit(a: nat, i: nat, p: nat, d: nat)
    requires i < 2
    ensures Rem(2 * a + i, p, d) == Reduce(2 * Rem(a, p, d) + i, p, d)
  {
    Halves(a, i);
  }

  /** One more factor x, before or after reduction. */
  lemma RemDouble(a: nat, p: nat, d: nat)
    ensures Reduce(2 * Rem(a, p, d), p, d) == Rem(2 * a, p, d)
  {
    hide Rem, Reduce;
    RemBit(a, 0, p, d);
  }

  lemma ReduceBound(r: nat, p: nat, d: nat)
    requires IsModulus(p, d) && r < 2 * Pow2(d)
    ensures Reduce(r, p, d) < Pow2(d)
  {
    if r >= Pow2(d) {
      var m := Pow2(d);
      ShlOne(d);
      XorSplit(d, r - m, p - m, 1, 1);
      XorSelf(1);
      XorBound(d, r - m, p - m);
    }
  }

  lemma {:induction false} RemBound(a: nat, p: nat, d: nat)
    requires IsModulus(p, d)
    ensures Rem(a, p, d) < Pow2(d)
    decreases a
  {
    if a != 0 {
      RemBound(a / 2, p, d);
      ReduceBound(2 * Rem(a / 2, p, d) + a % 2, p, d);
    }
  }

  lemma {:induction false} RemSmall(a: nat, p: nat, d: nat)
    requires a < Pow2(d)
    ensures Rem(a, p, d) == a
    decreases a
  {
    if a != 0 {
      RemSmall(a / 2, p, d);
    }
  }

  lemma ReduceXor(r: nat, s: nat, p: nat, d: nat)
    requires IsModulus(p, d) && r < 2 * Pow2(d) && s < 2 * Pow2(d)
    ensures Reduce(Xor(r, s), p, d) == Xor(Reduce(r, p, d), Reduce(s, p, d))
  {
    hide Xor;
    var m := Pow2(d);
    var hr, hs := if r >= m then 1 else 0, if s >= m then 1 else 0;
    ShlOne(d);
    XorSplit(d, r - hr * m, s - hs * m, hr, hs);
    XorBound(d, r - hr * m, s - hs * m);
    XorSelf(1);
    XorZero(1);
    XorZero(0);
    XorAssoc(r, s, p);
    XorComm(s, p);
    XorAssoc(r, p, s);
    if hr == 1 && hs == 1 {
      XorSwap(r, p, s, p);
      XorSelf(p);
      XorZero(Xor(r, s));
    }
  }

  lemma {:induction false} RemXor(a: nat, b: nat, p: nat, d: nat)
    requires IsModulus(p, d)
    ensures Rem(Xor(a, b), p, d) == Xor(Rem(a, p, d), Rem(b, p, d))
    decreases a + b
  {
    hide Rem, Xor, IsModulus;
    if a == 0 && b == 0 {
      XorZero(0);
      RemSmall(0, p, d);
    } else {
      RemXor(a / 2, b / 2, p, d);
      RemXorStep(a / 2, a % 2, b / 2, b % 2, p, d);
    }
  }

  lemma RemXorStep(a: nat, i: nat, b: nat, j: nat, p: nat, d: nat)
    requires IsModulus(p, d) && i < 2 && j < 2
    requires Rem(Xor(a, b), p, d) == Xor(Rem(a, p, d), Rem(b, p, d))
    ensures Rem(Xor(2 * a + i, 2 * b + j), p, d) == Xor(Rem(2 * a + i, p, d), Rem(2 * b + j, p, d))
  {
    hide Xor, Rem, Reduce;
    RemBound(a, p, d);
    RemBound(b, p, d);
    XorBit(a, i, b, j);
    RemBit(a, i, p, d);
    RemBit(b, j, p, d);
    RemBit(Xor(a, b), if i == j then 0 else 1, p, d);
    XorBit(Rem(a, p, d), i, Rem(b, p, d), j);
    ReduceXor(2 * Rem(a, p, d) + i, 2 * Rem(b, p, d) + j, p, d);
  }

  /** Reducing a factor first does not change the remainder of a product. */
  lemma {:induction false} RemMulRem(a: nat, b: nat, p: nat, d: nat)
    requires IsModulus(p, d)
    ensures Rem(Mul(a, Rem(b, p, d)), p, d) == Rem(Mul(a, b), p, d)
    decreases a
  {
    hide Rem, Mul, Xor;
    if a == 0 {
      MulNone(b);
      MulNone(Rem(b, p, d));
    } else {
      RemMulRem(a / 2, b, p, d);
      RemMulStep(a / 2, a % 2, b, p, d);
      RemMulStep(a / 2, a % 2, Rem(b, p, d), p, d);
      TimesRem(a % 2, b, p, d);
    }
  }

  /** The remainder of a product from the remainder of the product with one bit less. */
  lemma RemMulStep(a: nat, i: nat, b: nat, p: nat, d: nat)
    requires IsModulus(p, d) && i < 2
    ensures Rem(Mul(2 * a + i, b), p, d) == Xor(Rem(Times(i, b), p, d), Reduce(2 * Rem(Mul(a, b), p, d), p, d))
  {
    hide Xor, Mul, Rem, Reduce, Times;
    MulBit(a, i, b);
    RemXor(Times(i, b), 2 * Mul(a, b), p, d);
    RemBit(Mul(a, b), 0, p, d);
  }

  lemma TimesRem(i: nat, b: nat, p: nat, d: nat)
    requires IsModulus(p, d)
    ensures Rem(Times(i, Rem(b, p, d)), p, d) == Rem(Times(i, b), p, d)
  {
    RemBound(b, p, d);
    RemSmall(Rem(b, p, d), p, d);
  }

  lemma RemModulus(p: nat, d: nat)
    requires IsModulus(p, d)
    ensures Rem(p, p, d) == 0
  {
    RemSmall(p / 2, p, d);
    XorSelf(p);
  }

  /** Multiples of the modulus leave no remainder. */
  lemma RemMultiple(q: nat, p: nat, d: nat)
    requires IsModulus(p, d)
    ensures Rem(Mul(q, p), p, d) == 0
  {
    RemMulRem(q, p, p, d);
    RemModulus(p, d);
    MulZero(q);
  }

  /** The division identity: dividend = quotient * modulus + remainder. */
  lemma {:induction false} DivisionIdentity(a: nat, p: nat, d: nat)
    ensures a == Xor(Mul(Quo(a, p, d), p), Rem(a, p, d))
  {
    hide *;
    if a == 0 {
      NoDividend(p, d);
    } else {
      DivisionIdentity(a / 2, p, d);
      QuoBit(a / 2, a % 2, p, d);
    }
  }

  lemma NoDividend(p: nat, d: nat)
    ensures Xor(Mul(Quo(0, p, d), p), Rem(0, p, d)) == 0
  {
    XorZero(0);
  }

  lemma QuoBit(a: nat, i: nat, p: nat, d: nat)
    requires i < 2 && a == Xor(Mul(Quo(a, p, d), p), Rem(a, p, d))
    ensures 2 * a + i == Xor(Mul(Quo(2 * a + i, p, d), p), Rem(2 * a + i, p, d))
  {
    hide *;
    var q, r := Quo(a, p, d), Rem(a, p, d);
    RemBit(a, i, p, d);
    QuoStep(a, i, p, d);
    MulBit(q, if 2 * r + i >= Pow2(d) then 1 else 0, p);
    DivisionStep(Mul(q, p), r, i, p, d);
  }

  lemma QuoStep(a: nat, i: nat, p: nat, d: nat)
    requires i < 2
    ensures Quo(2 * a + i, p, d) == 2 * Quo(a, p, d) + (if 2 * Rem(a, p, d) + i >= Pow2(d) then 1 else 0)
  {
    Halves(a, i);
    if 2 * a + i == 0 {
      assert Rem(0, p, d) == 0 && Quo(0, p, d) == 0;
    } else {
      hide Rem, Pow2;
    }
  }

  /** Appending a dividend bit to x = m + r, where m is a multiple of p. */
  lemma DivisionStep(m: nat, r: nat, i: nat, p: nat, d: nat)
    requires i < 2
    ensures var s := 2 * r + i;
            2 * Xor(m, r) + i == Xor(Xor(Times(if s >= Pow2(d) then 1 else 0, p), 2 * m), Reduce(s, p, d))
  {
    hide Xor;
    var s := 2 * r + i;
    XorBit(m, 0, r, i);
    if s >= Pow2(d) {
      XorComm(p, 2 * m);
      XorSwap(2 * m, p, s, p);
      XorSelf(p);
      XorZero(Xor(2 * m, s));
    } else {
      XorZero(2 * m);
    }
  }

  /**
   `Rem` is the only remainder: whatever quotient is offered, a representation of
   `a` as multiple plus a polynomial of degree below d has `Rem(a)` as that part.
   */
  lemma RemainderUnique(a: nat, q: nat, r: nat, p: nat, d: nat)
    requires IsModulus(p, d) && r < Pow2(d)
    requires a == Xor(Mul(q, p), r)
    ensures r == Rem(a, p, d)
  {
    RemXor(Mul(q, p), r, p, d);
    RemMultiple(q, p, d);
    RemSmall(r, p, d);
    XorZero(r);
  }
}
