/** Exponentiation in Montgomery form: x stands for a when x = a*R
    modulo p, with R = Radix(n). A Montgomery product of the forms of a
    and b is the form of a*b; redc takes a form back to a mod p. The
    ladders and square-and-multiply loops of FF read their exponents bit
    by bit, and the lemmas here follow those bits. */
module Powers {
  import opened Arith
  import opened Limbs

  /** x is the Montgomery form of a modulo p. */
  predicate Mont(x: int, a: int, p: int, n: nat)
    requires p > 0
  {
    ModEq(x, a * Radix(n), p)
  }

  /** Every two integers agree modulo 1. */
  lemma ModOne(a: int, b: int)
    ensures ModEq(a, b, 1)
  {
    DivModUnique(a - b, 1, a - b, 0);
  }

  /** nres: the exact residue x*R mod p is the form of x; modulo 1
      everything is. */
  lemma NresMont(z: int, x: int, p: int, n: nat)
    requires p > 0 && (x < p || p == 1)
    requires 0 <= x < p ==> z == (x * Radix(n)) % p
    requires x >= 0
    ensures Mont(z, x, p, n)
  {
    if p == 1 {
      ModOne(z, x * Radix(n));
    } else {
      ModEqMod(x * Radix(n), p);
    }
  }

  /** The Montgomery product: c*R = a*b modulo p, a and b the forms of x
      and y, make c the form of x*y, R being cancelled because p is odd. */
  lemma MontMul(c: int, a: int, b: int, x: int, y: int, p: int, n: nat)
    requires p > 0 && p % 2 == 1
    requires ModEq(c * Radix(n), a * b, p) && Mont(a, x, p, n) && Mont(b, y, p, n)
    ensures Mont(c, x * y, p, n)
  {
    var r := Radix(n);
    ModEqMul(a, x * r, b, y * r, p);
    assert (x * r) * (y * r) == ((x * y) * r) * r;
    ModEqTrans(c * r, a * b, ((x * y) * r) * r, p);
    RadixIsPow2(n);
    ModEqCancelPow2(c, (x * y) * r, LIMB_BITS * n, p);
  }

  /** redc: z in [0, p) with z*R = t modulo p, t the form of a, is
      a mod p. */
  lemma MontOut(z: int, t: int, a: int, p: int, n: nat)
    requires p > 0 && p % 2 == 1 && 0 <= z < p
    requires ModEq(z * Radix(n), t, p) && Mont(t, a, p, n)
    ensures z == a % p
  {
    ModEqTrans(z * Radix(n), t, a * Radix(n), p);
    RadixIsPow2(n);
    ModEqCancelPow2(z, a, LIMB_BITS * n, p);
    ModEqIsMod(z, a, p);
  }

  /* ---------------- exponent bits ---------------- */

  /** Reading the exponent from the top: the bits from i on are twice
      the bits from i+1 on, plus bit i. */
  lemma BitStep(e: int, i: nat)
    ensures e / Pow2(i) == 2 * (e / Pow2(i + 1)) + Bit(e, i)
  {
    assert Pow2(i + 1) == Pow2(i) * 2;
    ModProduct(e, Pow2(i), 2);
    DivDecompose2(e / Pow2(i));
  }

  lemma DivDecompose2(q: int)
    ensures q == 2 * (q / 2) + q % 2
  {
  }

  /** No bits at or above m in a value below 2^m. */
  lemma NoBitsAbove(e: int, m: nat)
    requires 0 <= e < Pow2(m)
    ensures e / Pow2(m) == 0
  {
    DivModUnique(e, Pow2(m), 0, e);
  }

  /** Reading the exponent from the bottom: the low j+1 bits are the low
      j bits plus bit j at weight 2^j, and the bits above j+1 are half
      those above j. */
  lemma LowBitStep(e: int, j: nat)
    ensures e / Pow2(j + 1) == (e / Pow2(j)) / 2
    ensures e % Pow2(j + 1) == e % Pow2(j) + Pow2(j) * ((e / Pow2(j)) % 2)
  {
    var q := e / Pow2(j);
    assert Pow2(j + 1) == Pow2(j) * 2;
    ModProduct(e, Pow2(j), 2);
    DivDecompose2(q);
    assert e == Pow2(j) * q + e % Pow2(j);
    assert e == Pow2(j + 1) * (q / 2) + (e % Pow2(j) + Pow2(j) * (q % 2));
    assert 0 <= e % Pow2(j) + Pow2(j) * (q % 2) < Pow2(j + 1);
    DivModUnique(e, Pow2(j + 1), q / 2, e % Pow2(j) + Pow2(j) * (q % 2));
  }

  /** Once no bits are left above j, the low j bits are the exponent. */
  lemma AllBitsRead(e: int, j: nat)
    requires e / Pow2(j) == 0
    ensures e % Pow2(j) == e
  {
    assert e == Pow2(j) * (e / Pow2(j)) + e % Pow2(j);
  }

  /* ---------------- the ladders ---------------- */

  /** One step of the Montgomery ladder: from the forms of x^k and x^(k+1),
      bit b = 0 squares the first and multiplies the two into the second;
      b = 1 multiplies into the first and squares the second. Either way
      the pair becomes the forms of x^(2k+b) and x^(2k+b+1). */
  lemma LadderStep(r0: int, r1: int, s0: int, s1: int, k: nat, b: int, x: int, p: int, n: nat)
    requires p > 0 && p % 2 == 1 && (b == 0 || b == 1)
    requires Mont(r0, Exp(x, k), p, n) && Mont(r1, Exp(x, k + 1), p, n)
    requires b == 0 ==> ModEq(s0 * Radix(n), r0 * r0, p) && ModEq(s1 * Radix(n), r0 * r1, p)
    requires b == 1 ==> ModEq(s0 * Radix(n), r0 * r1, p) && ModEq(s1 * Radix(n), r1 * r1, p)
    ensures Mont(s0, Exp(x, 2 * k + b), p, n) && Mont(s1, Exp(x, 2 * k + b + 1), p, n)
  {
    ExpAdd(x, k, k);
    ExpAdd(x, k, k + 1);
    ExpAdd(x, k + 1, k + 1);
    if b == 0 {
      MontMul(s0, r0, r0, Exp(x, k), Exp(x, k), p, n);
      MontMul(s1, r0, r1, Exp(x, k), Exp(x, k + 1), p, n);
    } else {
      MontMul(s0, r0, r1, Exp(x, k), Exp(x, k + 1), p, n);
      MontMul(s1, r1, r1, Exp(x, k + 1), Exp(x, k + 1), p, n);
      assert 2 * k + 1 + 1 == (k + 1) + (k + 1);
    }
  }

  /** power with e = 2: one Montgomery squaring of the form of x is the
      form of x^2. */
  lemma SquareOnce(s: int, w: int, x: int, p: int, n: nat)
    requires p > 0 && p % 2 == 1
    requires Mont(w, x, p, n) && ModEq(s * Radix(n), w * w, p)
    ensures Mont(s, Exp(x, 2), p, n)
  {
    MontMul(s, w, w, x, x, p, n);
    assert Exp(x, 1) == x;
    assert Exp(x, 2) == x * x;
  }

  /** The low j+1 bits are clear exactly when the low j bits and bit j
      are. */
  lemma LowBitsZero(e: int, j: nat)
    ensures e % Pow2(j + 1) == 0 <==> e % Pow2(j) == 0 && (e / Pow2(j)) % 2 == 0
  {
    LowBitStep(e, j);
    var lo, b := e % Pow2(j), (e / Pow2(j)) % 2;
    if b == 1 {
      assert Pow2(j) * b == Pow2(j);
    } else {
      assert b == 0;
    }
  }

  /** Left-to-right square-and-multiply: squaring the form of x^k and
      multiplying by the form of x when bit b is set gives x^(2k+b). */
  lemma SquareMultiplyStep(r: int, s: int, t: int, w: int, k: nat, b: int, x: int, p: int, n: nat)
    requires p > 0 && p % 2 == 1 && (b == 0 || b == 1)
    requires Mont(r, Exp(x, k), p, n) && Mont(w, x, p, n)
    requires ModEq(s * Radix(n), r * r, p)
    requires b == 0 ==> t == s
    requires b == 1 ==> ModEq(t * Radix(n), s * w, p)
    ensures Mont(t, Exp(x, 2 * k + b), p, n)
  {
    ExpAdd(x, k, k);
    MontMul(s, r, r, Exp(x, k), Exp(x, k), p, n);
    if b == 1 {
      MontMul(t, s, w, Exp(x, 2 * k), x, p, n);
      ExpAdd(x, 2 * k, 1);
    }
  }

  /** Right-to-left: the running power w is the form of x^(2^j); squaring
      it gives x^(2^(j+1)). */
  lemma SquareRunning(w: int, w': int, x: int, j: nat, p: int, n: nat)
    requires p > 0 && p % 2 == 1
    requires Mont(w, Exp(x, Pow2(j)), p, n) && ModEq(w' * Radix(n), w * w, p)
    ensures Mont(w', Exp(x, Pow2(j + 1)), p, n)
  {
    MontMul(w', w, w, Exp(x, Pow2(j)), Exp(x, Pow2(j)), p, n);
    ExpAdd(x, Pow2(j), Pow2(j));
  }

  /** Right-to-left: when bit j is set, multiplying the accumulator, the
      form of x^(e mod 2^j), by the running power adds 2^j to the
      exponent. */
  lemma AccumulateBit(acc: int, acc': int, w: int, x: int, lo: nat, j: nat, p: int, n: nat)
    requires p > 0 && p % 2 == 1
    requires Mont(acc, Exp(x, lo), p, n) && Mont(w, Exp(x, Pow2(j)), p, n)
    requires ModEq(acc' * Radix(n), acc * w, p)
    ensures Mont(acc', Exp(x, lo + Pow2(j)), p, n)
  {
    MontMul(acc', acc, w, Exp(x, lo), Exp(x, Pow2(j)), p, n);
    ExpAdd(x, lo, Pow2(j));
  }

  /** Double exponentiation: squaring the form of x^ke * y^kf and
      multiplying by the form of x^eb * y^fb gives
      x^(2ke+eb) * y^(2kf+fb). */
  lemma DoubleStep(r: int, s: int, t: int, m: int, ke: nat, kf: nat, eb: nat, fb: nat,
                   x: int, y: int, p: int, n: nat)
    requires p > 0 && p % 2 == 1
    requires Mont(r, Exp(x, ke) * Exp(y, kf), p, n) && ModEq(s * Radix(n), r * r, p)
    requires eb == 0 && fb == 0 ==> t == s
    requires eb == 1 || fb == 1 ==> Mont(m, Exp(x, eb) * Exp(y, fb), p, n) && ModEq(t * Radix(n), s * m, p)
    requires eb <= 1 && fb <= 1
    ensures Mont(t, Exp(x, 2 * ke + eb) * Exp(y, 2 * kf + fb), p, n)
  {
    var a, c := Exp(x, ke) * Exp(y, kf), Exp(x, eb) * Exp(y, fb);
    MontMul(s, r, r, a, a, p, n);
    PairProduct(x, y, ke, kf, ke, kf);
    if eb == 1 || fb == 1 {
      MontMul(t, s, m, a * a, c, p, n);
      PairProduct(x, y, 2 * ke, 2 * kf, eb, fb);
    } else {
      assert Exp(x, 0) == 1 && Exp(y, 0) == 1;
    }
  }

  lemma PairProduct(x: int, y: int, a: nat, b: nat, c: nat, d: nat)
    ensures (Exp(x, a) * Exp(y, b)) * (Exp(x, c) * Exp(y, d)) == Exp(x, a + c) * Exp(y, b + d)
  {
    ExpAdd(x, a, c);
    ExpAdd(y, b, d);
    Rearrange(Exp(x, a), Exp(y, b), Exp(x, c), Exp(y, d));
  }

  lemma Rearrange(a: int, b: int, c: int, d: int)
    ensures (a * b) * (c * d) == (a * c) * (b * d)
  {
  }
}
