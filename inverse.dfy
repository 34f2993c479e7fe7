/** Inverses modulo powers of two: the per-limb inverse that BIG.invmod2m
    supplies, and the integer identities behind the Arazi-Qi doubling step
    of FF.invmod2m. */
module Inverse {
  import opened Arith
  import opened Limbs
  import opened Karatsuba

  /** Newton-Hensel lifting: an inverse of a modulo 2^(2^j), obtained from
      the inverse modulo 2^(2^(j-1)) as r*(2 - a*r). */
  function InvLift(a: int, j: nat): (r: int)
    ensures 0 <= r < Pow2(Pow2(j))
  {
    if j == 0 then 1
    else
      var r0 := InvLift(a, j - 1);
      (r0 * (2 - a * r0)) % Pow2(Pow2(j))
  }

  /** y*(2 - y) for y = 1 + d is 1 - d*d. */
  lemma OneMinusSquare(y: int, d: int)
    requires y == 1 + d
    ensures y * (2 - y) == 1 - d * d
  {
  }

  lemma SquareProduct(k: int, m: int)
    ensures (k * m) * (k * m) == (k * k) * (m * m)
  {
  }

  /** A congruence modulo m as an explicit multiple of m. */
  lemma ModEqWitness(x: int, y: int, m: int)
    requires m > 0 && ModEq(x, y, m)
    ensures x == y + ((x - y) / m) * m
  {
  }

  /** One lifting step doubles the number of correct low bits. */
  lemma HenselLift(a: int, r0: int, m: int)
    requires m > 0 && ModEq(a * r0, 1, m)
    ensures m * m > 0
    ensures ModEq(a * ((r0 * (2 - a * r0)) % (m * m)), 1, m * m)
  {
    MulStrictRight(m, 0, m);
    var mm := m * m;
    var y := a * r0;
    ModEqWitness(y, 1, m);
    var k := (y - 1) / m;
    var x := r0 * (2 - y);
    MulAssoc(a, r0, 2 - y);
    OneMinusSquare(y, k * m);
    SquareProduct(k, m);
    assert a * x == 1 + (-(k * k)) * mm;
    MultipleOf(-(k * k), mm);
    assert ModEq(a * x, 1, mm);
    ModEqMod(x, mm);
    ModEqRefl(a, mm);
    ModEqMul(a, a, x % mm, x, mm);
    ModEqTrans(a * (x % mm), a * x, 1, mm);
  }

  /** 1 inverts any odd a modulo 2 = 2^(2^0). */
  lemma OddInverse(a: int)
    requires a % 2 == 1
    ensures ModEq(a * 1, 1, Pow2(Pow2(0)))
  {
    assert Pow2(Pow2(0)) == 2;
    assert a * 1 - 1 == 2 * ((a - 1) / 2);
    MultipleOf((a - 1) / 2, 2);
  }

  /** The modulus 2^(2^j) is the square of 2^(2^(j-1)). */
  lemma SquaredModulus(j: nat)
    requires j > 0
    ensures Pow2(Pow2(j)) == Pow2(Pow2(j - 1)) * Pow2(Pow2(j - 1))
  {
    Pow2Add(Pow2(j - 1), Pow2(j - 1));
    assert Pow2(j) == Pow2(j - 1) + Pow2(j - 1);
  }

  lemma {:induction false} InvLiftCorrect(a: int, j: nat)
    requires a % 2 == 1
    ensures ModEq(a * InvLift(a, j), 1, Pow2(Pow2(j)))
  {
    if j == 0 {
      OddInverse(a);
    } else {
      InvLiftCorrect(a, j - 1);
      SquaredModulus(j);
      HenselLift(a, InvLift(a, j - 1), Pow2(Pow2(j - 1)));
    }
  }

  /** BIG.invmod2m: the inverse of a limb modulo 2^256 = BASE. */
  function LimbInv(a: int): (r: int)
    ensures IsDigit(r)
  {
    Pow2At8();
    BaseFacts();
    InvLift(a, 8)
  }

  lemma LimbInvCorrect(a: int)
    requires a % 2 == 1
    ensures ModEq(a * LimbInv(a), 1, BASE)
  {
    Pow2At8();
    BaseFacts();
    InvLiftCorrect(a, 8);
  }

  /* ---------------- the Arazi-Qi step ---------------- */

  /** (r - w) mod r is congruent to -w. */
  lemma NegResidue(bp: int, w: int, r: int)
    requires r > 0 && bp == (r - w) % r
    ensures ModEq(bp, -w, r)
  {
    ModEqMod(r - w, r);
    MultipleOf(1, r);
    ModEqTrans(bp, r - w, -w, r);
  }

  lemma ModEqNeg(x: int, y: int, r: int)
    requires r > 0 && ModEq(x, y, r)
    ensures ModEq(-x, -y, r)
  {
    ModEqRefl(0, r);
    ModEqAdd(0, 0, x, y, r);
  }

  lemma CrossAlg(g: int, u: int, a0: int, hh: int, r: int)
    requires u * a0 == 1 + r * hh
    ensures -(g * u) * a0 == -g + (-g * hh) * r
  {
    MulAssoc(g, u, a0);
  }

  /** The correction bp times a0 cancels h + c modulo r. */
  lemma CrossTerm(bp: int, w: int, g: int, u: int, a0: int, hh: int, r: int)
    requires r > 0 && bp == (r - w) % r && w == (g * u) % r && u * a0 == 1 + r * hh
    ensures ModEq(bp * a0, -g, r)
  {
    NegResidue(bp, w, r);
    ModEqMod(g * u, r);
    ModEqNeg(w, g * u, r);
    ModEqTrans(bp, -w, -(g * u), r);
    ModEqRefl(a0, r);
    ModEqMul(bp, -(g * u), a0, a0, r);
    CrossAlg(g, u, a0, hh, r);
    MultipleOf(-g * hh, r);
    assert ModEq(-(g * u) * a0, -g, r);
    ModEqTrans(bp * a0, -(g * u) * a0, -g, r);
  }

  /** (a0 + r*a1 + r*r*a2)(u + r*bp), grouped by powers of r. */
  lemma Expand(a0: int, a1: int, a2: int, u: int, bp: int, r: int)
    ensures (a0 + r * a1 + r * r * a2) * (u + r * bp)
         == u * a0 + r * (u * a1 + bp * a0) + (r * r) * (u * a2 + bp * a1 + r * bp * a2)
  {
  }

  lemma Collect(p: int, hh: int, t: int, s: int, k: int, rest: int, r: int)
    requires p == 1 + r * hh + r * t + (r * r) * rest && s == hh + t && s == k * r
    ensures p - 1 == (k + rest) * (r * r)
  {
  }

  /** The doubling step: with a = a0 + r*a1 + r*r*a2, u*a0 = 1 + r*hh,
      h congruent to hh and c = u*a1 mod r, the correction
      bp = (r - (h + c)*u mod r) mod r makes u + r*bp the inverse of a
      modulo r*r. */
  lemma AraziQiStep(u: int, a: int, a0: int, a1: int, a2: int, hh: int, h: int, c: int, w: int, bp: int, r: int)
    requires r > 0
    requires a == a0 + r * a1 + r * r * a2
    requires u * a0 == 1 + r * hh
    requires ModEq(h, hh, r)
    requires c == (u * a1) % r
    requires w == ((h + c) * u) % r
    requires bp == (r - w) % r
    ensures r * r > 0
    ensures ModEq(a * (u + r * bp), 1, r * r)
  {
    MulStrictRight(r, 0, r);
    var t := u * a1 + bp * a0;
    var s := hh + t;
    CrossTerm(bp, w, h + c, u, a0, hh, r);
    SumVanishes(hh, h, c, u * a1, bp * a0, r);
    ModEqWitness(s, 0, r);
    var k := s / r;
    var rest := u * a2 + bp * a1 + r * bp * a2;
    Expand(a0, a1, a2, u, bp, r);
    Collect(a * (u + r * bp), hh, t, s, k, rest, r);
    MultipleOf(k + rest, r * r);
  }

  lemma SumVanishes(hh: int, h: int, c: int, x1: int, x2: int, r: int)
    requires r > 0 && ModEq(h, hh, r) && c == x1 % r && ModEq(x2, -(h + c), r)
    ensures ModEq(hh + x1 + x2, 0, r)
  {
    ModEqMod(x1, r);
    ModEqSym(c, x1, r);
    ModEqSym(h, hh, r);
    ModEqAdd(hh, h, x1, c, r);
    ModEqAdd(hh + x1, h + c, x2, -(h + c), r);
  }

  lemma ModMod(x: int, p: int, q: int)
    requires p > 0 && q > 0
    ensures p * q > 0 && (x % (p * q)) % p == x % p
  {
    MulStrictRight(p, 0, q);
    var k := x / (p * q);
    assert x == x % (p * q) + (k * q) * p;
    DivModAddMul(x % (p * q), k * q, p);
  }

  /* ---------------- limb views ---------------- */

  /** Below a digit prefix of i limbs, the value splits at Radix(i). */
  lemma LowLimbs(s: seq<int>, i: nat)
    requires i <= |s| && Digits(s[..i])
    ensures Val(s) % Radix(i) == Val(s[..i]) && Val(s) / Radix(i) == Val(s[i..])
  {
    ValSplit(s, i);
    DigitsBound(s[..i]);
    TopDivMod(Val(s), Val(s[..i]), Val(s[i..]), Radix(i));
  }

  /** For digits, the low i limbs are the value modulo Radix(i), and the
      next i limbs the following digit of the value in base Radix(i). */
  lemma Halves(s: seq<int>, i: nat)
    requires Digits(s) && 2 * i <= |s|
    ensures Val(s) % Radix(i) == Val(s[..i])
    ensures (Val(s) / Radix(i)) % Radix(i) == Val(s[i..2 * i])
  {
    assert Digits(s[..i]);
    LowLimbs(s, i);
    var t := s[i..];
    assert t[..i] == s[i..2 * i];
    assert Digits(t[..i]);
    LowLimbs(t, i);
  }

  lemma ProductBelow(u: int, a0: int, r: int)
    requires 0 <= u < r && 0 <= a0 < r
    ensures 0 <= u * a0 < r * r
  {
    MulNonneg(u, a0);
    if a0 > 0 {
      MulStrictRight(a0, u, r);
      MulMonoRight(r, a0, r);
    }
  }

  /** A normalised 2n-limb vector below Radix(2i), shifted down by i
      limbs as shrw(i) does and cut to n limbs, holds its quotient by
      Radix(i) in digits. */
  lemma HighLimbs(ts: seq<int>, s: seq<int>, i: nat, n: nat)
    requires |ts| == 2 * n && 2 * i <= n && Normed(ts)
    requires 0 <= Val(ts) < Radix(2 * i)
    requires s == (ts[i..2 * i] + Zeros(i) + ts[2 * i..])[..n]
    ensures Digits(s) && Val(ts) / Radix(i) == Val(s)
    ensures 0 <= Val(ts) % Radix(i) == Val(ts[..i])
  {
    HighLimbsShape(ts, s, i, n);
    SamePadded(ts[i..2 * i], s, ts[i..], n - i, 2 * n - 2 * i);
    LowLimbs(ts, i);
  }

  lemma HighLimbsShape(ts: seq<int>, s: seq<int>, i: nat, n: nat)
    requires |ts| == 2 * n && 2 * i <= n && Normed(ts)
    requires 0 <= Val(ts) < Radix(2 * i)
    requires s == (ts[i..2 * i] + Zeros(i) + ts[2 * i..])[..n]
    ensures s == ts[i..2 * i] + Zeros(n - i) && Digits(s) && Digits(ts[..i])
    ensures ts[i..] == ts[i..2 * i] + Zeros(2 * n - 2 * i)
  {
    NormedSmall(ts, 2 * i);
  }

  /** Two paddings of the same limbs with zeros have the same value. */
  lemma SamePadded(m: seq<int>, x: seq<int>, y: seq<int>, a: nat, b: nat)
    requires x == m + Zeros(a) && y == m + Zeros(b)
    ensures Val(x) == Val(y)
  {
    ValPadded(m, a);
    ValPadded(m, b);
  }

  /** Zero limbs on top add nothing. */
  lemma ValPadded(a: seq<int>, k: nat)
    ensures Val(a + Zeros(k)) == Val(a)
  {
    ValAppend(a, Zeros(k));
    ValZeros(k);
  }

  lemma DivDecompose(x: int, m: int)
    requires m > 0
    ensures x == m * (x / m) + x % m
  {
  }

  /** The digits of T = u*a0 above its low i limbs, once T is below
      Radix(2i) and congruent to 1 modulo Radix(i): T = 1 + Radix(i)*hi. */
  lemma HighOfProduct(ts: seq<int>, s: seq<int>, i: nat, n: nat, u: int, a0: int)
    requires |ts| == 2 * n && 1 <= i && 2 * i <= n && Normed(ts)
    requires Val(ts) == u * a0 && 0 <= u < Radix(i) && 0 <= a0 < Radix(i)
    requires ModEq(u * a0, 1, Radix(i))
    requires s == (ts[i..2 * i] + Zeros(i) + ts[2 * i..])[..n]
    ensures Digits(s) && u * a0 == 1 + Radix(i) * Val(s)
  {
    var r, t := Radix(i), Val(ts);
    ProductBelow(u, a0, r);
    RadixAdd(i, i);
    HighLimbs(ts, s, i, n);
    RadixMono(1, i);
    assert Radix(1) == BASE;
    BaseFacts();
    DivModUnique(1, r, 0, 1);
    ModEqSameMod(t, 1, r);
    assert t % r == 1;
    DivDecompose(t, r);
  }

  /** Radix(i) as a limb vector: a one at position i. */
  lemma UnitAt(s: seq<int>, i: nat, n: nat)
    requires 1 <= i && 2 * i <= n
    requires s == Zeros(i) + ([1] + Zeros(n - 1))[..i] + ([1] + Zeros(n - 1))[2 * i..]
    ensures Val(s) == Radix(i)
  {
    var one := [1] + Zeros(n - 1);
    var lo, hi := one[..i], one[2 * i..];
    assert lo == [1] + Zeros(i - 1);
    assert hi == Zeros(n - 2 * i);
    ValPadded([1], i - 1);
    ValSingle(1);
    assert Val(lo) == 1;
    ValZeros(n - 2 * i);
    assert Val(hi) == 0;
    ValZeros(i);
    ValConcat3(Zeros(i), lo, hi, i, 2 * i);
    assert Val(s) == Radix(i) * 1 + Radix(2 * i) * 0;
  }

  /** Shifting a normalised value in [1, Radix(i)] up by i limbs keeps its
      residue modulo Radix(i) in limbs i..2i-1. */
  lemma ShiftedCorrection(bs: seq<int>, s: seq<int>, i: nat, n: nat)
    requires |bs| == n && 1 <= i && 2 * i <= n && Normed(bs)
    requires 0 < Val(bs) <= Radix(i)
    requires s == Zeros(i) + bs[..i] + bs[2 * i..]
    ensures s == Zeros(i) + s[i..2 * i] + Zeros(n - 2 * i) && Digits(s[i..2 * i])
    ensures Val(s) == Radix(i) * (Val(bs) % Radix(i))
  {
    RadixMono(1, i);
    BaseFacts();
    assert Radix(i + 1) == Radix(i) * BASE by {
      RadixAdd(i, 1);
    }
    MulStrictRight(Radix(i), 1, BASE);
    NormedSmall(bs, i + 1);
    assert bs[2 * i..] == Zeros(n - 2 * i);
    assert s[i..2 * i] == bs[..i];
    Halves(bs, i);
    ValConcat3(Zeros(i), bs[..i], Zeros(n - 2 * i), i, 2 * i);
    ValZeros(i);
    ValZeros(n - 2 * i);
  }

  /** Adding the correction, held in limbs i..2i-1, to u, held in limbs
      0..i-1, keeps every limb a digit and the sum below Radix(2i). */
  lemma DisjointSum(us: seq<int>, bs: seq<int>, s: seq<int>, i: nat, n: nat)
    requires |us| == n && |bs| == n && |s| == n && 2 * i <= n
    requires Digits(us) && Val(us) < Radix(i)
    requires bs == Zeros(i) + bs[i..2 * i] + Zeros(n - 2 * i) && Digits(bs[i..2 * i])
    requires forall j | 0 <= j < n :: s[j] == us[j] + bs[j]
    ensures Digits(s) && Val(s) < Radix(2 * i)
  {
    DisjointDigits(us, bs, s, i, n);
    var lo := s[..2 * i];
    ValPadded(lo, n - 2 * i);
    assert Val(s) == Val(lo);
    DigitsBound(lo);
  }

  lemma DisjointDigits(us: seq<int>, bs: seq<int>, s: seq<int>, i: nat, n: nat)
    requires |us| == n && |bs| == n && |s| == n && 2 * i <= n
    requires Digits(us) && Val(us) < Radix(i)
    requires bs == Zeros(i) + bs[i..2 * i] + Zeros(n - 2 * i) && Digits(bs[i..2 * i])
    requires forall j | 0 <= j < n :: s[j] == us[j] + bs[j]
    ensures Digits(s) && Digits(s[..2 * i]) && s == s[..2 * i] + Zeros(n - 2 * i)
  {
    DigitsBound(us);
    DigitsNormed(us);
    NormedSmall(us, i);
    assert forall j | i <= j < 2 * i :: bs[j] == bs[i..2 * i][j - i];
  }

  /* ---------------- the doubling loop ---------------- */

  /** Below a larger power of two, doubling a power of two stays within it. */
  lemma {:induction false} PowerOfTwoDouble(i: int, n: int)
    requires PowerOfTwo(i) && PowerOfTwo(n) && i < n
    ensures 2 * i <= n && PowerOfTwo(2 * i)
    decreases n
  {
    assert (2 * i) / 2 == i;
    if i > 1 {
      PowerOfTwoDouble(i / 2, n / 2);
    }
  }

  /** The limb inverse of the lowest limb of an odd a is the inverse of a
      modulo BASE = Radix(1): the start of the doubling. */
  lemma InvStart(s: seq<int>, x: int)
    requires |s| >= 1 && Val(s) % 2 == 1 && x == LimbInv(s[0])
    ensures ModEq(Val(s) * x, 1, Radix(1))
  {
    var rest := Val(s[1..]);
    assert Val(s) == s[0] + BASE * rest;
    BaseFacts();
    assert BASE * rest == (Pow2(LIMB_BITS - 1) * rest) * 2;
    DivModAddMul(s[0], Pow2(LIMB_BITS - 1) * rest, 2);
    LimbInvCorrect(s[0]);
    MultipleOf(rest, BASE);
    assert ModEq(Val(s), s[0], BASE);
    ModEqRefl(x, BASE);
    ModEqMul(Val(s), s[0], x, x, BASE);
    ModEqTrans(Val(s) * x, s[0] * x, 1, BASE);
    assert Radix(1) == BASE;
  }

  /** An inverse of a modulo r is an inverse of a mod r. */
  lemma LowInverse(a: int, u: int, r: int)
    requires r > 0 && ModEq(a * u, 1, r)
    ensures ModEq(u * (a % r), 1, r)
  {
    ModEqMod(a, r);
    ModEqRefl(u, r);
    ModEqMul(u, u, a % r, a, r);
    ModEqTrans(u * (a % r), u * a, 1, r);
  }

  /** The first three digits of a in base r. */
  lemma Decompose2(a: int, r: int)
    requires r > 0
    ensures a == a % r + r * ((a / r) % r) + r * r * ((a / r) / r)
  {
    DivDecompose(a, r);
    DivDecompose(a / r, r);
    var a1, a2 := (a / r) % r, (a / r) / r;
    assert a == a % r + r * (r * a2 + a1);
  }
}
