/** Montgomery reduction with R = Radix(n): the integer identities behind
    FF.reduce, and the product karmul_lower/karmul_upper build for it. */
module Montgomery {
  import opened Arith
  import opened Limbs
  import opened Windows
  import opened Karatsuba

  /** m = low(T * ND) makes N * m agree with T modulo R when ND is the
      inverse of N modulo R. */
  lemma MontLow(tl: int, nd: int, nv: int, m: int, r: int)
    requires r > 0 && m == (tl * nd) % r && ModEq(nv * nd, 1, r)
    ensures ModEq(tl, nv * m, r)
  {
    ModEqMod(tl * nd, r);
    ModEqRefl(nv, r);
    ModEqMul(nv, nv, m, tl * nd, r);
    assert nv * (tl * nd) == tl * (nv * nd);
    ModEqRefl(tl, r);
    ModEqMul(tl, tl, nv * nd, 1, r);
    ModEqTrans(nv * m, tl * (nv * nd), tl, r);
    ModEqSym(nv * m, tl, r);
  }

  /** The value karmul_upper leaves in the 2n-limb receiver during reduce:
      N times m, where m = low(T * ND) is what karmul_lower computes from
      the low half of T. */
  function MontProduct(t: seq<int>, n: seq<int>, nd: seq<int>): (r: seq<int>)
    requires |n| == |nd| && |n| >= 2 && PowerOfTwo(|n|) && |t| == 2 * |n|
    requires Digits(n) && ModEq(Val(n) * Val(nd), 1, Radix(|n|))
    ensures |r| == 2 * |n|
  {
    var m := KarMulLower(t[..|n|], nd);
    MontLow(Val(t[..|n|]), Val(nd), Val(n), Val(m), Radix(|n|));
    assert Digits(n[..|n| / 2]);
    assert Digits(m[..|n| / 2]);
    KarMulUpper(t, n, m)
  }

  /** The product is N*m with m = low(T*ND) below R, its low half is in
      digits, and it agrees with T modulo R. */
  lemma MontProductCorrect(t: seq<int>, n: seq<int>, nd: seq<int>)
    requires |n| == |nd| && |n| >= 2 && PowerOfTwo(|n|) && |t| == 2 * |n|
    requires Digits(n) && ModEq(Val(n) * Val(nd), 1, Radix(|n|))
    ensures Digits(MontProduct(t, n, nd)[..|n|])
    ensures Val(MontProduct(t, n, nd)) == Val(n) * Val(KarMulLower(t[..|n|], nd))
    ensures 0 <= Val(KarMulLower(t[..|n|], nd)) < Radix(|n|)
    ensures ModEq(Val(t[..|n|]), Val(MontProduct(t, n, nd)), Radix(|n|))
  {
    var m := KarMulLower(t[..|n|], nd);
    MontLow(Val(t[..|n|]), Val(nd), Val(n), Val(m), Radix(|n|));
    assert Digits(n[..|n| / 2]);
    assert Digits(m[..|n| / 2]);
    DigitsBound(m);
    var z := KarMulUpper(t, n, m);
    assert z == MontProduct(t, n, nd);
    ModEqTrans(Val(t[..|n|]), Val(n) * Val(m), Val(z), Radix(|n|));
  }

  /** What reduce returns for the 2n-limb T with modulus N and ND the
      inverse of N modulo R = Radix(n): hi(T) + N - hi(N*m), normalised,
      where N*m is the product karmul_upper forms. */
  function Reduced(t: seq<int>, n: seq<int>, nd: seq<int>): (r: seq<int>)
    requires |n| == |nd| && |n| >= 2 && PowerOfTwo(|n|) && |t| == 2 * |n|
    requires Digits(n) && ModEq(Val(n) * Val(nd), 1, Radix(|n|))
    ensures |r| == |n| && Normed(r)
  {
    var k := |n|;
    var z := MontProduct(t, n, nd);
    Carry(Minus(Plus(t[k..], n), z[k..]))
  }

  /** Montgomery reduction is correct: when the low half of T is in
      digits, Reduced(T) times R is congruent to T modulo N; for T >= 0 it
      is positive and at most (T + N*R)/R, and it is below 2N when
      T < N*R. */
  lemma ReducedCorrect(t: seq<int>, n: seq<int>, nd: seq<int>)
    requires |n| == |nd| && |n| >= 2 && PowerOfTwo(|n|) && |t| == 2 * |n|
    requires Digits(n) && Val(n) > 0 && ModEq(Val(n) * Val(nd), 1, Radix(|n|))
    requires Digits(t[..|n|])
    ensures ModEq(Val(Reduced(t, n, nd)) * Radix(|n|), Val(t), Val(n))
    ensures Val(t) >= 0 ==>
      0 < Val(Reduced(t, n, nd)) && Val(Reduced(t, n, nd)) * Radix(|n|) <= Val(t) + Val(n) * Radix(|n|)
    ensures 0 <= Val(t) < Val(n) * Radix(|n|) ==> Val(Reduced(t, n, nd)) < 2 * Val(n)
  {
    var k := |n|;
    var z := MontProduct(t, n, nd);
    var r := Reduced(t, n, nd);
    assert Val(r) == Val(t[k..]) + Val(n) - Val(z[k..]);
    MontProductCorrect(t, n, nd);
    ValSplit(t, k);
    ValSplit(z, k);
    DigitsBound(t[..k]);
    DigitsBound(z[..k]);
    var m := Val(KarMulLower(t[..k], nd));
    MontgomeryReduce(Val(t), Val(t[..k]), Val(t[k..]), Val(n), m, Val(z[..k]), Val(z[k..]), Radix(k), Val(r));
  }

  /** Montgomery's identity. With T = tl + R*th and N*M = zl + R*zh split
      at R, and T congruent to N*M modulo R, the value hi(T) + N - hi(N*M)
      that reduce forms is (T - N*M)/R + N: it times R is congruent to T
      modulo N, it is positive, and it is below 2N when T < N*R. */
  lemma MontgomeryReduce(t: int, tl: int, th: int, nv: int, m: int, zl: int, zh: int, r: int, res: int)
    requires r > 0 && nv > 0
    requires t == tl + r * th && 0 <= tl < r
    requires nv * m == zl + r * zh && 0 <= zl < r
    requires ModEq(tl, nv * m, r)
    requires res == th + nv - zh
    ensures res * r == t - nv * m + nv * r
    ensures ModEq(res * r, t, nv)
    ensures 0 <= m < r && t >= 0 ==> 0 < res && res * r <= t + nv * r
    ensures 0 <= m < r && 0 <= t < nv * r ==> res < 2 * nv
  {
    MultipleOf(zh, r);
    assert nv * m - zl == zh * r;
    ModEqTrans(tl, nv * m, zl, r);
    ModEqIsMod(tl, zl, r);
    ModEqIsMod(zl, zl, r);
    ReduceExact(t, tl, th, nv, m, zh, r, res);
    MultipleOf(r - m, nv);
    if 0 <= m < r && t >= 0 {
      ReduceBounds(t, nv, m, r, res);
    }
  }

  lemma ReduceExact(t: int, l: int, th: int, nv: int, m: int, zh: int, r: int, res: int)
    requires t == l + r * th && nv * m == l + r * zh && res == th + nv - zh
    ensures res * r == t - nv * m + nv * r
    ensures res * r - t == (r - m) * nv
  {
    assert res * r == th * r + nv * r - zh * r;
  }

  lemma ReduceBounds(t: int, nv: int, m: int, r: int, res: int)
    requires r > 0 && nv > 0 && 0 <= m < r && t >= 0
    requires res * r == t - nv * m + nv * r
    ensures 0 < res && res * r <= t + nv * r
    ensures t < nv * r ==> res < 2 * nv
  {
    MulStrictRight(nv, 0, r - m);
    MulMonoRight(nv, r - m, r);
    if res <= 0 {
      MulMonoRight(r, res, 0);
      assert false;
    }
    if t < nv * r && res >= 2 * nv {
      MulMonoRight(r, 2 * nv, res);
      assert false;
    }
  }
}
