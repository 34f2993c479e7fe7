/** The Karatsuba family of FF on limb values: each function follows the
    window operations of its routine step by step (the half sums, the
    recursive products, the subtractions of the workspace, the carry
    passes), with the workspace and output windows as values. */
module Karatsuba {
  import opened Arith
  import opened Limbs
  import opened Windows

  /** n is 1, 2, 4, 8, ...: the lengths the Karatsuba recursion halves. */
  predicate PowerOfTwo(n: int)
    decreases n
  {
    n == 1 || (n >= 2 && n % 2 == 0 && PowerOfTwo(n / 2))
  }

  /** Karatsuba's identity: with r = Radix(n/2), the three half-size products
      x0*y0, x1*y1 and (x0+x1)*(y0+y1) give the full product. */
  lemma Identity(x0: int, x1: int, y0: int, y1: int, r: int, rn: int, m: int)
    requires rn == r * r && m == (x0 + x1) * (y0 + y1) - x0 * y0 - x1 * y1
    ensures x0 * y0 + rn * (x1 * y1) + r * m == (x0 + r * x1) * (y0 + r * y1)
  {
    assert m == x0 * y1 + x1 * y0;
  }

  /** The squaring identity karsqr uses: the cross product counted twice. */
  lemma SquareIdentity(x0: int, x1: int, r: int, rn: int)
    requires rn == r * r
    ensures x0 * x0 + rn * (x1 * x1) + r * (2 * (x0 * x1)) == (x0 + r * x1) * (x0 + r * x1)
  {
  }

  /** A double-length product d as the two limbs DBIG.split leaves: the
      low limb a digit, the high limb the rest. */
  function Split(d: int): (r: seq<int>)
    ensures |r| == 2 && Normed(r) && Val(r) == d
  {
    var r := [d % BASE, d / BASE];
    assert r[1..] == [d / BASE];
    ValSingle(d / BASE);
    r
  }

  lemma ValOne(x: seq<int>)
    requires |x| == 1
    ensures Val(x) == x[0]
  {
    assert x == [x[0]];
    ValSingle(x[0]);
  }

  /** karmul: the 2n-limb product of two n-limb windows, normalised. */
  function KarMul(x: seq<int>, y: seq<int>): (r: seq<int>)
    requires |x| == |y| && PowerOfTwo(|x|)
    ensures |r| == 2 * |x| && Normed(r)
    ensures Val(r) == Val(x) * Val(y)
    decreases |x|
  {
    var n := |x|;
    if n == 1 then
      ValOne(x);
      ValOne(y);
      Split(x[0] * y[0])
    else
      var h := n / 2;
      assert n == h + h;
      // radd then rnorm of the half sums, in the output window
      var a := HalfSum(x, h);
      var b := HalfSum(y, h);
      // their product in the workspace, the outer products in the output
      MulJoin(x, y, h, n, a, b, KarMul(a, b), KarMul(x[..h], y[..h]), KarMul(x[h..], y[h..]))
  }

  /** The combination step of karmul: the middle term formed in the
      workspace by two rdec, added in at limb h by rinc, and the whole
      2n-limb window carry-normalised. */
  function MulJoin(x: seq<int>, y: seq<int>, h: nat, n: nat, a: seq<int>, b: seq<int>,
                   m: seq<int>, lo: seq<int>, hi: seq<int>): (r: seq<int>)
    requires 0 < h && n == h + h && |x| == n && |y| == n && |a| == h
    requires Val(a) == Val(x[..h]) + Val(x[h..]) && Val(b) == Val(y[..h]) + Val(y[h..])
    requires |m| == 2 * |a| && Val(m) == Val(a) * Val(b)
    requires |lo| == 2 * |x[..h]| && Val(lo) == Val(x[..h]) * Val(y[..h])
    requires |hi| == 2 * |x[h..]| && Val(hi) == Val(x[h..]) * Val(y[h..])
    ensures |r| == 2 * n && Normed(r) && Val(r) == Val(x) * Val(y)
  {
    var mid := Minus(Minus(m, lo), hi);
    var s := AddAt(lo + hi, h, mid);
    ValAppendAt(lo, hi, n);
    RadixDouble(h, n);
    ValSplit(x, h);
    ValSplit(y, h);
    Combine(Val(x[..h]), Val(x[h..]), Val(y[..h]), Val(y[h..]), Radix(h), Radix(n),
            Val(a), Val(b), Val(lo), Val(hi), Val(mid), Val(lo + hi), Val(s), Val(x), Val(y));
    Carry(s)
  }

  lemma RadixDouble(h: nat, n: nat)
    requires n == h + h
    ensures Radix(n) == Radix(h) * Radix(h)
  {
    RadixAdd(h, h);
  }

  /** radd then rnorm of the two halves of an n-limb window. */
  function HalfSum(x: seq<int>, h: nat): (r: seq<int>)
    requires 0 < h && |x| == h + h
    ensures |r| == h && Normed(r) && Val(r) == Val(x[..h]) + Val(x[h..])
  {
    Carry(Plus(x[..h], x[h..]))
  }

  lemma Combine(x0: int, x1: int, y0: int, y1: int, rh: int, rn: int,
                a: int, b: int, lo: int, hi: int, mid: int, z: int, s: int, vx: int, vy: int)
    requires rn == rh * rh && lo == x0 * y0 && hi == x1 * y1
    requires a == x0 + x1 && b == y0 + y1 && mid == a * b - lo - hi
    requires z == lo + rn * hi && s == z + rh * mid
    requires vx == x0 + rh * x1 && vy == y0 + rh * y1
    ensures s == vx * vy
  {
    Identity(x0, x1, y0, y1, rh, rn, mid);
  }

  /** karsqr: the 2n-limb square of an n-limb window; the low n limbs are
      left as digits, the high half may hold an unpropagated carry. */
  function KarSqr(x: seq<int>): (r: seq<int>)
    requires PowerOfTwo(|x|)
    ensures |r| == 2 * |x| && Digits(r[..|x|])
    ensures Val(r) == Val(x) * Val(x)
    decreases |x|
  {
    var n := |x|;
    if n == 1 then
      SqrLeaf(x)
    else
      var h := n / 2;
      assert n == h + h;
      SqrJoin(x, h, n, KarSqr(x[..h]), KarSqr(x[h..]), KarMul(x[..h], x[h..]))
  }

  /** The n == 1 case of karsqr: one BIG squared, split into two limbs. */
  function SqrLeaf(x: seq<int>): (r: seq<int>)
    requires |x| == 1
    ensures |r| == 2 && Digits(r[..1]) && Val(r) == Val(x) * Val(x)
  {
    ValOne(x);
    var r := Split(x[0] * x[0]);
    assert IsDigit(r[..1][0]);
    r
  }

  /** The combination step of karsqr: the two half squares side by side in
      the output, the cross product (formed in the workspace) added twice at
      limb h, and the window [h, h+n) carry-normalised. */
  function SqrJoin(x: seq<int>, h: nat, n: nat, lo: seq<int>, hi: seq<int>, m: seq<int>): (r: seq<int>)
    requires 0 < h && n == h + h && |x| == n
    requires |lo| == 2 * |x[..h]| && Digits(lo[..|x[..h]|]) && Val(lo) == Val(x[..h]) * Val(x[..h])
    requires |hi| == 2 * |x[h..]| && Val(hi) == Val(x[h..]) * Val(x[h..])
    requires |m| == 2 * |x[..h]| && Val(m) == Val(x[..h]) * Val(x[h..])
    ensures |r| == 2 * n && Digits(r[..n]) && Val(r) == Val(x) * Val(x)
  {
    var s := AddAt(AddAt(lo + hi, h, m), h, m);
    var r := NormAt(s, h, n);
    ValAppendAt(lo, hi, n);
    RadixDouble(h, n);
    ValSplit(x, h);
    SquareCombine(Val(x[..h]), Val(x[h..]), Radix(h), Radix(n), Val(lo), Val(hi), Val(m), Val(lo + hi), Val(s), Val(x));
    assert |x[..h]| == h;
    SqrDigits(lo, hi, m, s, r, h, n);
    r
  }

  lemma SquareCombine(x0: int, x1: int, rh: int, rn: int, lo: int, hi: int, m: int, z: int, s: int, vx: int)
    requires rn == rh * rh && lo == x0 * x0 && hi == x1 * x1 && m == x0 * x1
    requires z == lo + rn * hi && s == z + rh * m + rh * m
    requires vx == x0 + rh * x1
    ensures s == vx * vx
  {
    SquareIdentity(x0, x1, rh, rn);
  }

  /** The low n limbs of karsqr's result: the low half of the low square,
      then the digits the final carry pass leaves below its top limb. */
  lemma SqrDigits(lo: seq<int>, hi: seq<int>, m: seq<int>, s: seq<int>, r: seq<int>, h: nat, n: nat)
    requires n == h + h && h > 0 && |lo| == n && |hi| == n && |m| == n && Digits(lo[..h])
    requires s == AddAt(AddAt(lo + hi, h, m), h, m)
    requires r == NormAt(s, h, n)
    ensures Digits(r[..n])
  {
    assert (lo + hi)[..h] == lo[..h];
    assert s[..h] == lo[..h];
    NormDigits(s, h, n);
  }

  /** Digits below limb h, then a carry pass over [h, h+n): the low n limbs
      are digits. */
  lemma NormDigits(s: seq<int>, h: nat, n: nat)
    requires 0 < h <= n && h + n <= |s| && Digits(s[..h])
    ensures Digits(NormAt(s, h, n)[..n])
  {
    var r := NormAt(s, h, n);
    assert r[..h] == s[..h];
    forall i | 0 <= i < n
      ensures IsDigit(r[..n][i])
    {
      if i < h {
        assert r[i] == s[..h][i];
      } else {
        assert r[i] == r[h..h + n][i - h];
      }
    }
  }

  /** BIG.smul: the low BIG of a product of two BIGs. */
  function SMul(a: int, b: int): (r: int)
    ensures IsDigit(r) && ModEq(r, a * b, BASE)
  {
    ModEqMod(a * b, BASE);
    (a * b) % BASE
  }

  /** karmul_lower: the low n limbs of the product, as digits. */
  function KarMulLower(x: seq<int>, y: seq<int>): (r: seq<int>)
    requires |x| == |y| && PowerOfTwo(|x|)
    ensures |r| == |x| && Digits(r)
    ensures Val(r) == (Val(x) * Val(y)) % Radix(|x|)
    decreases |x|
  {
    var n := |x|;
    if n == 1 then
      LowLeaf(x, y)
    else
      var h := n / 2;
      assert n == h + h;
      LowJoin(x, y, h, n, KarMul(x[..h], y[..h]), KarMulLower(x[h..], y[..h]), KarMulLower(x[..h], y[h..]))
  }

  /** The n == 1 case of karmul_lower: one smul. */
  function LowLeaf(x: seq<int>, y: seq<int>): (r: seq<int>)
    requires |x| == 1 && |y| == 1
    ensures |r| == 1 && Digits(r) && Val(r) == (Val(x) * Val(y)) % Radix(1)
  {
    ValOne(x);
    ValOne(y);
    var r := [SMul(x[0], y[0])];
    ValOne(r);
    assert Radix(1) == BASE;
    ModEqIsMod(r[0], x[0] * y[0], BASE);
    r
  }

  /** The combination step of karmul_lower: the low product x0*y0 in full,
      the two cross products modulo Radix(h) added in at limb h (formed in
      the workspace, added by rinc), and the high half truncated. */
  function LowJoin(x: seq<int>, y: seq<int>, h: nat, n: nat, lo: seq<int>, t1: seq<int>, t2: seq<int>): (r: seq<int>)
    requires 0 < h && n == h + h && |x| == n && |y| == n
    requires |lo| == 2 * |x[..h]| && Normed(lo) && Val(lo) == Val(x[..h]) * Val(y[..h])
    requires |t1| == |x[h..]| && Val(t1) == (Val(x[h..]) * Val(y[..h])) % Radix(|x[h..]|)
    requires |t2| == |x[..h]| && Val(t2) == (Val(x[..h]) * Val(y[h..])) % Radix(|x[..h]|)
    ensures |r| == n && Digits(r) && Val(r) == (Val(x) * Val(y)) % Radix(n)
  {
    assert |x[..h]| == h && |x[h..]| == h;
    var s := AddAt(AddAt(lo, h, t1), h, t2);
    var r := TruncAt(s, h, h);
    assert s[..h] == lo[..h] && r[..h] == lo[..h];
    assert Digits(r[..h]) by {
      forall i | 0 <= i < h
        ensures IsDigit(r[..h][i])
      {
        assert r[..h][i] == lo[i];
      }
    }
    DigitsJoin(r, h, n);
    ValSplit(r, h);
    ValSplit(s, h);
    assert r[h..] == r[h..h + h] && s[h..] == s[h..h + h];
    DigitsBound(lo[..h]);
    RadixDouble(h, n);
    ValSplit(x, h);
    ValSplit(y, h);
    LowCombine(Val(x[..h]), Val(x[h..]), Val(y[..h]), Val(y[h..]), Radix(h), Radix(n),
               Val(lo[..h]), Val(s[h..]), Val(t1), Val(t2), Val(x), Val(y));
    r
  }

  /** Two digit windows side by side. */
  lemma DigitsJoin(r: seq<int>, h: nat, n: nat)
    requires h <= n == |r| && Digits(r[..h]) && Digits(r[h..n])
    ensures Digits(r)
  {
    forall i | 0 <= i < n
      ensures IsDigit(r[i])
    {
      if i < h {
        assert r[i] == r[..h][i];
      } else {
        assert r[i] == r[h..n][i - h];
      }
    }
  }

  /** The arithmetic of karmul_lower: with the low half l0 of x0*y0 kept and
      the high window w truncated, the result is x*y modulo Radix(n). */
  lemma LowCombine(x0: int, x1: int, y0: int, y1: int, rh: int, rn: int,
                   l0: int, w: int, t1: int, t2: int, vx: int, vy: int)
    requires rh > 0 && rn == rh * rh && 0 <= l0 < rh
    requires l0 + rh * w == x0 * y0 + rh * t1 + rh * t2
    requires t1 == (x1 * y0) % rh && t2 == (x0 * y1) % rh
    requires vx == x0 + rh * x1 && vy == y0 + rh * y1
    ensures l0 + rh * (w % rh) == (vx * vy) % rn
  {
    DivModSplit(w, rh);
    DivModSplit(x1 * y0, rh);
    DivModSplit(x0 * y1, rh);
    TwoDigits(l0, w % rh, rh, rn);
    LowIdentity(x0, x1, y0, y1, rh, rn, l0, w, t1, t2, vx, vy, w / rh, (x1 * y0) / rh, (x0 * y1) / rh, w % rh);
    DivModUnique(vx * vy, rn, w / rh + (x1 * y0) / rh + (x0 * y1) / rh + x1 * y1, l0 + rh * (w % rh));
  }

  lemma DivModSplit(a: int, m: int)
    requires m > 0
    ensures a == m * (a / m) + a % m && 0 <= a % m < m
  {
  }

  /** Two digits base rh make a number below rh*rh. */
  lemma TwoDigits(l: int, u: int, rh: int, rn: int)
    requires 0 <= l < rh && 0 <= u < rh && rn == rh * rh
    ensures 0 <= l + rh * u < rn
  {
    MulMonoRight(rh, u, rh - 1);
    assert rh * (rh - 1) == rn - rh;
  }

  lemma LowIdentity(x0: int, x1: int, y0: int, y1: int, rh: int, rn: int, l0: int, w: int,
                    t1: int, t2: int, vx: int, vy: int, qw: int, q1: int, q2: int, rw: int)
    requires rn == rh * rh
    requires l0 + rh * w == x0 * y0 + rh * t1 + rh * t2
    requires w == rh * qw + rw && x1 * y0 == rh * q1 + t1 && x0 * y1 == rh * q2 + t2
    requires vx == x0 + rh * x1 && vy == y0 + rh * y1
    ensures vx * vy == (qw + q1 + q2 + x1 * y1) * rn + (l0 + rh * rw)
  {
  }

  /** karmul_upper: the full product x*y, given a vector z whose low n limbs
      already hold x*y modulo Radix(n) (in Montgomery reduction, the low
      half of the number being reduced). The half sums fill the high half
      of z, their product goes to the workspace, x1*y1 then fills the high
      half; the low half is turned into x0*y0 by rinc, rdec and a truncating
      rnorm, and the middle term is added in at limb h. The low n limbs of
      the result are digits, so they hold x*y modulo Radix(n) and the high
      half holds x*y divided by Radix(n). */
  function KarMulUpper(z: seq<int>, x: seq<int>, y: seq<int>): (r: seq<int>)
    requires |x| == |y| && PowerOfTwo(|x|) && |x| >= 2 && |z| == 2 * |x|
    requires Digits(x[..|x| / 2]) && Digits(y[..|x| / 2])
    requires ModEq(Val(z[..|x|]), Val(x) * Val(y), Radix(|x|))
    ensures |r| == 2 * |x| && Digits(r[..|x|]) && Val(r) == Val(x) * Val(y)
  {
    var n := |x|;
    var h := n / 2;
    assert n == h + h;
    var x0 := x[..h];
    var x1 := x[h..];
    var y0 := y[..h];
    var y1 := y[h..];
    assert x0 + x1 == x && y0 + y1 == y && z[..h] + z[h..n] == z[..n];
    // radd(n, x, 0, x, h, h) and radd(n+h, y, 0, y, h, h)
    var xs := Plus(x0, x1);
    var ys := Plus(y0, y1);
    // t.karmul(0, this, n+h, this, n, ..): (y0+y1)*(x0+x1) in the workspace
    // karmul(n, x, h, y, h, ..): x1*y1 over the high half
    UpperJoin(x0, x1, y0, y1, h, n, z[..h], z[h..n], xs, ys, KarMul(ys, xs), KarMul(x1, y1))
  }

  /** The rest of karmul_upper, from the halves of z, the workspace product
      t and the high product hi. */
  function UpperJoin(x0: seq<int>, x1: seq<int>, y0: seq<int>, y1: seq<int>, h: nat, n: nat,
                     z0: seq<int>, z1: seq<int>, xs: seq<int>, ys: seq<int>, t: seq<int>, hi: seq<int>): (r: seq<int>)
    requires 0 < h && n == h + h && |x0| == h && |x1| == h && |y0| == h && |y1| == h && |z0| == h && |z1| == h
    requires |t| == n && |hi| == n && Digits(x0) && Digits(y0)
    requires ModEq(Val(z0 + z1), Val(x0 + x1) * Val(y0 + y1), Radix(n))
    requires |xs| == h && |ys| == h && Val(xs) == Val(x0) + Val(x1) && Val(ys) == Val(y0) + Val(y1) && Val(t) == Val(ys) * Val(xs)
    requires Val(hi) == Val(x1) * Val(y1)
    ensures |r| == 2 * n && Digits(r[..n]) && Val(r) == Val(x0 + x1) * Val(y0 + y1)
  {
    UpperSound(x0, x1, y0, y1, h, n, z0, z1, xs, ys, t, hi);
    UpperSteps(h, n, z0, z1, t, hi)
  }

  /** The limb steps of karmul_upper after the two products. */
  function UpperSteps(h: nat, n: nat, z0: seq<int>, z1: seq<int>, t: seq<int>, hi: seq<int>): seq<int>
    requires 0 < h && n == h + h && |z0| == h && |z1| == h && |t| == n && |hi| == n
  {
    // t.rdec(0, this, n, n): the workspace less x1*y1
    var t2 := Minus(t, hi);
    // rinc(h, this, 0, h), rdec(h, t, 0, h), rnorm(0, -n): x0*y0 in the low half
    var lo6 := Trunc(SubAt(AddAt(z0 + z1, h, z0), h, t2[..h]));
    // t.rdec(0, this, 0, n): the middle term; rinc(h, t, 0, n); rnorm(h, n)
    NormAt(AddAt(lo6 + hi, h, Minus(t2, lo6)), h, n)
  }

  lemma {:induction false} UpperSound(x0: seq<int>, x1: seq<int>, y0: seq<int>, y1: seq<int>, h: nat, n: nat,
                                      z0: seq<int>, z1: seq<int>, xs: seq<int>, ys: seq<int>, t: seq<int>, hi: seq<int>)
    requires 0 < h && n == h + h && |x0| == h && |x1| == h && |y0| == h && |y1| == h && |z0| == h && |z1| == h
    requires |t| == n && |hi| == n && Digits(x0) && Digits(y0)
    requires ModEq(Val(z0 + z1), Val(x0 + x1) * Val(y0 + y1), Radix(n))
    requires |xs| == h && |ys| == h && Val(xs) == Val(x0) + Val(x1) && Val(ys) == Val(y0) + Val(y1) && Val(t) == Val(ys) * Val(xs)
    requires Val(hi) == Val(x1) * Val(y1)
    ensures var r := UpperSteps(h, n, z0, z1, t, hi);
      |r| == 2 * n && Digits(r[..n]) && Val(r) == Val(x0 + x1) * Val(y0 + y1)
  {
    var t2 := Minus(t, hi);
    var lo6 := Trunc(SubAt(AddAt(z0 + z1, h, z0), h, t2[..h]));
    var t3 := Minus(t2, lo6);
    var s := AddAt(lo6 + hi, h, t3);
    UpperVal(x0, x1, y0, y1, h, n, z0, z1, xs, ys, t, hi, t2, lo6);
    UpperFinal(x0, x1, y0, y1, h, n, xs, ys, t, hi, t2, lo6, t3, s);
    UpperDigits(lo6, hi, t3, s, h, n);
  }

  /** The low half after rinc, rdec and the truncating rnorm is x0*y0. */
  lemma {:induction false} UpperVal(x0: seq<int>, x1: seq<int>, y0: seq<int>, y1: seq<int>, h: nat, n: nat,
                                    z0: seq<int>, z1: seq<int>, xs: seq<int>, ys: seq<int>, t: seq<int>, hi: seq<int>, t2: seq<int>, lo6: seq<int>)
    requires 0 < h && n == h + h && |x0| == h && |x1| == h && |y0| == h && |y1| == h && |z0| == h && |z1| == h
    requires |t| == n && |hi| == n && Digits(x0) && Digits(y0)
    requires ModEq(Val(z0 + z1), Val(x0 + x1) * Val(y0 + y1), Radix(n))
    requires |xs| == h && |ys| == h && Val(xs) == Val(x0) + Val(x1) && Val(ys) == Val(y0) + Val(y1) && Val(t) == Val(ys) * Val(xs)
    requires Val(hi) == Val(x1) * Val(y1)
    requires t2 == Minus(t, hi) && lo6 == Trunc(SubAt(AddAt(z0 + z1, h, z0), h, t2[..h]))
    ensures Val(lo6) == Val(x0) * Val(y0)
  {
    var s4 := AddAt(z0 + z1, h, z0);
    var s5 := SubAt(s4, h, t2[..h]);
    UpperLinear(x0, x1, y0, y1, h, n, z0, z1, t, hi, t2, s4, s5, lo6);
    UpperLow(Val(x0), Val(x1), Val(y0), Val(y1), Radix(h), Radix(n),
             Val(z0 + z1), Val(z0), Val(z1), Val(xs), Val(ys), Val(t), Val(hi), Val(t2),
             Val(t2[..h]), Val(t2[h..]), Val(x0 + x1), Val(y0 + y1), Val(s4), Val(s5), Val(lo6));
  }

  /** The linear relations between the limb vectors of karmul_upper's low
      half. */
  lemma {:induction false} UpperLinear(x0: seq<int>, x1: seq<int>, y0: seq<int>, y1: seq<int>, h: nat, n: nat,
                                       z0: seq<int>, z1: seq<int>, t: seq<int>, hi: seq<int>,
                                       t2: seq<int>, s4: seq<int>, s5: seq<int>, lo6: seq<int>)
    requires 0 < h && n == h + h && |x0| == h && |y0| == h && |z0| == h && |z1| == h
    requires |t| == n && |hi| == n && Digits(x0) && Digits(y0)
    requires t2 == Minus(t, hi) && s4 == AddAt(z0 + z1, h, z0) && s5 == SubAt(s4, h, t2[..h]) && lo6 == Trunc(s5)
    ensures Radix(h) > 0 && Radix(n) == Radix(h) * Radix(h)
    ensures 0 <= Val(x0) < Radix(h) && 0 <= Val(y0) < Radix(h)
    ensures Val(x0 + x1) == Val(x0) + Radix(h) * Val(x1) && Val(y0 + y1) == Val(y0) + Radix(h) * Val(y1)
    ensures Val(z0 + z1) == Val(z0) + Radix(h) * Val(z1)
    ensures Val(t2) == Val(t) - Val(hi) && Val(t2) == Val(t2[..h]) + Radix(h) * Val(t2[h..])
    ensures Val(s4) == Val(z0 + z1) + Radix(h) * Val(z0) && Val(s5) == Val(s4) - Radix(h) * Val(t2[..h])
    ensures Val(lo6) == Val(s5) % Radix(n)
  {
    ValAppendAt(x0, x1, h);
    ValAppendAt(y0, y1, h);
    ValAppendAt(z0, z1, h);
    ValSplit(t2, h);
    RadixDouble(h, n);
    DigitsBound(x0);
    DigitsBound(y0);
  }

  /** The arithmetic of the low half of karmul_upper. */
  lemma UpperLow(a0: int, a1: int, b0: int, b1: int, rh: int, rn: int,
                 l: int, zlo: int, zhi: int, sa: int, sb: int, t: int, hi: int, t2: int, tlo: int, thi: int,
                 vx: int, vy: int, s4: int, s5: int, lo6: int)
    requires rh > 0 && rn == rh * rh && 0 <= a0 < rh && 0 <= b0 < rh
    requires vx == a0 + rh * a1 && vy == b0 + rh * b1 && ModEq(l, vx * vy, rn)
    requires l == zlo + rh * zhi
    requires sa == a0 + a1 && sb == b0 + b1 && t == sb * sa && hi == a1 * b1 && t2 == t - hi && t2 == tlo + rh * thi
    requires s4 == l + rh * zlo && s5 == s4 - rh * tlo && lo6 == s5 % rn
    ensures lo6 == a0 * b0
  {
    var k := (l - vx * vy) / rn;
    DivModSplit(l - vx * vy, rn);
    UpperIdentity(a0, a1, b0, b1, rh, rn, l, zlo, zhi, tlo, thi, vx, vy, s5, k);
    ProductBound(a0, b0, rh, rn);
    DivModUnique(s5, rn, (a1 * b1 + k) * rh + a0 * b1 + a1 * b0 - zhi + a1 * b1 + k + thi, a0 * b0);
  }

  /** Two numbers below r have a product below r*r. */
  lemma ProductBound(a: int, b: int, r: int, rr: int)
    requires 0 <= a < r && 0 <= b < r && rr == r * r
    ensures 0 <= a * b < rr
  {
    MulMonoRight(a, b, r - 1);
    MulMonoRight(r, a, r - 1);
    MulNonneg(a, b);
  }

  lemma UpperIdentity(a0: int, a1: int, b0: int, b1: int, rh: int, rn: int,
                      l: int, zlo: int, zhi: int, tlo: int, thi: int, vx: int, vy: int, s5: int, k: int)
    requires rn == rh * rh
    requires vx == a0 + rh * a1 && vy == b0 + rh * b1 && l - vx * vy == rn * k
    requires l == zlo + rh * zhi
    requires tlo + rh * thi == (b0 + b1) * (a0 + a1) - a1 * b1
    requires s5 == l + rh * zlo - rh * tlo
    ensures s5 == ((a1 * b1 + k) * rh + a0 * b1 + a1 * b0 - zhi + a1 * b1 + k + thi) * rn + a0 * b0
  {
    var p, mid, q := a0 * b0, a0 * b1 + a1 * b0, a1 * b1;
    Identity(a0, a1, b0, b1, rh, rn, mid);
    assert l == p + rh * mid + rn * (q + k);
    Shifted(rh, rn, l, zlo, zhi, tlo, thi, p, mid, q, k, s5);
  }

  lemma Shifted(rh: int, rn: int, l: int, zlo: int, zhi: int, tlo: int, thi: int,
                p: int, mid: int, q: int, k: int, s5: int)
    requires rn == rh * rh && l == p + rh * mid + rn * (q + k) && l == zlo + rh * zhi
    requires tlo + rh * thi == p + mid && s5 == l + rh * zlo - rh * tlo
    ensures s5 == ((q + k) * rh + mid - zhi + q + k + thi) * rn + p
  {
    ScaleSum(rh, rn, zlo, l, zhi);
    ScaleSum(rh, rn, tlo, p + mid, thi);
    ScaleLow(rh, rn, l, p, mid, q + k);
  }

  /** r*a where a + r*b == c. */
  lemma ScaleSum(r: int, rn: int, a: int, c: int, b: int)
    requires rn == r * r && a + r * b == c
    ensures r * a == r * c - rn * b
  {
  }

  lemma ScaleLow(rh: int, rn: int, l: int, p: int, mid: int, u: int)
    requires rn == rh * rh && l == p + rh * mid + rn * u
    ensures rh * l == rh * p + rn * mid + (rn * u) * rh
  {
  }

  /** With x0*y0 in the low half, the middle term added at limb h completes
      the product. */
  lemma {:induction false} UpperFinal(x0: seq<int>, x1: seq<int>, y0: seq<int>, y1: seq<int>, h: nat, n: nat,
                                      xs: seq<int>, ys: seq<int>, t: seq<int>, hi: seq<int>, t2: seq<int>, lo6: seq<int>, t3: seq<int>, s: seq<int>)
    requires 0 < h && n == h + h && |x0| == h && |y0| == h && |t| == n && |hi| == n && |lo6| == n
    requires |xs| == h && |ys| == h && Val(xs) == Val(x0) + Val(x1) && Val(ys) == Val(y0) + Val(y1) && Val(t) == Val(ys) * Val(xs)
    requires Val(hi) == Val(x1) * Val(y1)
    requires Val(lo6) == Val(x0) * Val(y0)
    requires t2 == Minus(t, hi) && t3 == Minus(t2, lo6) && s == AddAt(lo6 + hi, h, t3)
    ensures Val(s) == Val(x0 + x1) * Val(y0 + y1)
  {
    UpperTop(x0, x1, y0, y1, h, n, t, hi, t2, lo6, t3, s);
    UpperCombine(Val(x0), Val(x1), Val(y0), Val(y1), Radix(h), Radix(n),
                 Val(xs), Val(ys), Val(t), Val(hi), Val(lo6), Val(t2), Val(t3), Val(lo6 + hi), Val(s), Val(x0 + x1), Val(y0 + y1));
  }

  /** The linear relations between the limb vectors of karmul_upper's last
      steps. */
  lemma {:induction false} UpperTop(x0: seq<int>, x1: seq<int>, y0: seq<int>, y1: seq<int>, h: nat, n: nat,
                                    t: seq<int>, hi: seq<int>, t2: seq<int>, lo6: seq<int>, t3: seq<int>, s: seq<int>)
    requires 0 < h && n == h + h && |x0| == h && |y0| == h && |t| == n && |hi| == n && |lo6| == n
    requires t2 == Minus(t, hi) && t3 == Minus(t2, lo6) && s == AddAt(lo6 + hi, h, t3)
    ensures Radix(n) == Radix(h) * Radix(h)
    ensures Val(x0 + x1) == Val(x0) + Radix(h) * Val(x1) && Val(y0 + y1) == Val(y0) + Radix(h) * Val(y1)
    ensures Val(t2) == Val(t) - Val(hi) && Val(t3) == Val(t2) - Val(lo6)
    ensures Val(lo6 + hi) == Val(lo6) + Radix(n) * Val(hi) && Val(s) == Val(lo6 + hi) + Radix(h) * Val(t3)
  {
    ValAppendAt(lo6, hi, n);
    RadixDouble(h, n);
    ValAppendAt(x0, x1, h);
    ValAppendAt(y0, y1, h);
  }

  /** The arithmetic of the end of karmul_upper. */
  lemma UpperCombine(a0: int, a1: int, b0: int, b1: int, rh: int, rn: int,
                     sa: int, sb: int, t: int, hi: int, lo6: int, t2: int, t3: int, z: int, s: int, vx: int, vy: int)
    requires rn == rh * rh && hi == a1 * b1 && lo6 == a0 * b0
    requires sa == a0 + a1 && sb == b0 + b1 && t == sb * sa && t2 == t - hi && t3 == t2 - lo6
    requires z == lo6 + rn * hi && s == z + rh * t3
    requires vx == a0 + rh * a1 && vy == b0 + rh * b1
    ensures s == vx * vy
  {
    Identity(a0, a1, b0, b1, rh, rn, t3);
  }

  /** The final carry pass leaves the low n limbs as digits. */
  lemma UpperDigits(lo6: seq<int>, hi: seq<int>, t3: seq<int>, s: seq<int>, h: nat, n: nat)
    requires 0 < h && n == h + h && |lo6| == n && |hi| == n && |t3| == n && Digits(lo6)
    requires s == AddAt(lo6 + hi, h, t3)
    ensures Digits(NormAt(s, h, n)[..n])
  {
    assert (lo6 + hi)[..h] == lo6[..h] && s[..h] == lo6[..h];
    NormDigits(s, h, n);
  }
}
