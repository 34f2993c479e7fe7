/** The number theory behind igcd, cfactor, invmodp and prime: Java's
    truncating remainder, how the greatest common divisor survives the
    subtractions and halvings of the binary algorithms, uniqueness of the
    modular inverse, and the Miller-Rabin condition for one base. */
module NumberTheory {
  import opened Arith

  /** Java's int remainder a % b: it truncates towards zero, so the result
      takes the sign of a, and its magnitude is |a| mod |b|. */
  function JavaRem(a: int, b: int): (r: int)
    requires b != 0
    ensures Abs(r) == Abs(a) % Abs(b) && Abs(r) < Abs(b)
    ensures a >= 0 ==> r >= 0
    ensures a < 0 ==> r <= 0
  {
    if a >= 0 then a % Abs(b) else -((-a) % Abs(b))
  }

  /* ---------------- gcd ---------------- */

  lemma GcdComm(a: nat, b: nat)
    ensures Gcd(a, b) == Gcd(b, a)
  {
    if a < b {
      GcdSwap(a, b);
    } else if b < a {
      GcdSwap(b, a);
    }
  }

  /** One step of Euclid puts the larger argument first. */
  lemma GcdSwap(a: nat, b: nat)
    requires a < b
    ensures Gcd(a, b) == Gcd(b, a)
  {
    assert a % b == a;
  }

  /** Subtracting s from x >= s leaves the gcd with s alone. */
  lemma GcdSubtract(x: nat, s: nat)
    requires 0 < s <= x
    ensures Gcd(x - s, s) == Gcd(x, s)
  {
    DivModAddMul(x - s, 1, s);
  }

  /** An odd divisor of 2m divides m. */
  lemma OddDividesHalf(g: int, m: int)
    requires g % 2 == 1 && Divides(g, 2 * m)
    ensures Divides(g, m)
  {
    CancelTwo(m, g);
  }

  /** Halving an even x leaves its gcd with an odd s alone. */
  lemma GcdHalve(x: nat, s: nat)
    requires x > 0 && x % 2 == 0 && s % 2 == 1
    ensures Gcd(x / 2, s) == Gcd(x, s)
  {
    var h := x / 2;
    var g1, g2 := Gcd(h, s), Gcd(x, s);
    GcdDivides(h, s);
    GcdDivides(x, s);
    assert x == 2 * h;
    MultipleMul(h, 2, g1);
    assert x % g1 == 0;
    GcdGreatest(x, s, g1);
    DividesLe(g1, g2);
    OddDivisor(g2, s);
    OddDividesHalf(g2, h);
    GcdGreatest(h, s, g2);
    DividesLe(g2, g1);
  }

  /** A divisor of an odd number is odd. */
  lemma OddDivisor(g: int, s: int)
    requires Divides(g, s) && s % 2 == 1
    ensures g % 2 == 1
  {
    var k := s / g;
    assert s == g * k;
    ProductParity(g, k);
  }

  lemma ProductParity(g: int, k: int)
    ensures (g * k) % 2 == ((g % 2) * (k % 2)) % 2
  {
    var g2, k2 := g / 2, k / 2;
    assert g == 2 * g2 + g % 2 && k == 2 * k2 + k % 2;
    assert g * k == 2 * (2 * g2 * k2 + g2 * (k % 2) + (g % 2) * k2) + (g % 2) * (k % 2);
  }

  /** Removing any power of two from x leaves its gcd with an odd s
      alone. */
  lemma {:induction false} GcdPow2(x: nat, k: nat, s: nat)
    requires s % 2 == 1
    ensures x * Pow2(k) >= 0 && Gcd(x * Pow2(k), s) == Gcd(x, s)
  {
    MulNonneg(x, Pow2(k));
    if k > 0 {
      GcdPow2(x, k - 1, s);
      var y := x * Pow2(k - 1);
      DoubleExponent(x, k);
      if y > 0 {
        DivModUnique(2 * y, 2, y, 0);
        GcdHalve(2 * y, s);
      }
    }
  }

  /** Halving the even one of a coprime pair keeps it coprime. */
  lemma CoprimeHalve(u: nat, w: nat)
    requires u > 0 && u % 2 == 0 && Gcd(u, w) == 1
    ensures Gcd(u / 2, w) == 1
  {
    var h := u / 2;
    var g := Gcd(h, w);
    GcdDivides(h, w);
    assert u == 2 * h;
    MultipleMul(h, 2, g);
    GcdGreatest(u, w, g);
    DividesLe(g, 1);
  }

  /* ---------------- inverses ---------------- */

  /** A residue has at most one inverse in [0, p). */
  lemma InverseUnique(a: int, r: int, r': int, p: int)
    requires p > 0 && 0 <= r < p && 0 <= r' < p
    requires ModEq(a * r, 1, p) && ModEq(a * r', 1, p)
    ensures r == r'
  {
    ModEqRefl(r', p);
    ModEqMul(r', r', a * r, 1, p);
    ModEqRefl(r, p);
    ModEqMul(a * r', 1, r, r, p);
    assert r' * (a * r) == (a * r') * r;
    ModEqSym(r' * (a * r), r', p);
    ModEqTrans(r', (a * r') * r, r, p);
    ModEqIsMod(r', r, p);
    ModEqIsMod(r, r, p);
  }

  /* ---------------- Miller-Rabin ---------------- */

  /** Base x passes the Miller-Rabin round for p - 1 = d * 2^s: x^d is 1,
      or one of x^d, x^(2d), ..., x^(2^(s-1) d) is -1, modulo p. */
  predicate MillerRabinPass(x: int, d: nat, s: nat, p: int)
    requires p > 1
  {
    Exp(x, d) % p == 1 || exists j: nat | j < s :: Exp(x, d * Pow2(j)) % p == p - 1
  }

  /** -1 to an odd power is -1. */
  lemma {:induction false} MinusOneOdd(d: nat)
    requires d % 2 == 1
    ensures Exp(-1, d) == -1
  {
    if d > 1 {
      MinusOneOdd(d - 2);
      assert Exp(-1, d) == -1 * (-1 * Exp(-1, d - 2));
    }
  }

  /** The two bases every odd p > 2 passes: 1 and p - 1. */
  lemma TrivialBases(d: nat, s: nat, p: int)
    requires p > 2 && d % 2 == 1 && s >= 1
    ensures MillerRabinPass(1, d, s, p) && MillerRabinPass(p - 1, d, s, p)
  {
    OneToAnyPower(d);
    assert Pow2(0) == 1 && d * Pow2(0) == d;
    ModEqRefl(p - 1, p);
    assert ModEq(p - 1, -1, p);
    ModEqExp(p - 1, -1, d, p);
    MinusOneOdd(d);
    ModEqSameMod(Exp(p - 1, d), -1, p);
    DivModUnique(-1, p, -1, p - 1);
    assert Exp(p - 1, d * Pow2(0)) % p == p - 1;
  }

  lemma {:induction false} OneToAnyPower(d: nat)
    ensures Exp(1, d) == 1
  {
    if d > 0 {
      OneToAnyPower(d - 1);
    }
  }

  /** Squaring a residue modulo p: (x^m mod p)^2 mod p is x^(2m) mod p. */
  lemma SquareExpMod(x: int, m: nat, p: int)
    requires p > 0
    ensures Exp(Exp(x, m) % p, 2) % p == Exp(x, 2 * m) % p
  {
    var y := Exp(x, m);
    var r := y % p;
    ModEqMod(y, p);
    ModEqMul(r, y, r, y, p);
    ExpTwo(r);
    ExpDouble(x, m);
    ModEqSameMod(r * r, y * y, p);
  }

  lemma ExpTwo(y: int)
    ensures Exp(y, 2) == y * y
  {
    assert Exp(y, 1) == y;
  }

  /** Once x^m is 1 modulo p, so is every x^(m 2^k). */
  lemma {:induction false} StaysOne(x: int, m: nat, k: nat, p: int)
    requires p > 1 && Exp(x, m) % p == 1
    ensures m * Pow2(k) >= 0 && Exp(x, m * Pow2(k)) % p == 1
  {
    MulNonneg(m, Pow2(k));
    if k > 0 {
      StaysOne(x, m, k - 1, p);
      var m' := m * Pow2(k - 1);
      DoubleExponent(m, k);
      SquareOfOne(x, m', p);
    }
  }

  lemma SquareOfOne(x: int, m: nat, p: int)
    requires p > 1 && Exp(x, m) % p == 1
    ensures Exp(x, 2 * m) % p == 1
  {
    SquareExpMod(x, m, p);
    ExpTwo(1);
    DivModUnique(1, p, 0, 1);
  }

  lemma DoubleExponent(m: nat, k: nat)
    requires k > 0
    ensures m * Pow2(k) == 2 * (m * Pow2(k - 1))
  {
    assert Pow2(k) == 2 * Pow2(k - 1);
    MulAssoc(m, 2, Pow2(k - 1));
  }

  /** The Miller-Rabin round fails once the squares reach 1 before -1:
      x^d is not 1, none of x^(2^i d) for i < j is -1, and x^(2^j d) is 1,
      so the later ones stay 1 and are not -1 either. */
  lemma OneBeforeMinusOne(x: int, d: nat, s: nat, j: nat, p: int)
    requires p > 2 && j < s && Exp(x, d) % p != 1
    requires forall i: nat | i < j :: Exp(x, d * Pow2(i)) % p != p - 1
    requires Exp(x, d * Pow2(j)) % p == 1
    ensures !MillerRabinPass(x, d, s, p)
  {
    forall i: nat | j <= i < s
      ensures Exp(x, d * Pow2(i)) % p != p - 1
    {
      LaterPower(d, j, i);
      StaysOne(x, d * Pow2(j), i - j, p);
    }
  }

  lemma LaterPower(d: nat, j: nat, i: nat)
    requires j <= i
    ensures d * Pow2(j) >= 0 && d * Pow2(j) * Pow2(i - j) == d * Pow2(i)
  {
    MulNonneg(d, Pow2(j));
    Pow2Add(j, i - j);
    MulAssoc(d, Pow2(j), Pow2(i - j));
  }
}
