/** Integer facts the multi-precision engine relies on: powers, modular
    congruence, Euclidean division, cancellation of powers of two modulo an
    odd number, and the greatest common divisor. */
module Arith {

  /** |x|. */
  function Abs(x: int): nat
  {
    if x < 0 then -x else x
  }

  /** 2^k. */
  function Pow2(k: nat): (r: int)
    ensures r >= 1 && (k > 0 ==> r > 1 && r % 2 == 0)
  {
    if k == 0 then 1 else 2 * Pow2(k - 1)
  }

  lemma {:induction false} Pow2Add(a: nat, b: nat)
    ensures Pow2(a + b) == Pow2(a) * Pow2(b)
  {
    if a > 0 {
      Pow2Add(a - 1, b);
      assert Pow2(a + b) == 2 * Pow2(a - 1 + b);
    }
  }

  /** x^e for a natural exponent. */
  function Exp(x: int, e: nat): int
  {
    if e == 0 then 1 else x * Exp(x, e - 1)
  }

  lemma {:induction false} ExpAdd(x: int, a: nat, b: nat)
    ensures Exp(x, a + b) == Exp(x, a) * Exp(x, b)
  {
    if a > 0 {
      ExpAdd(x, a - 1, b);
      assert Exp(x, a + b) == x * Exp(x, a - 1 + b);
    }
  }

  lemma ExpDouble(x: int, k: nat)
    ensures Exp(x, 2 * k) == Exp(x, k) * Exp(x, k)
    ensures Exp(x, 2 * k + 1) == Exp(x, k) * Exp(x, k) * x
  {
    ExpAdd(x, k, k);
    ExpAdd(x, 2 * k, 1);
  }

  lemma ExpNonneg(x: int, e: nat)
    requires x >= 0
    ensures Exp(x, e) >= 0
  {
    if e > 0 {
      ExpNonneg(x, e - 1);
      MulNonneg(x, Exp(x, e - 1));
    }
  }

  lemma MulAssoc(x: int, y: int, z: int)
    ensures x * (y * z) == (x * y) * z
  {
  }

  lemma MulNonneg(a: int, b: int)
    requires a >= 0 && b >= 0
    ensures a * b >= 0
  {
  }

  lemma SquareNonneg(a: int)
    ensures a * a >= 0
  {
    if a < 0 {
      MulNonneg(-a, -a);
    } else {
      MulNonneg(a, a);
    }
  }

  lemma MulMonoRight(a: int, b: int, c: int)
    requires a >= 0 && b <= c
    ensures a * b <= a * c
  {
    assert a * c - a * b == a * (c - b);
    MulNonneg(a, c - b);
  }

  /** Distributing one place value over the rest of a number. */
  lemma PlaceShift(d: int, b: int, x: int, r: int, y: int)
    ensures d + b * (x + r * y) == d + b * x + (b * r) * y
  {
    MulAssoc(b, r, y);
  }

  /** A digit below b plus b times a number below r is below b * r. */
  lemma DigitPlace(d: int, b: int, x: int, r: int)
    requires 0 <= d < b && 0 <= x < r
    ensures 0 <= d + b * x < b * r
  {
    MulNonneg(b, x);
    MulMonoRight(b, x, r - 1);
    assert b * (r - 1) == b * r - b;
  }

  lemma MulStrictRight(a: int, b: int, c: int)
    requires a > 0 && b < c
    ensures a * b < a * c
  {
    assert a * c - a * b == a * (c - b);
    MulMonoRight(a, 1, c - b);
  }

  /* ---------------- Euclidean division ---------------- */

  /** The quotient and remainder of Euclidean division are unique. */
  lemma DivModUnique(x: int, m: int, q: int, r: int)
    requires m > 0 && 0 <= r < m && x == q * m + r
    ensures x / m == q && x % m == r
  {
    var q', r' := x / m, x % m;
    assert x == q' * m + r';
    assert (q - q') * m == r' - r;
    if q > q' {
      MulMonoRight(m, 1, q - q');
      assert false;
    } else if q < q' {
      MulMonoRight(m, 1, q' - q);
      assert false;
    }
  }

  /** x splits into its quotient and remainder by m. */
  lemma DivModParts(x: int, m: int)
    requires m > 0
    ensures x == (x / m) * m + x % m && 0 <= x % m < m
  {
  }

  lemma DivModAddMul(x: int, k: int, m: int)
    requires m > 0
    ensures (x + k * m) / m == x / m + k
    ensures (x + k * m) % m == x % m
  {
    DivModUnique(x + k * m, m, x / m + k, x % m);
  }

  /** (x % (a*b)) / a == (x / a) % b and (x % (a*b)) % a == x % a. */
  lemma ModProduct(x: int, a: int, b: int)
    requires a > 0 && b > 0
    ensures a * b > 0
    ensures x / (a * b) == (x / a) / b
    ensures x % (a * b) == a * ((x / a) % b) + x % a
  {
    MulMonoRight(a, 1, b);
    var q1, r1 := x / a, x % a;
    var q2, r2 := q1 / b, q1 % b;
    assert x == a * q1 + r1;
    assert q1 == b * q2 + r2;
    Distribute(a, b, q2, r2);
    MulMonoRight(a, r2, b - 1);
    Distribute(a, b, 1, -1);
    DivModUnique(x, a * b, q2, a * r2 + r1);
  }

  lemma Distribute(a: int, b: int, q: int, r: int)
    ensures a * (b * q + r) == q * (a * b) + a * r
  {
  }

  lemma DivMono(x: int, y: int, m: int)
    requires m > 0 && x <= y
    ensures x / m <= y / m
  {
    if x / m > y / m {
      MulMonoRight(m, y / m + 1, x / m);
      assert false;
    }
  }

  lemma DivBound(x: int, b: int, m: int)
    requires b > 0 && 0 <= x < b * m
    ensures 0 <= x / b < m
  {
    if x / b >= m {
      MulMonoRight(b, m, x / b);
      assert false;
    }
  }

  /** Reducing a natural number modulo m does not increase it. */
  lemma ModLe(x: int, m: int)
    requires x >= 0 && m > 0
    ensures 0 <= x % m <= x
  {
    DivMono(0, x, m);
    assert x == (x / m) * m + x % m;
    MulNonneg(x / m, m);
  }

  /** a multiple of m stays a multiple when multiplied. */
  lemma MultipleMul(x: int, y: int, m: int)
    requires m > 0 && x % m == 0
    ensures (x * y) % m == 0
  {
    var k := x / m;
    assert x == k * m;
    assert x * y == (k * y) * m;
    DivModUnique(x * y, m, k * y, 0);
  }

  lemma MultipleAdd(x: int, y: int, m: int)
    requires m > 0 && x % m == 0 && y % m == 0
    ensures (x + y) % m == 0 && (x - y) % m == 0
  {
    DivModUnique(x + y, m, x / m + y / m, 0);
    DivModUnique(x - y, m, x / m - y / m, 0);
  }

  lemma MultipleOf(k: int, m: int)
    requires m > 0
    ensures (k * m) % m == 0
  {
    DivModUnique(k * m, m, k, 0);
  }

  /* ---------------- congruence ---------------- */

  /** a and b are congruent modulo m. */
  predicate ModEq(a: int, b: int, m: int)
    requires m > 0
  {
    (a - b) % m == 0
  }

  lemma ModEqRefl(a: int, m: int)
    requires m > 0
    ensures ModEq(a, a, m)
  {
  }

  lemma ModEqSym(a: int, b: int, m: int)
    requires m > 0 && ModEq(a, b, m)
    ensures ModEq(b, a, m)
  {
    MultipleAdd(0, a - b, m);
  }

  lemma ModEqTrans(a: int, b: int, c: int, m: int)
    requires m > 0 && ModEq(a, b, m) && ModEq(b, c, m)
    ensures ModEq(a, c, m)
  {
    MultipleAdd(a - b, b - c, m);
  }

  lemma ModEqAdd(a: int, b: int, c: int, d: int, m: int)
    requires m > 0 && ModEq(a, b, m) && ModEq(c, d, m)
    ensures ModEq(a + c, b + d, m) && ModEq(a - c, b - d, m)
  {
    MultipleAdd(a - b, c - d, m);
    assert (a + c) - (b + d) == (a - b) + (c - d);
    assert (a - c) - (b - d) == (a - b) - (c - d);
  }

  lemma ModEqMul(a: int, b: int, c: int, d: int, m: int)
    requires m > 0 && ModEq(a, b, m) && ModEq(c, d, m)
    ensures ModEq(a * c, b * d, m)
  {
    MultipleMul(c - d, a, m);
    MultipleMul(a - b, d, m);
    assert a * c - b * d == (c - d) * a + (a - b) * d;
    MultipleAdd((c - d) * a, (a - b) * d, m);
  }

  /** x % m is congruent to x, and is the unique representative in [0, m). */
  lemma ModEqMod(x: int, m: int)
    requires m > 0
    ensures ModEq(x % m, x, m)
  {
    assert x % m - x == -(x / m) * m;
    MultipleOf(-(x / m), m);
  }

  lemma ModEqIsMod(x: int, y: int, m: int)
    requires m > 0 && ModEq(x, y, m) && 0 <= x < m
    ensures x == y % m
  {
    var k := (x - y) / m;
    assert x - y == k * m;
    DivModUnique(y, m, -k, x);
  }

  lemma ModEqSameMod(x: int, y: int, m: int)
    requires m > 0 && ModEq(x, y, m)
    ensures x % m == y % m
  {
    ModEqMod(x, m);
    ModEqSym(x % m, x, m);
    ModEqTrans(x % m, x, y, m);
    ModEqIsMod(x % m, y, m);
  }

  lemma ModEqExp(a: int, b: int, e: nat, m: int)
    requires m > 0 && ModEq(a, b, m)
    ensures ModEq(Exp(a, e), Exp(b, e), m)
  {
    if e > 0 {
      ModEqExp(a, b, e - 1, m);
      ModEqMul(a, b, Exp(a, e - 1), Exp(b, e - 1), m);
    }
  }

  /* ---------------- odd moduli and powers of two ---------------- */

  /** An odd modulus can cancel a factor of two. */
  lemma CancelTwo(d: int, m: int)
    requires m > 0 && m % 2 == 1 && (2 * d) % m == 0
    ensures d % m == 0
  {
    var q := (2 * d) / m;
    assert 2 * d == q * m;
    var h := q / 2;
    var m2 := m / 2;
    assert m == 2 * m2 + 1;
    if q % 2 == 1 {
      assert q == 2 * h + 1;
      OddProduct(h, m2);
      assert q * m == 2 * (2 * h * m2 + h + m2) + 1;
      DivModUnique(q * m, 2, 2 * h * m2 + h + m2, 1);
      DivModUnique(2 * d, 2, d, 0);
      assert false;
    }
    assert q == 2 * h;
    assert 2 * d == 2 * (h * m);
    DivModUnique(d, m, h, 0);
  }

  lemma OddProduct(h: int, m2: int)
    ensures (2 * h + 1) * (2 * m2 + 1) == 2 * (2 * h * m2 + h + m2) + 1
  {
  }

  /** An odd modulus can cancel any power of two. */
  lemma {:induction false} CancelPow2(d: int, k: nat, m: int)
    requires m > 0 && m % 2 == 1 && (d * Pow2(k)) % m == 0
    ensures d % m == 0
  {
    if k > 0 {
      assert d * Pow2(k) == 2 * (d * Pow2(k - 1));
      CancelTwo(d * Pow2(k - 1), m);
      CancelPow2(d, k - 1, m);
    }
  }

  lemma ModEqCancelPow2(a: int, b: int, k: nat, m: int)
    requires m > 0 && m % 2 == 1 && ModEq(a * Pow2(k), b * Pow2(k), m)
    ensures ModEq(a, b, m)
  {
    assert a * Pow2(k) - b * Pow2(k) == (a - b) * Pow2(k);
    CancelPow2(a - b, k, m);
  }

  /* ---------------- divisibility and gcd ---------------- */

  /** d is a positive divisor of x. */
  predicate Divides(d: int, x: int)
  {
    d > 0 && x % d == 0
  }

  /** Euclid's greatest common divisor. */
  function Gcd(a: nat, b: nat): nat
    decreases b
  {
    if b == 0 then a else Gcd(b, a % b)
  }

  lemma {:induction false} GcdDivides(a: nat, b: nat)
    requires a > 0 || b > 0
    ensures Divides(Gcd(a, b), a) && Divides(Gcd(a, b), b)
    decreases b
  {
    if b > 0 {
      GcdDivides(b, a % b);
      var g := Gcd(b, a % b);
      assert a == (a / b) * b + a % b;
      MultipleMul(b, a / b, g);
      MultipleAdd((a / b) * b, a % b, g);
    }
  }

  lemma {:induction false} GcdGreatest(a: nat, b: nat, d: int)
    requires Divides(d, a) && Divides(d, b)
    ensures Divides(d, Gcd(a, b))
    decreases b
  {
    if b > 0 {
      assert a % b == a - (a / b) * b;
      MultipleMul(b, a / b, d);
      MultipleAdd(a, (a / b) * b, d);
      GcdGreatest(b, a % b, d);
    }
  }

  lemma DividesLe(d: int, x: int)
    requires Divides(d, x) && x > 0
    ensures d <= x
  {
    var k := x / d;
    assert x == k * d;
    if k <= 0 {
      MulMonoRight(d, k, 0);
      assert false;
    }
    MulMonoRight(d, 1, k);
  }
}
