/** Large finite field arithmetic: an FF is a fixed-length vector of
    256-bit limbs (BIGs), least significant first, used for RSA-sized
    moduli. Its value is Val(v[..]). Products use Karatsuba recursion,
    reductions Montgomery's method with R = Radix(n), and exponentiations
    Montgomery ladders and square-and-multiply. */
module FiniteField {
  import opened Arith
  import opened Limbs
  import opened Windows
  import opened Karatsuba
  import opened Montgomery
  import opened Inverse
  import opened Powers
  import opened NumberTheory

  /** 2^(BASEBITS*NLEN - 256): the excess bound used by modmul. */
  const P_FEXCESS: int := 32

  /** 3*5*7*11*13*17*19: the odd primes up to 19, which prime screens
      for with cfactor. */
  const SMALL_PRIMES: int := 4849845

  /** The FF registers of skpow's ladder: the scratch this, R0 and R1. */
  datatype Register = Scratch | RZero | ROne

  /** One call a ladder rung makes, recorded by operation and registers
      only. The conditional swap is recorded without its bit. */
  datatype LadderOp =
    | CopyOp(dst: Register, src: Register)
    | ModmulOp(dst: Register, src: Register)
    | ModsqrOp(dst: Register)
    | CSwapOp

  /** The calls of one rung, in order: copy(R0), modmul(R1), cswap,
      R0.modsqr, R1.copy(this), cswap. */
  const RUNG: seq<LadderOp> :=
    [CopyOp(Scratch, RZero), ModmulOp(Scratch, ROne), CSwapOp, ModsqrOp(RZero), CopyOp(ROne, Scratch), CSwapOp]

  /** k rungs in a row. */
  function Repeat(s: seq<LadderOp>, k: nat): (r: seq<LadderOp>)
    ensures |r| == |s| * k
    ensures forall j | 0 <= j < |r| :: r[j] == s[j % |s|]
  {
    if k == 0 then []
    else
      var r := Repeat(s, k - 1) + s;
      assert |Repeat(s, k - 1)| == |s| * (k - 1) == |s| * k - |s|;
      forall j | |s| * (k - 1) <= j < |r|
        ensures r[j] == s[j % |s|]
      {
        DivModUnique(j, |s|, k - 1, j - |s| * (k - 1));
      }
      r
  }

  /** The sign of x, as BIG.comp and FF.comp report it. */
  function Sign(x: int): (r: int)
    ensures r == -1 || r == 0 || r == 1
    ensures (r > 0 <==> x > 0) && (r < 0 <==> x < 0)
  {
    if x > 0 then 1 else if x < 0 then -1 else 0
  }

  /** The windows [p, p+n) of a and [q, q+m) of b share no element. */
  predicate Apart(a: array<int>, p: int, n: int, b: array<int>, q: int, m: int)
  {
    a != b || p + n <= q || q + m <= p
  }

  /** Lexicographic comparison from the top limb down: what comp computes
      limb by limb. */
  function LexComp(a: seq<int>, b: seq<int>): (r: int)
    requires |a| == |b|
    ensures r == -1 || r == 0 || r == 1
  {
    if |a| == 0 then 0
    else if a[|a| - 1] != b[|a| - 1] then Sign(a[|a| - 1] - b[|a| - 1])
    else LexComp(a[..|a| - 1], b[..|a| - 1])
  }

  /** On normalised vectors the lexicographic comparison is the sign of the
      difference of the values. */
  lemma {:induction false} LexCompSign(a: seq<int>, b: seq<int>)
    requires |a| == |b| && Normed(a) && Normed(b)
    ensures LexComp(a, b) == Sign(Val(a) - Val(b))
  {
    if |a| > 0 {
      var k := |a| - 1;
      var a', b' := a[..k], b[..k];
      ValLast(a);
      ValLast(b);
      assert Digits(a') && Digits(b');
      DigitsBound(a');
      DigitsBound(b');
      if a[k] > b[k] {
        MulMonoRight(Radix(k), 1, a[k] - b[k]);
        TopDominates(Val(a), Val(b), Val(a'), Val(b'), Radix(k), a[k], b[k]);
      } else if a[k] < b[k] {
        MulMonoRight(Radix(k), 1, b[k] - a[k]);
        TopDominates(Val(b), Val(a), Val(b'), Val(a'), Radix(k), b[k], a[k]);
      } else {
        LexCompSign(a', b');
      }
    }
  }

  lemma TopDominates(va: int, vb: int, la: int, lb: int, r: int, ta: int, tb: int)
    requires va == la + r * ta && vb == lb + r * tb
    requires 0 <= la < r && 0 <= lb < r && r * (ta - tb) >= r
    ensures va > vb
  {
    assert va - vb == la - lb + r * (ta - tb);
  }

  /** Big-endian bytes of a limb vector: the top limb first, MODBYTES bytes
      per limb. */
  function Encode(s: seq<int>): (r: seq<uint8>)
    ensures |r| == MODBYTES * |s|
  {
    if |s| == 0 then [] else LimbBytes(s[|s| - 1], MODBYTES) + Encode(s[..|s| - 1])
  }

  /** The limbs of n * MODBYTES big-endian bytes. */
  function Decode(b: seq<uint8>, n: nat): (r: seq<int>)
    requires |b| == MODBYTES * n
    ensures |r| == n
  {
    if n == 0 then [] else Decode(b[MODBYTES..], n - 1) + [BytesVal(b[..MODBYTES])]
  }

  /** Decoding undoes encoding for digit vectors... */
  lemma {:induction false} DecodeEncode(s: seq<int>)
    requires Digits(s)
    ensures Decode(Encode(s), |s|) == s
  {
    if |s| > 0 {
      var k := |s| - 1;
      var low, x := s[..k], s[k];
      assert s == low + [x];
      var top, rest := LimbBytes(x, MODBYTES), Encode(low);
      assert Encode(s) == top + rest;
      DecodeSplit(top, rest, k);
      LimbRoundTrip(x);
      DecodeEncode(low);
    }
  }

  /** One limb's bytes followed by the bytes of k more limbs. */
  lemma DecodeSplit(top: seq<uint8>, rest: seq<uint8>, k: nat)
    requires |top| == MODBYTES && |rest| == MODBYTES * k
    ensures Decode(top + rest, k + 1) == Decode(rest, k) + [BytesVal(top)]
  {
    var e := top + rest;
    assert e[..MODBYTES] == top && e[MODBYTES..] == rest;
  }

  lemma LimbRoundTrip(x: int)
    requires IsDigit(x)
    ensures BytesVal(LimbBytes(x, MODBYTES)) == x
  {
    LimbBytesVal(x, MODBYTES);
    BaseIsPow256();
    DivModUnique(x, BASE, 0, x);
  }

  /** ...and encoding undoes decoding for any byte string. */
  lemma {:induction false} EncodeDecode(b: seq<uint8>, n: nat)
    requires |b| == MODBYTES * n
    ensures Encode(Decode(b, n)) == b
  {
    if n > 0 {
      var d := Decode(b, n);
      assert d[..n - 1] == Decode(b[MODBYTES..], n - 1);
      EncodeDecode(b[MODBYTES..], n - 1);
      BytesLimbBytes(b[..MODBYTES]);
      assert b == b[..MODBYTES] + b[MODBYTES..];
    }
  }

  /** Clearing the limbs from m on reduces a digit vector modulo Radix(m). */
  lemma ClearedTop(s: seq<int>, m: nat)
    requires m <= |s| && Digits(s)
    ensures Digits(s[..m] + Zeros(|s| - m))
    ensures Val(s[..m] + Zeros(|s| - m)) == Val(s) % Radix(m)
  {
    var lo, hi, z := s[..m], s[m..], Zeros(|s| - m);
    assert s == lo + hi;
    assert Digits(lo) && Digits(hi);
    ValAppendAt(lo, hi, m);
    ValAppendAt(lo, z, m);
    ValZeros(|s| - m);
    DropZeroTerm(Val(lo + z), Val(lo), Radix(m), Val(z));
    DigitsBound(lo);
    DigitsBound(hi);
    TopDivMod(Val(s), Val(lo), Val(hi), Radix(m));
  }

  lemma DropZeroTerm(v: int, lo: int, r: int, z: int)
    requires v == lo + r * z && z == 0
    ensures v == lo
  {
  }

  /** The two steps of rnorm on the whole vector: the carry loop, then (for
      n < 0) dropping the top limb's overflow. */
  lemma RNormSteps(s0: seq<int>, s1: seq<int>, s2: seq<int>, vp: nat, n: int)
    requires n != 0 && vp + Abs(n) <= |s0| == |s1|
    requires forall j | 0 <= j < |s0| && !(vp <= j < vp + Abs(n)) :: s1[j] == s0[j]
    requires Normed(s1[vp..vp + Abs(n)]) && Val(s1[vp..vp + Abs(n)]) == Val(s0[vp..vp + Abs(n)])
    requires var k := vp + Abs(n) - 1;
      s2 == if n < 0 then s1[k := s1[k] - s1[k] / BASE * BASE] else s1
    ensures s2 == Splice(s0, vp, RNormed(s0[vp..vp + Abs(n)], n))
    ensures s2[vp..vp + Abs(n)] == RNormed(s0[vp..vp + Abs(n)], n)
  {
    var m := Abs(n);
    var w0, w1, w2 := s0[vp..vp + m], s1[vp..vp + m], s2[vp..vp + m];
    NormedUnique(w1, Carry(w0));
    if n < 0 {
      var c := w1[m - 1] / BASE;
      assert w2 == w1[m - 1 := w1[m - 1] - c * BASE];
      TruncOfCarry(w0, w1, c);
    }
    SpliceOf(s0, s2, vp, RNormed(w0, n));
  }

  /** b shifted up by its own length stays normalised. */
  lemma ShiftedNormed(b: seq<int>, s: seq<int>)
    requires Normed(b) && s == Zeros(|b|) + b + []
    ensures Normed(s)
  {
    forall i | 0 <= i < |s| - 1
      ensures IsDigit(s[i])
    {
      if i >= |b| {
        assert s[i] == b[i - |b|];
      }
    }
  }

  /** After dmod's loop the low half holds digits, and, when the input
      was in range, the whole residue. */
  lemma DmodLow(xs: seq<int>, n: nat, x: int, b: int, exact: bool)
    requires n < |xs| && Normed(xs) && b > 0 && ModEq(Val(xs), x, b)
    requires exact ==> 0 <= Val(xs) < b && b < Radix(n)
    ensures Digits(xs[..n]) && Val(xs[..n]) >= 0
    ensures exact ==> ModEq(Val(xs[..n]), x, b)
  {
    NormedPrefix(xs, n);
    DigitsBound(xs[..n]);
    if exact {
      NormedLow(xs, n);
    }
  }

  /** The congruences of redc: mod, reduce, mod. */
  lemma RedcChain(x: int, x1: int, r: int, x2: int, rr: int, m: int)
    requires m > 0 && ModEq(x1, x, m) && ModEq(r * rr, x1, m) && ModEq(x2, r, m)
    ensures ModEq(x2 * rr, x, m)
  {
    ModEqRefl(rr, m);
    ModEqMul(x2, r, rr, rr, m);
    ModEqTrans(x2 * rr, r * rr, x1, m);
    ModEqTrans(x2 * rr, x1, x, m);
  }

  /** ReducedCorrect for a vector extended by zeros, stated on the values
      redc works with. */
  lemma {:induction false} ReducedOf(t: seq<int>, ms: seq<int>, nds: seq<int>, rv: int, x: int, mv: int)
    requires |ms| == |nds| && |ms| >= 2 && PowerOfTwo(|ms|) && |t| == 2 * |ms|
    requires Digits(ms) && mv == Val(ms) && mv > 0 && ModEq(mv * Val(nds), 1, Radix(|ms|))
    requires rv == Val(Reduced(t, ms, nds)) && x == Val(t)
    ensures Digits(t[..|ms|]) ==> ModEq(rv * Radix(|ms|), x, mv)
    ensures Digits(t[..|ms|]) && x >= 0 ==> 0 < rv && rv * Radix(|ms|) <= x + mv * Radix(|ms|)
  {
    if Digits(t[..|ms|]) {
      ReducedCorrect(t, ms, nds);
    }
  }

  /** What modmul computes from the values: x1 is x after the optional
      mod, rv the reduction of x1*y. */
  lemma ModmulValue(x: int, x1: int, y: int, rv: int, p: int, r: int)
    requires p > 0 && r > 0
    requires ModEq(x1, x, p) && (x >= 0 ==> 0 <= x1 <= x)
    requires ModEq(rv * r, x1 * y, p)
    requires x1 * y >= 0 ==> 0 < rv && rv * r <= x1 * y + p * r
    ensures ModEq(rv * r, x * y, p)
    ensures x >= 0 && y >= 0 ==> 0 < rv && rv * r <= x * y + p * r
  {
    ModEqRefl(y, p);
    ModEqMul(x1, x, y, y, p);
    ModEqTrans(rv * r, x1 * y, x * y, p);
    if x >= 0 && y >= 0 {
      MulNonneg(x1, y);
      MulMonoRight(y, x1, x);
    }
  }

  /** What modsqr computes from the values. */
  lemma SquareValue(x: int, x1: int, rv: int, p: int, r: int)
    requires p > 0 && r > 0
    requires ModEq(x1, x, p) && (x >= 0 ==> 0 <= x1 <= x)
    requires ModEq(rv * r, x1 * x1, p)
    requires 0 < rv && rv * r <= x1 * x1 + p * r
    ensures ModEq(rv * r, x * x, p)
    ensures x >= 0 ==> rv * r <= x * x + p * r
  {
    ModEqMul(x1, x, x1, x, p);
    ModEqTrans(rv * r, x1 * x1, x * x, p);
    if x >= 0 {
      MulMonoRight(x1, x1, x);
      MulMonoRight(x, x1, x);
    }
  }

  /** A residue modulo Radix(n) taken again modulo Radix(i), i <= n, is
      the residue modulo Radix(i). */
  lemma LowOfLow(val: int, l: int, x: int, i: nat, n: nat)
    requires i <= n && l == x % Radix(n) && val == l % Radix(i)
    ensures val == x % Radix(i)
  {
    RadixAdd(i, n - i);
    ModMod(x, Radix(i), Radix(n - i));
  }

  lemma CrossValue(val: int, a1: int, u: int, a: int, i: nat)
    requires val == (a1 * u) % Radix(i) && a1 == (a / Radix(i)) % Radix(i)
    ensures val == (u * ((a / Radix(i)) % Radix(i))) % Radix(i)
  {
    assert a1 * u == u * a1;
  }

  /** The value side of one invmod2m round: the high half h, the cross
      term c and the correction b combine to the inverse modulo
      Radix(2i). */
  lemma RoundValue(a: int, u: int, h: int, c: int, b: int, u': int, i: nat)
    requires u * (a % Radix(i)) == 1 + Radix(i) * h
    requires c == (u * ((a / Radix(i)) % Radix(i))) % Radix(i)
    requires b == Radix(i) * ((Radix(i) - ((h + c) * u) % Radix(i)) % Radix(i))
    requires u' == u + b
    ensures ModEq(a * u', 1, Radix(2 * i))
  {
    var r := Radix(i);
    var w := ((h + c) * u) % r;
    Decompose2(a, r);
    AraziQiStep(u, a, a % r, (a / r) % r, (a / r) / r, h, h, c, w, (r - w) % r, r);
    RadixAdd(i, i);
  }

  /** Reducing the base first does not change a power modulo p. */
  lemma ModEqExpMod(x: int, x1: int, e: nat, p: int)
    requires p > 0 && ModEq(x1, x, p)
    ensures Exp(x1, e) % p == Exp(x, e) % p
  {
    ModEqExp(x1, x, e, p);
    ModEqSameMod(Exp(x1, e), Exp(x, e), p);
  }

  lemma ScaleStep(c: int, k: nat)
    requires c > 0
    ensures 2 * (c * Pow2(k)) == c * Pow2(k + 1) && c * Pow2(k) > 0
  {
    MulStrictRight(c, 0, Pow2(k));
  }

  /** One subtraction of a multiple of C keeps the residue modulo C. */
  lemma SubtractModulus(x: int, y: int, c: int, k: nat, m: int)
    requires c > 0 && y == x - m && m == c * Pow2(k)
    ensures ModEq(y, x, c)
  {
    MultipleOf(Pow2(k), c);
    MultipleAdd(0, m, c);
  }

  /* ---------------- carry steps ---------------- */

  /** One limb of shl: the doubled limb keeps its low 256 bits plus the
      delayed carry, and hands its top bit to the next limb. */
  lemma ShlStep(p: int, r: int, dc: int, a: int, c: int, s: int, x: int, rn: int)
    requires p + r * dc == 2 * s && x == 2 * a - c * BASE + dc && rn == BASE * r
    ensures (p + r * x) + rn * c == 2 * (s + r * a)
  {
  }

  /** One limb of shr: halving limb d after it received the low bit of the
      part u above it. */
  lemma ShrStep(d: int, u: int)
    ensures (d + (u % 2) * BASE) / 2 + BASE * (u / 2) == (d + BASE * u) / 2
    ensures (d + (u % 2) * BASE) % 2 == (d + BASE * u) % 2
  {
    var c, q := u % 2, u / 2;
    assert d + BASE * u == (d + c * BASE) + (BASE * q) * 2;
    DivModAddMul(d + c * BASE, BASE * q, 2);
  }

  lemma ShrDigit(d: int, c: int)
    requires IsDigit(d) && 0 <= c <= 1
    ensures IsDigit((d + c * BASE) / 2)
  {
  }

  /** The state of shr with limbs above i halved and limb i holding the
      low bit of the part above it at weight BASE. */
  ghost predicate ShrInv(s: seq<int>, w: seq<int>, i: nat)
  {
    |w| == |s| && i < |s|
    && (forall j | 0 <= j < i :: w[j] == s[j])
    && w[i] == s[i] + (Val(s[i + 1..]) % 2) * BASE
    && Val(w[i + 1..]) == Val(s[i + 1..]) / 2
    && (forall j | i < j < |w| - 1 :: IsDigit(w[j]))
  }

  /** One step of shr at limb i > 0. */
  function ShrMove(w: seq<int>, i: nat): seq<int>
    requires 0 < i < |w|
  {
    w[i := w[i] / 2][i - 1 := w[i - 1] + (w[i] % 2) * BASE]
  }

  lemma ShrStart(s: seq<int>)
    requires |s| > 0
    ensures ShrInv(s, s, |s| - 1)
  {
    assert s[|s|..] == [];
  }

  lemma ShrAdvance(s: seq<int>, w: seq<int>, i: nat)
    requires Normed(s) && ShrInv(s, w, i) && i > 0
    ensures ShrInv(s, ShrMove(w, i), i - 1)
  {
    var w' := ShrMove(w, i);
    var u := Val(s[i + 1..]);
    ShrStep(s[i], u);
    ValSuffixStep(s, i);
    if i < |s| - 1 {
      ShrDigit(s[i], u % 2);
    }
    assert w'[i + 1..] == w[i + 1..];
    ValSuffixStep(w', i);
    assert i - 1 + 1 == i;
  }

  lemma ShrFinish(s: seq<int>, w: seq<int>)
    requires Normed(s) && ShrInv(s, w, 0)
    ensures Val(w[0 := w[0] / 2]) == Val(s) / 2 && Normed(w[0 := w[0] / 2])
  {
    var w' := w[0 := w[0] / 2];
    var u := Val(s[1..]);
    ShrStep(s[0], u);
    ValSuffixStep(s, 0);
    if 0 < |s| - 1 {
      ShrDigit(s[0], u % 2);
    }
    assert w'[1..] == w[1..];
    ValSuffixStep(w', 0);
    assert w'[0..] == w' && s[0..] == s;
  }

  lemma ShlLast(p: int, r: int, dc: int, a: int, s: int, x: int)
    requires p + r * dc == 2 * s && x == 2 * a + dc
    ensures p + r * x == 2 * (s + r * a)
  {
  }

  lemma ShlDigit(a: int, dc: int)
    requires IsDigit(a) && 0 <= dc <= 1
    ensures 0 <= (2 * a) / BASE <= 1 && IsDigit(2 * a - ((2 * a) / BASE) * BASE + dc)
  {
    if 2 * a < BASE {
      DivModUnique(2 * a, BASE, 0, 2 * a);
    } else {
      DivModUnique(2 * a, BASE, 1, 2 * a - BASE);
    }
  }

  /** Shr of an even value is exact: the power of two taken out grows by
      one. */
  lemma HalveExact(x: int, h: int, k: nat, X: int)
    requires x % 2 == 0 && h == x / 2 && X == x * Pow2(k)
    ensures X == h * Pow2(k + 1) && Abs(h) <= Abs(x) && (x != 0 ==> Abs(h) < Abs(x))
  {
    assert x == 2 * h;
    assert Pow2(k + 1) == 2 * Pow2(k);
  }

  /** One pass of cfactor keeps the gcd with an odd s: from x0 >= s,
      subtracting s and stripping factors of two leaves x with
      x * 2^k = x0 - s. */
  lemma StripGcd(x0: int, x: int, k: nat, s: int)
    requires 0 < s <= x0 && s % 2 == 1 && x0 - s == x * Pow2(k)
    ensures 0 <= x <= x0 - s && Gcd(x, s) == Gcd(x0, s)
  {
    StripBound(x0, x, k, s);
    GcdPow2(x, k, s);
    GcdSubtract(x0, s);
  }

  /** What is left after a pass of cfactor from x0 >= s is at most x0 - s. */
  lemma StripBound(x0: int, x: int, k: nat, s: int)
    requires 0 < s <= x0 && x0 - s == x * Pow2(k)
    ensures 0 <= x <= x0 - s
  {
    if x < 0 {
      MulStrictRight(Pow2(k), x, 0);
    }
    MulMonoRight(x, 1, Pow2(k));
  }

  /** The vector set(s) holds for a small positive s is normalised. */
  lemma DigitNormed(s: int, n: nat, ys: seq<int>)
    requires 0 < s < BASE && n > 0 && ys == [s] + Zeros(n - 1)
    ensures Normed(ys)
  {
    assert forall j | 0 <= j < |ys| :: IsDigit(ys[j]);
    DigitsNormed(ys);
  }

  /** A normalised vector holding a value below 2^29 has it all in word 0
      of limb 0. */
  lemma SmallNormed(xs: seq<int>, s: int)
    requires |xs| > 0 && Normed(xs) && 0 <= Val(xs) <= s < WORD
    ensures xs[0] % WORD == Val(xs)
  {
    BaseFacts();
    NormedLow(xs, 1);
    assert xs[..1] == [xs[0]];
    ValSingle(xs[0]);
  }

  /** Halving in invmodp keeps x * a = u modulo an odd p: with 2x' = x and
      u even, x' * a = u / 2. */
  lemma HalveStep(x: int, x': int, a: int, u: int, p: int)
    requires p > 0 && p % 2 == 1 && u % 2 == 0
    requires ModEq(2 * x', x, p) && ModEq(x * a, u, p)
    ensures ModEq(x' * a, u / 2, p)
  {
    ModEqRefl(a, p);
    ModEqMul(2 * x', x, a, a, p);
    ModEqTrans((2 * x') * a, x * a, u, p);
    assert 2 * (x' * a - u / 2) == (2 * x') * a - u;
    CancelTwo(x' * a - u / 2, p);
  }

  /** Subtraction in invmodp keeps the pairing: x1 * a = u and x2 * a = w
      give (x1 - x2 mod p) * a = u - w. */
  lemma SubtractPairing(x1: int, x2: int, x: int, u: int, w: int, a: int, p: int)
    requires p > 0 && ModEq(x1 * a, u, p) && ModEq(x2 * a, w, p) && x == (x1 - x2) % p
    ensures ModEq(x * a, u - w, p)
  {
    ModEqAdd(x1 * a, u, x2 * a, w, p);
    assert x1 * a - x2 * a == (x1 - x2) * a;
    ModEqMod(x1 - x2, p);
    ModEqRefl(a, p);
    ModEqMul(x, x1 - x2, a, a, p);
    ModEqTrans(x * a, (x1 - x2) * a, u - w, p);
  }

  /** invmodp's starting state: x1 = 1 pairs with u = a and x2 = 0 with
      w = p. */
  lemma EuclidStart(ones: seq<int>, zs: seq<int>, a: int, p: int)
    requires p > 0 && |ones| > 0 && ones == [1] + Zeros(|ones| - 1) && zs == Zeros(|zs|)
    ensures Normed(ones) && Normed(zs) && Val(zs) == 0
    ensures ModEq(1 * a, a, p) && ModEq(0 * a, p, p)
  {
    BaseFacts();
    assert forall j | 0 <= j < |ones| :: IsDigit(ones[j]);
    DigitsNormed(ones);
    DigitsNormed(zs);
    ValZeros(|zs|);
    MultipleOf(-1, p);
  }

  /** In a round of invmodp neither side is 1 and they are coprime, so
      both are positive. */
  lemma EuclidRoundStart(u: nat, w: nat)
    requires Gcd(u, w) == 1 && u != 1 && w != 1
    ensures u > 0 && w > 0
  {
  }

  /** Subtracting the smaller side keeps the pair coprime and shrinks
      their sum. */
  lemma EuclidRoundEnd(u: nat, w: nat)
    requires 0 < w <= u && Gcd(u, w) == 1
    ensures Gcd(u - w, w) == 1 && u - w + w < u + w
  {
    GcdSubtract(u, w);
  }

  /** p - 1 = d * 2^s with d odd: s is 0 exactly when p is even. */
  lemma ParityOfPredecessor(p: int, d: int, s: nat)
    requires p - 1 == d * Pow2(s) && d % 2 == 1
    ensures s == 0 <==> p % 2 == 0
  {
    if s > 0 {
      assert Pow2(s) == 2 * Pow2(s - 1);
      assert p - 1 == 2 * (d * Pow2(s - 1));
    }
  }

  /** The odd part of a positive x below r is below r. */
  lemma HalvedBelow(x: int, d: int, s: nat, r: int)
    requires 0 < x < r && x == d * Pow2(s) && d % 2 == 1
    ensures 0 < d < r
  {
    if d <= 0 {
      MulNonneg(-d, Pow2(s));
    }
    MulMonoRight(d, 1, Pow2(s));
  }

  class FF {
    /** The limbs, least significant first. */
    const v: array<int>

    /** The integer the limbs stand for. */
    ghost function Value(): int
      reads v
    {
      Val(v[..])
    }

    /** FF(n): n zero limbs. */
    constructor (n: nat)
      ensures fresh(v) && v[..] == Zeros(n)
    {
      v := new int[n](i => 0);
    }

    /** FF(x, n): n limbs read from tables of NLEN BIG words each. */
    constructor FromWords(x: seq<seq<int>>, n: nat)
      requires n <= |x|
      requires forall i | 0 <= i < n :: |x[i]| == NLEN
      ensures fresh(v) && v.Length == n
      ensures forall i | 0 <= i < n :: v[i] == WordsVal(x[i])
    {
      v := new int[n](i requires 0 <= i < n reads {} => WordsVal(x[i]));
    }

    /** P_EXCESS: the part of the top limb above the nominal 256 bits; on a
        normalised vector, the value's excess above Radix(n). */
    method Pexcess() returns (r: int)
      requires v.Length > 0
      ensures Normed(v[..]) ==> r == Value() / Radix(v.Length)
    {
      r := v[v.Length - 1] / BASE;
      if Normed(v[..]) {
        var k := v.Length - 1;
        NormedTop(v[..]);
        assert v[..][..k] == v[..k];
        ModProduct(Value(), Radix(k), BASE);
        assert Radix(k) * BASE == Radix(v.Length);
      }
    }

    /** set(m): the small integer m, split over the two low words of limb 0. */
    method Set(m: int)
      requires v.Length > 0
      modifies v
      ensures v[..] == [m] + Zeros(v.Length - 1)
      ensures Value() == m
    {
      Zero();
      v[0] := m % WORD + (m / WORD) * WORD;
      assert v[..] == [m] + Zeros(v.Length - 1);
      ValAppendAt([m], Zeros(v.Length - 1), 1);
      ValZeros(v.Length - 1);
      ValSingle(m);
    }

    /** copy(b): the low v.Length limbs of b; b may be this FF. */
    method Copy(b: FF)
      requires b.v.Length >= v.Length
      modifies v
      ensures v[..] == old(b.v[..v.Length])
      ensures b.v.Length == v.Length ==> v[..] == old(b.v[..]) && Value() == old(b.Value())
    {
      if b.v.Length == v.Length {
        assert old(b.v[..v.Length]) == old(b.v[..]);
      }
      for i := 0 to v.Length
        invariant forall j | 0 <= j < i :: v[j] == old(b.v[j])
        invariant forall j | i <= j < v.Length :: v[j] == old(v[j])
      {
        v[i] := b.v[i];
      }
    }

    /** dsucopy(b): b shifted up by its own length, the low half zero. */
    method Dsucopy(b: FF)
      requires b.v != v && v.Length >= 2 * b.v.Length
      modifies v
      ensures v[..] == Zeros(b.v.Length) + b.v[..] + old(v[2 * b.v.Length..])
      ensures Val(v[..2 * b.v.Length]) == Radix(b.v.Length) * b.Value()
    {
      var n := b.v.Length;
      for i := 0 to n
        invariant forall j | 0 <= j < i :: v[j] == 0
        invariant forall j | n <= j < n + i :: v[j] == b.v[j - n]
        invariant forall j | 2 * n <= j < v.Length :: v[j] == old(v[j])
      {
        v[n + i] := b.v[i];
        v[i] := 0;
      }
      assert v[..] == Zeros(n) + b.v[..] + old(v[2 * n..]);
      assert v[..2 * n] == Zeros(n) + b.v[..];
      ValAppendAt(Zeros(n), b.v[..], n);
      ValZeros(n);
    }

    /** dscopy(b): b in the low half, the high half zero. */
    method Dscopy(b: FF)
      requires b.v != v && v.Length >= 2 * b.v.Length
      modifies v
      ensures v[..] == b.v[..] + Zeros(b.v.Length) + old(v[2 * b.v.Length..])
      ensures Val(v[..2 * b.v.Length]) == b.Value()
    {
      var n := b.v.Length;
      for i := 0 to n
        invariant forall j | 0 <= j < i :: v[j] == b.v[j]
        invariant forall j | n <= j < n + i :: v[j] == 0
        invariant forall j | 2 * n <= j < v.Length :: v[j] == old(v[j])
      {
        v[i] := b.v[i];
        v[n + i] := 0;
      }
      assert v[..] == b.v[..] + Zeros(n) + old(v[2 * n..]);
      assert v[..2 * n] == b.v[..] + Zeros(n);
      ValAppendAt(b.v[..], Zeros(n), n);
      ValZeros(n);
    }

    /** sducopy(b): the high half of a double-length b. */
    method Sducopy(b: FF)
      requires b.v.Length >= 2 * v.Length
      modifies v
      ensures v[..] == old(b.v[v.Length..2 * v.Length])
    {
      var n := v.Length;
      if n > 0 {
        for i := 0 to n
          invariant forall j | 0 <= j < i :: v[j] == old(b.v[n + j])
          invariant forall j | 0 <= j < b.v.Length :: b.v[j] == old(b.v[j])
        {
          v[i] := b.v[n + i];
        }
      }
    }

    /** zero(): every limb zero. */
    method Zero()
      modifies v
      ensures v[..] == Zeros(v.Length)
      ensures Value() == 0
    {
      for i := 0 to v.Length
        invariant forall j | 0 <= j < i :: v[j] == 0
      {
        v[i] := 0;
      }
      assert v[..] == Zeros(v.Length);
      ValZeros(v.Length);
    }

    /** one(): the value 1. */
    method One()
      requires v.Length > 0
      modifies v
      ensures v[..] == [1] + Zeros(v.Length - 1)
      ensures Value() == 1
    {
      v[0] := 1;
      for i := 1 to v.Length
        invariant v[0] == 1
        invariant forall j | 1 <= j < i :: v[j] == 0
      {
        v[i] := 0;
      }
      assert v[..] == [1] + Zeros(v.Length - 1);
      ValAppendAt([1], Zeros(v.Length - 1), 1);
      ValZeros(v.Length - 1);
      ValSingle(1);
    }

    /** iszilch(): every limb is zero; on a normalised vector, exactly when
        the value is zero. */
    method IsZilch() returns (z: bool)
      ensures z <==> v[..] == Zeros(v.Length)
      ensures Normed(v[..]) ==> (z <==> Value() == 0)
    {
      var i := 0;
      while i < v.Length && v[i] == 0
        invariant 0 <= i <= v.Length
        invariant forall j | 0 <= j < i :: v[j] == 0
      {
        i := i + 1;
      }
      z := i == v.Length;
      if !z {
        assert v[..][i] != Zeros(v.Length)[i];
      }
      if z {
        assert v[..] == Zeros(v.Length);
        ValZeros(v.Length);
      } else if Normed(v[..]) {
        NormedZero(v[..]);
      }
    }

    /** shrw(n): limbs n..2n-1 move down to 0..n-1 and are cleared; limbs
        from 2n on are left alone. */
    method Shrw(n: nat)
      requires 2 * n <= v.Length
      modifies v
      ensures v[..] == old(v[n..2 * n]) + Zeros(n) + old(v[2 * n..])
    {
      for i := 0 to n
        invariant forall j | 0 <= j < i :: v[j] == old(v[n + j])
        invariant forall j | n <= j < n + i :: v[j] == 0
        invariant forall j | i <= j < n :: v[j] == old(v[j])
        invariant forall j | n + i <= j < v.Length :: v[j] == old(v[j])
      {
        v[i] := v[i + n];
        v[i + n] := 0;
      }
      assert v[..] == old(v[n..2 * n]) + Zeros(n) + old(v[2 * n..]);
    }

    /** shlw(n): limbs 0..n-1 move up to n..2n-1 and are cleared; limbs from
        2n on are left alone. */
    method Shlw(n: nat)
      requires 2 * n <= v.Length
      modifies v
      ensures v[..] == Zeros(n) + old(v[..n]) + old(v[2 * n..])
    {
      for i := 0 to n
        invariant forall j | 0 <= j < i :: v[j] == 0
        invariant forall j | n <= j < n + i :: v[j] == old(v[j - n])
        invariant forall j | i <= j < n :: v[j] == old(v[j])
        invariant forall j | n + i <= j < v.Length :: v[j] == old(v[j])
      {
        v[n + i] := v[i];
        v[i] := 0;
      }
      assert v[..] == Zeros(n) + old(v[..n]) + old(v[2 * n..]);
    }

    /** mod2m(m): clear the limbs from m on; for digits, reduction modulo
        Radix(m). */
    method Mod2m(m: nat)
      modifies v
      ensures forall j | 0 <= j < v.Length :: v[j] == if j < m then old(v[j]) else 0
      ensures m <= v.Length && old(Digits(v[..])) ==> Digits(v[..]) && Value() == old(Value()) % Radix(m)
    {
      var i := m;
      while i < v.Length
        invariant forall j | 0 <= j < v.Length :: v[j] == if m <= j < i then 0 else old(v[j])
      {
        v[i] := 0;
        i := i + 1;
      }
      if m <= v.Length && old(Digits(v[..])) {
        assert v[..] == old(v[..])[..m] + Zeros(v.Length - m);
        ClearedTop(old(v[..]), m);
      }
    }

    /** parity(): the low bit of limb 0, which is the low bit of the value. */
    method Parity() returns (r: int)
      requires v.Length > 0
      ensures r == Value() % 2
    {
      r := v[0] % 2;
      LowBits(v[..], 1);
      assert Pow2(1) == 2;
    }

    /** lastbits(m): the low m bits of word 0 of limb 0, which are the low
        m bits of the value. */
    method Lastbits(m: nat) returns (r: int)
      requires v.Length > 0 && m <= BASEBITS
      ensures r == Value() % Pow2(m)
    {
      r := v[0] % Pow2(m);
      LowBits(v[..], m);
    }

    /** comp(a, b): the lexicographic comparison of the limbs, from the top;
        on normalised vectors, the sign of a - b. */
    static method Comp(a: FF, b: FF) returns (r: int)
      requires a.v.Length == b.v.Length
      ensures r == LexComp(a.v[..], b.v[..])
      ensures Normed(a.v[..]) && Normed(b.v[..]) ==> r == Sign(a.Value() - b.Value())
    {
      var i := a.v.Length;
      r := 0;
      assert a.v[..i] == a.v[..] && b.v[..i] == b.v[..];
      while i > 0
        invariant 0 <= i <= a.v.Length
        invariant LexComp(a.v[..], b.v[..]) == LexComp(a.v[..i], b.v[..i])
      {
        assert a.v[..i][..i - 1] == a.v[..i - 1] && b.v[..i][..i - 1] == b.v[..i - 1];
        i := i - 1;
        var j := Sign(a.v[i] - b.v[i]);
        if j != 0 {
          r := j;
          break;
        }
      }
      assert a.v[..a.v.Length] == a.v[..] && b.v[..b.v.Length] == b.v[..];
      if Normed(a.v[..]) && Normed(b.v[..]) {
        LexCompSign(a.v[..], b.v[..]);
      }
    }

    /** radd: window [vp, vp+n) := x's window at xp plus y's window at yp. */
    method Radd(vp: nat, x: FF, xp: nat, y: FF, yp: nat, n: nat)
      requires vp + n <= v.Length && xp + n <= x.v.Length && yp + n <= y.v.Length
      requires Apart(v, vp, n, x.v, xp, n) && Apart(v, vp, n, y.v, yp, n)
      modifies v
      ensures v[..] == Splice(old(v[..]), vp, Plus(old(x.v[xp..xp + n]), old(y.v[yp..yp + n])))
      ensures Val(v[vp..vp + n]) == old(Val(x.v[xp..xp + n])) + old(Val(y.v[yp..yp + n]))
    {
      ghost var xs, ys := x.v[xp..xp + n], y.v[yp..yp + n];
      ghost var w := Plus(xs, ys);
      for i := 0 to n
        invariant x.v[xp..xp + n] == xs && y.v[yp..yp + n] == ys
        invariant forall j | vp <= j < vp + i :: v[j] == w[j - vp]
        invariant forall j | 0 <= j < v.Length && !(vp <= j < vp + i) :: v[j] == old(v[j])
      {
        assert x.v[xp + i] == xs[i] && y.v[yp + i] == ys[i];
        v[vp + i] := x.v[xp + i] + y.v[yp + i];
      }
      SpliceOf(old(v[..]), v[..], vp, w);
    }

    /** rinc: window [vp, vp+n) += y's window at yp. */
    method Rinc(vp: nat, y: FF, yp: nat, n: nat)
      requires vp + n <= v.Length && yp + n <= y.v.Length
      requires Apart(v, vp, n, y.v, yp, n)
      modifies v
      ensures v[..] == Splice(old(v[..]), vp, Plus(old(v[vp..vp + n]), old(y.v[yp..yp + n])))
      ensures Val(v[vp..vp + n]) == old(Val(v[vp..vp + n])) + old(Val(y.v[yp..yp + n]))
    {
      ghost var vs, ys := v[vp..vp + n], y.v[yp..yp + n];
      ghost var w := Plus(vs, ys);
      for i := 0 to n
        invariant y.v[yp..yp + n] == ys
        invariant forall j | vp <= j < vp + i :: v[j] == w[j - vp]
        invariant forall j | 0 <= j < v.Length && !(vp <= j < vp + i) :: v[j] == old(v[j])
      {
        assert v[vp + i] == vs[i] && y.v[yp + i] == ys[i];
        v[vp + i] := v[vp + i] + y.v[yp + i];
      }
      SpliceOf(old(v[..]), v[..], vp, w);
    }

    /** rsub: window [vp, vp+n) := x's window at xp minus y's window at yp. */
    method Rsub(vp: nat, x: FF, xp: nat, y: FF, yp: nat, n: nat)
      requires vp + n <= v.Length && xp + n <= x.v.Length && yp + n <= y.v.Length
      requires Apart(v, vp, n, x.v, xp, n) && Apart(v, vp, n, y.v, yp, n)
      modifies v
      ensures v[..] == Splice(old(v[..]), vp, Minus(old(x.v[xp..xp + n]), old(y.v[yp..yp + n])))
      ensures Val(v[vp..vp + n]) == old(Val(x.v[xp..xp + n])) - old(Val(y.v[yp..yp + n]))
    {
      ghost var xs, ys := x.v[xp..xp + n], y.v[yp..yp + n];
      ghost var w := Minus(xs, ys);
      for i := 0 to n
        invariant x.v[xp..xp + n] == xs && y.v[yp..yp + n] == ys
        invariant forall j | vp <= j < vp + i :: v[j] == w[j - vp]
        invariant forall j | 0 <= j < v.Length && !(vp <= j < vp + i) :: v[j] == old(v[j])
      {
        assert x.v[xp + i] == xs[i] && y.v[yp + i] == ys[i];
        v[vp + i] := x.v[xp + i] - y.v[yp + i];
      }
      SpliceOf(old(v[..]), v[..], vp, w);
    }

    /** rdec: window [vp, vp+n) -= y's window at yp. */
    method Rdec(vp: nat, y: FF, yp: nat, n: nat)
      requires vp + n <= v.Length && yp + n <= y.v.Length
      requires Apart(v, vp, n, y.v, yp, n)
      modifies v
      ensures v[..] == Splice(old(v[..]), vp, Minus(old(v[vp..vp + n]), old(y.v[yp..yp + n])))
      ensures Val(v[vp..vp + n]) == old(Val(v[vp..vp + n])) - old(Val(y.v[yp..yp + n]))
    {
      ghost var vs, ys := v[vp..vp + n], y.v[yp..yp + n];
      ghost var w := Minus(vs, ys);
      for i := 0 to n
        invariant y.v[yp..yp + n] == ys
        invariant forall j | vp <= j < vp + i :: v[j] == w[j - vp]
        invariant forall j | 0 <= j < v.Length && !(vp <= j < vp + i) :: v[j] == old(v[j])
      {
        assert v[vp + i] == vs[i] && y.v[yp + i] == ys[i];
        v[vp + i] := v[vp + i] - y.v[yp + i];
      }
      SpliceOf(old(v[..]), v[..], vp, w);
    }

    /** add(b): limb-wise sum; b may be this FF. */
    method Add(b: FF)
      requires b.v.Length >= v.Length
      modifies v
      ensures forall j | 0 <= j < v.Length :: v[j] == old(v[j]) + old(b.v[j])
      ensures Value() == old(Value()) + old(Val(b.v[..v.Length]))
    {
      for i := 0 to v.Length
        invariant forall j | 0 <= j < i :: v[j] == old(v[j]) + old(b.v[j])
        invariant forall j | i <= j < v.Length :: v[j] == old(v[j])
        invariant b.v != v ==> b.v[..] == old(b.v[..])
      {
        v[i] := v[i] + b.v[i];
      }
      ValAddElems(old(v[..]), old(b.v[..v.Length]), v[..]);
    }

    /** sub(b): limb-wise difference; b may be this FF. */
    method Sub(b: FF)
      requires b.v.Length >= v.Length
      modifies v
      ensures forall j | 0 <= j < v.Length :: v[j] == old(v[j]) - old(b.v[j])
      ensures Value() == old(Value()) - old(Val(b.v[..v.Length]))
    {
      for i := 0 to v.Length
        invariant forall j | 0 <= j < i :: v[j] == old(v[j]) - old(b.v[j])
        invariant forall j | i <= j < v.Length :: v[j] == old(v[j])
        invariant b.v != v ==> b.v[..] == old(b.v[..])
      {
        v[i] := v[i] - b.v[i];
      }
      ValSubElems(old(v[..]), old(b.v[..v.Length]), v[..]);
    }

    /** revsub(b): limb-wise b minus this. */
    method RevSub(b: FF)
      requires b.v.Length >= v.Length
      modifies v
      ensures forall j | 0 <= j < v.Length :: v[j] == old(b.v[j]) - old(v[j])
      ensures Value() == old(Val(b.v[..v.Length])) - old(Value())
    {
      for i := 0 to v.Length
        invariant forall j | 0 <= j < i :: v[j] == old(b.v[j]) - old(v[j])
        invariant forall j | i <= j < v.Length :: v[j] == old(v[j])
        invariant b.v != v ==> b.v[..] == old(b.v[..])
      {
        v[i] := b.v[i] - v[i];
      }
      ValSubElems(old(b.v[..v.Length]), old(v[..]), v[..]);
    }

    /** inc(m): add a small integer and normalise. */
    method Inc(m: int)
      requires v.Length > 0
      modifies v
      ensures Normed(v[..]) && Value() == old(Value()) + m
    {
      ValUpdate(v[..], 0, v[0] + m);
      v[0] := v[0] + m;
      Norm();
    }

    /** dec(m): subtract a small integer and normalise. */
    method Dec(m: int)
      requires v.Length > 0
      modifies v
      ensures Normed(v[..]) && Value() == old(Value()) - m
    {
      ValUpdate(v[..], 0, v[0] - m);
      v[0] := v[0] - m;
      Norm();
    }

    /** rnorm(vp, n): propagate carries through the window [vp, vp+|n|); the
        top limb keeps its overflow when n > 0, and drops it when n < 0,
        which reduces the window modulo Radix(|n|). */
    method RNorm(vp: nat, n: int)
      requires n != 0 && vp + Abs(n) <= v.Length
      modifies v
      ensures v[..] == Splice(old(v[..]), vp, RNormed(old(v[vp..vp + Abs(n)]), n))
      ensures v[vp..vp + Abs(n)] == RNormed(old(v[vp..vp + Abs(n)]), n)
    {
      var trunc := n < 0;
      var m: nat := Abs(n);
      ghost var s0 := v[..];
      Carries(vp, m);
      ghost var s1 := v[..];
      if trunc {
        var carry := v[vp + m - 1] / BASE;
        v[vp + m - 1] := v[vp + m - 1] - carry * BASE;
      }
      RNormSteps(s0, s1, v[..], vp, n);
    }

    /** The carry loop of rnorm: every limb of the window but the top one
        becomes a digit, passing its overflow up; the window keeps its value. */
    method Carries(vp: nat, m: nat)
      requires 0 < m && vp + m <= v.Length
      modifies v
      ensures forall j | 0 <= j < v.Length && !(vp <= j < vp + m) :: v[j] == old(v[j])
      ensures Normed(v[vp..vp + m]) && Val(v[vp..vp + m]) == old(Val(v[vp..vp + m]))
    {
      ghost var w := v[vp..vp + m];
      ghost var w0 := w;
      var i := 0;
      while i < m - 1
        invariant 0 <= i <= m - 1
        invariant w == v[vp..vp + m] && Val(w) == Val(w0)
        invariant forall j | 0 <= j < i :: IsDigit(w[j])
        invariant forall j | 0 <= j < v.Length && !(vp <= j < vp + m) :: v[j] == old(v[j])
      {
        var carry := v[vp + i] / BASE;
        BaseFacts();
        DivModParts(v[vp + i], BASE);
        ValCarry(w, i, carry);
        w := w[i := w[i] - carry * BASE][i + 1 := w[i + 1] + carry];
        v[vp + i] := v[vp + i] - carry * BASE;
        v[vp + i + 1] := v[vp + i + 1] + carry;
        assert w == v[vp..vp + m];
        i := i + 1;
      }
    }

    /** norm(): carry-propagate the whole vector, keeping the value; the top
        limb absorbs any overflow. */
    method Norm()
      requires v.Length > 0
      modifies v
      ensures Normed(v[..]) && Value() == old(Value())
    {
      assert v[..] == v[0..v.Length];
      RNorm(0, v.Length);
      assert v[..] == v[0..v.Length];
    }

    /** shl(): shift the value up by one bit; a normalised vector stays
        normalised. */
    method Shl()
      requires v.Length > 0
      modifies v
      ensures Value() == 2 * old(Value())
      ensures old(Normed(v[..])) ==> Normed(v[..])
    {
      ghost var s := v[..];
      ghost var w := s;
      var delayCarry := 0;
      var i := 0;
      while i < v.Length - 1
        invariant 0 <= i <= v.Length - 1
        invariant w == v[..] && |w| == |s|
        invariant forall j | i <= j < |w| :: w[j] == s[j]
        invariant Val(w[..i]) + Radix(i) * delayCarry == 2 * Val(s[..i])
        invariant Normed(s) ==> (forall j | 0 <= j < i :: IsDigit(w[j])) && 0 <= delayCarry <= 1
      {
        var a := v[i];
        var carry := (2 * a) / BASE;
        var x := 2 * a - carry * BASE + delayCarry;
        ValSetPrefix(w, i, x);
        ValPrefixStep(s, i);
        ShlStep(Val(w[..i]), Radix(i), delayCarry, a, carry, Val(s[..i]), x, Radix(i + 1));
        if Normed(s) {
          ShlDigit(a, delayCarry);
        }
        w := w[i := x];
        v[i] := x;
        delayCarry := carry;
        i := i + 1;
      }
      var a := v[i];
      var x := 2 * a + delayCarry;
      ValSetPrefix(w, i, x);
      ValPrefixStep(s, i);
      ShlLast(Val(w[..i]), Radix(i), delayCarry, a, Val(s[..i]), x);
      w := w[i := x];
      v[i] := x;
      assert w[..i + 1] == w && s[..i + 1] == s;
    }

    /** shr(): shift the value down by one bit, rounding towards minus
        infinity; each limb's low bit drops into bit 256 of the limb below,
        which is clear because the vector is normalised. */
    method Shr()
      requires v.Length > 0 && Normed(v[..])
      modifies v
      ensures Value() == old(Value()) / 2
      ensures Normed(v[..])
    {
      ghost var s := v[..];
      ghost var w := s;
      var i := v.Length - 1;
      ShrStart(s);
      while i > 0
        invariant 0 <= i < v.Length
        invariant w == v[..] && ShrInv(s, w, i)
        decreases i
      {
        var carry := v[i] % 2;
        var x := v[i] / 2;
        ShrAdvance(s, w, i);
        w := ShrMove(w, i);
        v[i] := x;
        v[i - 1] := v[i - 1] + carry * BASE;
        assert w == v[..];
        i := i - 1;
      }
      var x := v[0] / 2;
      ShrFinish(s, w);
      w := w[0 := x];
      v[0] := x;
      assert w == v[..];
    }

    /** toBytes(b): the limbs as big-endian bytes, top limb first, MODBYTES
        bytes per limb; bytes after them are left alone. */
    method ToBytes(b: array<uint8>)
      requires b.Length >= MODBYTES * v.Length
      modifies b
      ensures b[..MODBYTES * v.Length] == Encode(v[..])
      ensures b[MODBYTES * v.Length..] == old(b[MODBYTES * v.Length..])
    {
      var n := v.Length;
      for i := 0 to n
        invariant b[MODBYTES * (n - i)..MODBYTES * n] == Encode(v[..i])
        invariant b[MODBYTES * n..] == old(b[MODBYTES * n..])
      {
        var off := MODBYTES * (n - i - 1);
        PutBytes(b, off, LimbBytes(v[i], MODBYTES), MODBYTES * n);
        assert v[..i + 1][..i] == v[..i];
      }
      assert v[..n] == v[..];
    }

    /** fromBytes(x, b): the limbs of x read from big-endian bytes, top limb
        first. */
    static method FromBytes(x: FF, b: array<uint8>)
      requires b.Length >= MODBYTES * x.v.Length
      modifies x.v
      ensures x.v[..] == Decode(b[..MODBYTES * x.v.Length], x.v.Length)
    {
      var n := x.v.Length;
      for i := 0 to n
        invariant x.v[..i] == Decode(b[MODBYTES * (n - i)..MODBYTES * n], i)
      {
        var off := MODBYTES * (n - i - 1);
        x.v[i] := BytesVal(b[off..off + MODBYTES]);
        ghost var chunk := b[off..MODBYTES * n];
        assert chunk[..MODBYTES] == b[off..off + MODBYTES];
        assert chunk[MODBYTES..] == b[MODBYTES * (n - i)..MODBYTES * n];
        assert x.v[..i + 1] == x.v[..i] + [x.v[i]];
      }
      assert x.v[..n] == x.v[..];
      assert b[MODBYTES * (n - n)..MODBYTES * n] == b[..MODBYTES * n];
    }

    /** Writes bytes at b[off..]: one BIG's tobytearray. */
    static method PutBytes(b: array<uint8>, off: nat, bytes: seq<uint8>, end: nat)
      requires off + |bytes| <= end <= b.Length
      modifies b
      ensures b[..off] == old(b[..off])
      ensures b[off..end] == bytes + old(b[off + |bytes|..end])
      ensures b[end..] == old(b[end..])
    {
      forall k | 0 <= k < |bytes| {
        b[off + k] := bytes[k];
      }
      assert b[off..end] == b[off..off + |bytes|] + b[off + |bytes|..end];
    }

    /** cswap(a, b, d): exchange a and b when d = 1 and leave both when
        d = 0, doing the same arithmetic either way. */
    static method CSwap(a: FF, b: FF, d: int)
      requires a.v != b.v && a.v.Length == b.v.Length && (d == 0 || d == 1)
      modifies a.v, b.v
      ensures d == 1 ==> a.v[..] == old(b.v[..]) && b.v[..] == old(a.v[..])
      ensures d == 0 ==> a.v[..] == old(a.v[..]) && b.v[..] == old(b.v[..])
    {
      for i := 0 to a.v.Length
        invariant forall j | 0 <= j < i :: a.v[j] == (if d == 1 then old(b.v[j]) else old(a.v[j]))
        invariant forall j | 0 <= j < i :: b.v[j] == (if d == 1 then old(a.v[j]) else old(b.v[j]))
        invariant forall j | i <= j < a.v.Length :: a.v[j] == old(a.v[j]) && b.v[j] == old(b.v[j])
      {
        var t := d * (b.v[i] - a.v[i]);
        a.v[i] := a.v[i] + t;
        b.v[i] := b.v[i] - t;
      }
    }

    /* ---------------- products ---------------- */

    /** Overwrites the limbs with s: where a value-level Karatsuba result
        lands in this FF's array. */
    method Load(s: seq<int>)
      requires |s| == v.Length
      modifies v
      ensures v[..] == s && Value() == Val(s)
    {
      for i := 0 to v.Length
        invariant forall j | 0 <= j < i :: v[j] == s[j]
      {
        v[i] := s[i];
      }
    }

    /** mul(x, y): the 2n-limb Karatsuba product. */
    static method Mul(x: FF, y: FF) returns (z: FF)
      requires x.v.Length == y.v.Length && PowerOfTwo(x.v.Length)
      ensures fresh(z) && fresh(z.v) && z.v[..] == KarMul(x.v[..], y.v[..])
      ensures z.v.Length == 2 * x.v.Length && Normed(z.v[..]) && z.Value() == x.Value() * y.Value()
    {
      z := new FF(2 * x.v.Length);
      z.Load(KarMul(x.v[..], y.v[..]));
    }

    /** sqr(x): the 2n-limb Karatsuba square. */
    static method Sqr(x: FF) returns (z: FF)
      requires PowerOfTwo(x.v.Length)
      ensures fresh(z) && fresh(z.v) && z.v[..] == KarSqr(x.v[..])
      ensures z.v.Length == 2 * x.v.Length && Digits(z.v[..x.v.Length]) && z.Value() == x.Value() * x.Value()
    {
      z := new FF(2 * x.v.Length);
      z.Load(KarSqr(x.v[..]));
    }

    /** lmul(y): the low n limbs of this times y. */
    method Lmul(y: FF)
      requires y.v.Length >= v.Length && PowerOfTwo(v.Length)
      modifies v
      ensures v[..] == KarMulLower(old(v[..]), old(y.v[..v.Length]))
      ensures Digits(v[..]) && Value() == (old(Value()) * old(Val(y.v[..v.Length]))) % Radix(v.Length)
    {
      ghost var a, b := v[..], y.v[..v.Length];
      var x := new FF(v.Length);
      x.Copy(this);
      assert x.v[..] == a && y.v[..v.Length] == b;
      var lo := KarMulLower(x.v[..], y.v[..v.Length]);
      Load(lo);
    }

    /* ---------------- Montgomery reduction ---------------- */

    /** The middle of reduce, given m = low(T*ND) from karmul_lower and
        the product N*m that karmul_upper forms: this takes the product
        and m its top half, as sducopy does. */
    method MontgomeryStep(lo: seq<int>, z: seq<int>, m: FF)
      requires |z| == v.Length == 2 * m.v.Length && |lo| == m.v.Length
      modifies v, m.v
      ensures v[..] == z && m.v[..] == z[m.v.Length..]
    {
      m.Load(lo);
      Load(z);
      m.Sducopy(this);
      assert z[m.v.Length..2 * m.v.Length] == z[m.v.Length..];
    }

    /** The closing lines of reduce: add(N), sub(m), norm(). */
    method AddSubNorm(N: FF, m: FF)
      requires N.v.Length == v.Length && m.v.Length == v.Length && v.Length > 0
      requires N.v != v && m.v != v
      modifies v
      ensures v[..] == Carry(Minus(Plus(old(v[..]), N.v[..]), m.v[..]))
    {
      ghost var w := Carry(Minus(Plus(v[..], N.v[..]), m.v[..]));
      assert N.v[..v.Length] == N.v[..] && m.v[..v.Length] == m.v[..];
      Add(N);
      Sub(m);
      Norm();
      NormedUnique(v[..], w);
    }

    /** reduce(N, ND): the Montgomery reduction of the 2n-limb T held in
        this. Afterwards this holds N*m, the product karmul_upper forms in
        place of T. */
    method Reduce(N: FF, ND: FF) returns (r: FF)
      requires N.v.Length == ND.v.Length && N.v.Length >= 2 && PowerOfTwo(N.v.Length)
      requires v.Length == 2 * N.v.Length
      requires Digits(N.v[..]) && N.Value() > 0 && ModEq(N.Value() * ND.Value(), 1, Radix(N.v.Length))
      modifies v
      ensures fresh(r) && fresh(r.v) && r.v.Length == N.v.Length && Normed(r.v[..])
      ensures r.v[..] == Reduced(old(v[..]), N.v[..], ND.v[..])
      ensures v[..] == MontProduct(old(v[..]), N.v[..], ND.v[..])
    {
      var n := N.v.Length;
      ghost var T, Ns, NDs := v[..], N.v[..], ND.v[..];
      assert T[n..2 * n] == T[n..];
      var lo := KarMulLower(v[..n], ND.v[..]);
      var z := MontProduct(v[..], N.v[..], ND.v[..]);
      r := new FF(n);
      var m := new FF(n);
      r.Sducopy(this);
      assert N.v[..] == Ns && ND.v[..] == NDs;
      MontgomeryStep(lo, z, m);
      assert N.v[..] == Ns && ND.v[..] == NDs;
      r.AddSubNorm(N, m);
      assert N.v[..] == Ns && ND.v[..] == NDs;
    }

    /** One step of mod's descent: halve c, and subtract it when this is
        at least the halved c. */
    method HalveAndSubtract(c: FF)
      requires c.v != v && c.v.Length == v.Length && v.Length > 0
      requires Normed(v[..]) && Normed(c.v[..])
      modifies v, c.v
      ensures Normed(v[..]) && Normed(c.v[..]) && c.Value() == old(c.Value()) / 2
      ensures old(Value()) >= c.Value() ==> Value() == old(Value()) - c.Value()
      ensures old(Value()) < c.Value() ==> Value() == old(Value())
    {
      c.Shr();
      var r := Comp(this, c);
      if r >= 0 {
        assert c.v[..v.Length] == c.v[..];
        Sub(c);
        Norm();
      }
    }

    /** mod(c): this modulo c by shift and subtract. c is doubled until it
        exceeds this and then halved back step by step, so it ends as it
        began; the result lies below c and is congruent to the old value,
        and is the old value itself when that was already below c. */
    method Mod(c: FF)
      requires c.v != v && c.v.Length == v.Length && v.Length > 0
      requires Normed(c.v[..]) && c.Value() > 0
      modifies v, c.v
      ensures Normed(v[..]) && c.v[..] == old(c.v[..])
      ensures Value() < c.Value() && ModEq(Value(), old(Value()), c.Value())
      ensures old(Value()) < c.Value() ==> Value() == old(Value())
      ensures old(Value()) >= 0 ==> Value() == old(Value()) % c.Value()
    {
      ghost var C0, C, X := c.v[..], c.Value(), Value();
      Norm();
      var r := Comp(this, c);
      if r < 0 {
        if X >= 0 {
          DivModUnique(X, C, 0, X);
        }
        return;
      }
      c.Shl();
      var k: nat := 1;
      r := Comp(this, c);
      while r >= 0
        invariant Normed(v[..]) && Normed(c.v[..]) && Value() == X
        invariant k >= 1 && c.Value() == C * Pow2(k)
        invariant r == Sign(X - c.Value())
        decreases X - c.Value()
      {
        ScaleStep(C, k);
        c.Shl();
        k := k + 1;
        r := Comp(this, c);
      }
      while k > 0
        invariant Normed(v[..]) && Normed(c.v[..]) && c.Value() == C * Pow2(k)
        invariant 0 <= Value() < c.Value() && ModEq(Value(), X, C)
      {
        ghost var x := Value();
        ScaleStep(C, k - 1);
        HalveAndSubtract(c);
        k := k - 1;
        if x >= c.Value() {
          SubtractModulus(x, Value(), C, k, c.Value());
          ModEqTrans(Value(), x, X, C);
        }
      }
      NormedUnique(c.v[..], C0);
      ModEqIsMod(Value(), X, C);
    }

    /** The loop of dmod: k rounds of halving m and subtracting it from
        this when this is at least m. Starting from m = B * 2^k, this stays
        congruent to its old value modulo B, and ends in [0, B) when it
        started in [0, m). */
    method Descend(m: FF, k: nat, ghost B: int)
      requires m.v != v && m.v.Length == v.Length && v.Length > 0
      requires Normed(v[..]) && Normed(m.v[..]) && B > 0 && m.Value() == B * Pow2(k)
      modifies v, m.v
      ensures Normed(v[..]) && ModEq(Value(), old(Value()), B)
      ensures 0 <= old(Value()) < old(m.Value()) ==> 0 <= Value() < B
    {
      ghost var X := Value();
      ghost var exact := 0 <= X < m.Value();
      ModEqRefl(X, B);
      var i := k;
      while i > 0
        invariant Normed(v[..]) && Normed(m.v[..]) && m.Value() == B * Pow2(i)
        invariant ModEq(Value(), X, B)
        invariant exact ==> 0 <= Value() < m.Value()
      {
        ghost var x := Value();
        ScaleStep(B, i - 1);
        HalveAndSubtract(m);
        i := i - 1;
        if x >= m.Value() {
          SubtractModulus(x, Value(), B, i, m.Value());
          ModEqTrans(Value(), x, X, B);
        }
      }
    }

    /** dmod(b): this, a 2n-limb vector, modulo the n-limb b, by one pass
        of shift and subtract from b * R down to b, then mod. The result is
        always in [0, b); it is this mod b when 0 <= this < b * R and b is
        in digits. */
    method Dmod(b: FF) returns (r: FF)
      requires v.Length == 2 * b.v.Length && b.v.Length > 0
      requires Normed(b.v[..]) && b.Value() > 0
      modifies b.v
      ensures fresh(r) && fresh(r.v) && r.v.Length == b.v.Length && Normed(r.v[..])
      ensures b.v[..] == old(b.v[..])
      ensures 0 <= r.Value() < b.Value()
      ensures Digits(b.v[..]) && 0 <= old(Value()) < b.Value() * Radix(b.v.Length) ==>
        r.Value() == old(Value()) % b.Value()
    {
      ghost var X, B, Bs := Value(), b.Value(), b.v[..];
      ghost var exact := Digits(Bs) && 0 <= X < B * Radix(b.v.Length);
      var n := b.v.Length;
      var x := Descended(b);
      r := new FF(n);
      ghost var xs := x.v[..];
      if exact {
        DigitsBound(Bs);
      }
      DmodLow(xs, n, X, B, exact);
      r.Copy(x);
      ghost var rv := r.Value();
      assert rv == Val(xs[..n]);
      r.Mod(b);
      if exact {
        ModEqTrans(r.Value(), rv, X, B);
        ModEqIsMod(r.Value(), X, B);
      }
    }

    /** The first part of dmod: a normalised copy of this taken through
        the 256·n halve-and-subtract rounds against b shifted up n limbs. */
    method Descended(b: FF) returns (x: FF)
      requires v.Length == 2 * b.v.Length && b.v.Length > 0
      requires Normed(b.v[..]) && b.Value() > 0
      ensures fresh(x) && fresh(x.v) && x.v.Length == v.Length
      ensures Normed(x.v[..]) && ModEq(x.Value(), Value(), b.Value())
      ensures 0 <= Value() < b.Value() * Radix(b.v.Length) ==> 0 <= x.Value() < b.Value()
    {
      ghost var X, B := Value(), b.Value();
      var n := b.v.Length;
      x := new FF(2 * n);
      assert v[..2 * n] == v[..];
      x.Copy(this);
      x.Norm();
      var m := ShiftedCopy(b);
      var k: nat := LIMB_BITS * n;
      RadixIsPow2(n);
      x.Descend(m, k, B);
    }

    /** dsucopy(b) into a fresh 2n-limb FF: b times R, normalised when b
        is. */
    static method ShiftedCopy(b: FF) returns (m: FF)
      requires b.v.Length > 0
      ensures fresh(m) && fresh(m.v) && m.v.Length == 2 * b.v.Length
      ensures m.Value() == b.Value() * Radix(b.v.Length)
      ensures Normed(b.v[..]) ==> Normed(m.v[..])
    {
      var n := b.v.Length;
      m := new FF(2 * n);
      m.Dsucopy(b);
      assert m.v[..2 * n] == m.v[..];
      if Normed(b.v[..]) {
        ShiftedNormed(b.v[..], m.v[..]);
      }
    }

    /** nres(m): the Montgomery form of this, this * R mod m, as dmod of
        this shifted up by n limbs. */
    method Nres(m: FF)
      requires m.v != v && m.v.Length == v.Length && v.Length > 0
      requires Normed(m.v[..]) && m.Value() > 0
      modifies v, m.v
      ensures m.v[..] == old(m.v[..]) && Normed(v[..]) && 0 <= Value() < m.Value()
      ensures Digits(m.v[..]) && 0 <= old(Value()) < m.Value() ==>
        Value() == old(Value()) * Radix(v.Length) % m.Value()
    {
      ghost var X, M, Ms := Value(), m.Value(), m.v[..];
      var n := m.v.Length;
      var d := ShiftedCopy(this);
      ghost var D := d.Value();
      ghost var exact := Digits(Ms) && 0 <= X < M;
      if exact {
        MulStrictRight(Radix(n), X, M);
        assert D < M * Radix(n);
      }
      var r := d.Dmod(m);
      assert m.v[..] == Ms;
      ghost var rv := r.Value();
      assert exact ==> rv == D % M;
      Copy(r);
      assert Value() == rv;
    }

    /** reduce(N, ND) stated by what it means: for a 2n-limb T whose low
        half is in digits, the n-limb result times R is congruent to T
        modulo N, and for T >= 0 it is positive and at most (T + N*R)/R. */
    method MontReduce(N: FF, ND: FF) returns (r: FF)
      requires N.v.Length == ND.v.Length && N.v.Length >= 2 && PowerOfTwo(N.v.Length)
      requires v.Length == 2 * N.v.Length
      requires Digits(N.v[..]) && N.Value() > 0 && ModEq(N.Value() * ND.Value(), 1, Radix(N.v.Length))
      modifies v
      ensures fresh(r) && fresh(r.v) && r.v.Length == N.v.Length && Normed(r.v[..])
      ensures Digits(old(v[..N.v.Length])) ==>
        ModEq(r.Value() * Radix(N.v.Length), old(Value()), N.Value())
      ensures Digits(old(v[..N.v.Length])) && old(Value()) >= 0 ==>
        0 < r.Value() && r.Value() * Radix(N.v.Length) <= old(Value()) + N.Value() * Radix(N.v.Length)
    {
      ghost var T, Ns, NDs, x := v[..], N.v[..], ND.v[..], Value();
      assert T[..N.v.Length] == v[..N.v.Length];
      r := Reduce(N, ND);
      assert N.v[..] == Ns && ND.v[..] == NDs;
      ReducedOf(T, Ns, NDs, r.Value(), x, N.Value());
    }

    /** The middle of redc: this, extended by n zero limbs as dscopy does,
        is replaced by its Montgomery reduction. */
    method ReduceLow(m: FF, ND: FF)
      requires m.v != v && ND.v != v
      requires m.v.Length == v.Length && ND.v.Length == v.Length && v.Length >= 2 && PowerOfTwo(v.Length)
      requires Digits(m.v[..]) && m.Value() > 0 && ModEq(m.Value() * ND.Value(), 1, Radix(v.Length))
      modifies v
      ensures Normed(v[..])
      ensures Digits(old(v[..])) ==>
        0 < Value() && ModEq(Value() * Radix(v.Length), old(Value()), m.Value())
    {
      var n := v.Length;
      ghost var Ms, s1, x := m.v[..], v[..], Value();
      if Digits(s1) {
        DigitsBound(s1);
      }
      var d := new FF(2 * n);
      d.Dscopy(this);
      assert d.v[..n] == s1 && d.v[..2 * n] == d.v[..];
      assert m.v[..] == Ms;
      var r := d.MontReduce(m, ND);
      Copy(r);
    }

    /** modmul(y, p, nd): the Montgomery product of this and y. When the
        excess bits of the two operands could overflow the product, this is
        first reduced mod p; either way the result times R is congruent to
        the old this times y, and it is positive, and at most
        (this*y + p*R)/R, for nonnegative operands. */
    method Modmul(y: FF, p: FF, nd: FF)
      requires y.v != v && p.v != v && nd.v != v && p.v != y.v && p.v != nd.v
      requires y.v.Length == v.Length && p.v.Length == v.Length && nd.v.Length == v.Length
      requires v.Length >= 2 && PowerOfTwo(v.Length)
      requires Digits(p.v[..]) && p.Value() > 0 && ModEq(p.Value() * nd.Value(), 1, Radix(v.Length))
      modifies v, p.v
      ensures p.v[..] == old(p.v[..]) && Normed(v[..])
      ensures ModEq(Value() * Radix(v.Length), old(Value()) * old(y.Value()), p.Value())
      ensures old(Value()) >= 0 && old(y.Value()) >= 0 ==>
        0 < Value() && Value() * Radix(v.Length) <= old(Value()) * old(y.Value()) + p.Value() * Radix(v.Length)
    {
      ghost var X, Y, P, Ps := Value(), y.Value(), p.Value(), p.v[..];
      var n := v.Length;
      DigitsNormed(Ps);
      var ex := Pexcess();
      var ey := y.Pexcess();
      if (ex + 1) * (ey + 1) + 1 >= P_FEXCESS {
        Mod(p);
        if X >= 0 {
          ModLe(X, P);
        }
      } else {
        ModEqRefl(X, P);
      }
      ghost var x1 := Value();
      assert p.v[..] == Ps && y.Value() == Y;
      MulReduce(y, p, nd);
      ModmulValue(X, x1, Y, Value(), P, Radix(n));
    }

    /** The last two lines of modmul: this := reduce(mul(this, y)). */
    method MulReduce(y: FF, p: FF, nd: FF)
      requires y.v != v && p.v != v
      requires y.v.Length == v.Length && p.v.Length == v.Length && nd.v.Length == v.Length
      requires v.Length >= 2 && PowerOfTwo(v.Length)
      requires Digits(p.v[..]) && p.Value() > 0 && ModEq(p.Value() * nd.Value(), 1, Radix(v.Length))
      modifies v
      ensures Normed(v[..])
      ensures ModEq(Value() * Radix(v.Length), old(Value()) * y.Value(), p.Value())
      ensures old(Value()) * y.Value() >= 0 ==>
        0 < Value() && Value() * Radix(v.Length) <= old(Value()) * y.Value() + p.Value() * Radix(v.Length)
    {
      var n := v.Length;
      var d := Mul(this, y);
      NormedPrefix(d.v[..], n);
      assert d.v[..][..n] == d.v[..n];
      var r := d.MontReduce(p, nd);
      Copy(r);
    }

    /** modsqr(p, nd): the Montgomery square of this, reducing this mod p
        first when its excess bits could overflow the square. */
    method Modsqr(p: FF, nd: FF)
      requires p.v != v && nd.v != v && p.v != nd.v
      requires p.v.Length == v.Length && nd.v.Length == v.Length
      requires v.Length >= 2 && PowerOfTwo(v.Length)
      requires Digits(p.v[..]) && p.Value() > 0 && ModEq(p.Value() * nd.Value(), 1, Radix(v.Length))
      modifies v, p.v
      ensures p.v[..] == old(p.v[..]) && Normed(v[..])
      ensures ModEq(Value() * Radix(v.Length), old(Value()) * old(Value()), p.Value())
      ensures 0 < Value()
      ensures old(Value()) >= 0 ==>
        Value() * Radix(v.Length) <= old(Value()) * old(Value()) + p.Value() * Radix(v.Length)
    {
      ghost var X, P, Ps := Value(), p.Value(), p.v[..];
      var n := v.Length;
      DigitsNormed(Ps);
      var ex := Pexcess();
      if (ex + 1) * (ex + 1) + 1 >= P_FEXCESS {
        Mod(p);
        if X >= 0 {
          ModLe(X, P);
        }
      } else {
        ModEqRefl(X, P);
      }
      ghost var x1 := Value();
      assert p.v[..] == Ps;
      SqrReduce(p, nd);
      SquareValue(X, x1, Value(), P, Radix(n));
    }

    /** The last two lines of modsqr: this := reduce(sqr(this)). */
    method SqrReduce(p: FF, nd: FF)
      requires p.v != v
      requires p.v.Length == v.Length && nd.v.Length == v.Length
      requires v.Length >= 2 && PowerOfTwo(v.Length)
      requires Digits(p.v[..]) && p.Value() > 0 && ModEq(p.Value() * nd.Value(), 1, Radix(v.Length))
      modifies v
      ensures Normed(v[..])
      ensures ModEq(Value() * Radix(v.Length), old(Value()) * old(Value()), p.Value())
      ensures 0 < Value() && Value() * Radix(v.Length) <= old(Value()) * old(Value()) + p.Value() * Radix(v.Length)
    {
      SquareNonneg(Value());
      var d := Sqr(this);
      var r := d.MontReduce(p, nd);
      Copy(r);
    }

    /** redc(m, ND): out of Montgomery form: mod, then reduce of this
        extended by n zero limbs, then mod again. For this >= 0 the result
        is in [0, m) and times R is congruent to the old value. */
    method Redc(m: FF, ND: FF)
      requires m.v != v && ND.v != v && ND.v != m.v
      requires m.v.Length == v.Length && ND.v.Length == v.Length && v.Length >= 2 && PowerOfTwo(v.Length)
      requires Digits(m.v[..]) && m.Value() > 0 && ModEq(m.Value() * ND.Value(), 1, Radix(v.Length))
      modifies v, m.v
      ensures m.v[..] == old(m.v[..]) && Normed(v[..]) && Value() < m.Value()
      ensures old(Value()) >= 0 ==>
        0 <= Value() && ModEq(Value() * Radix(v.Length), old(Value()), m.Value())
    {
      ghost var X, M, Ms := Value(), m.Value(), m.v[..];
      var n := m.v.Length;
      DigitsNormed(Ms);
      DigitsBound(Ms);
      Mod(m);
      ghost var x1 := Value();
      if X >= 0 {
        NormedSmall(v[..], n);
      }
      ReduceLow(m, ND);
      ghost var rv := Value();
      Mod(m);
      if X >= 0 {
        RedcChain(X, x1, rv, Value(), Radix(n), M);
      }
    }

    /* ---------------- inverse modulo R (Arazi-Qi) ---------------- */

    /** invmod2m(): for an odd modulus this in digits, U with
        this * U = 1 modulo R = Radix(n), doubling the number of correct
        limbs on each round from the inverse of the lowest limb. */
    method Invmod2m() returns (U: FF)
      requires PowerOfTwo(v.Length) && Digits(v[..]) && Value() % 2 == 1
      ensures fresh(U) && fresh(U.v) && U.v.Length == v.Length && Digits(U.v[..])
      ensures ModEq(Value() * U.Value(), 1, Radix(v.Length))
    {
      var n := v.Length;
      var b := new FF(n);
      var c := new FF(n);
      U := new FF(n);
      U.Zero();
      U.v[0] := LimbInv(v[0]);
      assert U.v[..] == [LimbInv(v[0])] + Zeros(n - 1);
      ValPadded([LimbInv(v[0])], n - 1);
      ValSingle(LimbInv(v[0]));
      InvStart(v[..], LimbInv(v[0]));
      var i := 1;
      while i < n
        invariant 1 <= i <= n && PowerOfTwo(i)
        invariant U.v.Length == n && b.v.Length == n && c.v.Length == n
        invariant fresh(U.v) && fresh(b.v) && fresh(c.v) && U.v != b.v && U.v != c.v && b.v != c.v
        invariant Digits(U.v[..]) && U.Value() < Radix(i)
        invariant ModEq(Value() * U.Value(), 1, Radix(i))
        decreases n - i
      {
        PowerOfTwoDouble(i, n);
        InvRound(U, b, c, i);
        i := 2 * i;
      }
      DigitsBound(U.v[..]);
      U.Norm();
      NormedSmall(U.v[..], n);
    }

    /** One round of invmod2m with this the modulus a: from U, the inverse
        of a modulo Radix(i), the inverse modulo Radix(2i). */
    method InvRound(U: FF, b: FF, c: FF, i: nat)
      requires v != U.v && v != b.v && v != c.v && U.v != b.v && U.v != c.v && b.v != c.v
      requires U.v.Length == v.Length && b.v.Length == v.Length && c.v.Length == v.Length
      requires PowerOfTwo(v.Length) && 1 <= i && 2 * i <= v.Length
      requires Digits(v[..]) && Digits(U.v[..]) && U.Value() < Radix(i)
      requires ModEq(Value() * U.Value(), 1, Radix(i))
      modifies U.v, b.v, c.v
      ensures Digits(U.v[..]) && U.Value() < Radix(2 * i)
      ensures ModEq(Value() * U.Value(), 1, Radix(2 * i))
    {
      var n := v.Length;
      ghost var A, u, us := Value(), U.Value(), U.v[..];
      b.HighHalf(this, U, i);
      ghost var h := b.Value();
      c.CrossHalf(this, U, i);
      ghost var cv := c.Value();
      assert U.v[..] == us && b.Value() == h;
      b.Correction(c, U, i);
      ghost var bs, bv := b.v[..], b.Value();
      U.Add(b);
      assert b.v[..n] == bs;
      DisjointSum(us, bs, U.v[..], i, n);
      RoundValue(A, u, h, cv, bv, U.Value(), i);
    }

    /** b := a mod Radix(i); t := U*b; b := the low n limbs of t after
        shrw(i). With U the inverse of a modulo Radix(i), this leaves in b
        the high half h of U*(a mod Radix(i)) = 1 + Radix(i)*h. */
    method HighHalf(a: FF, U: FF, i: nat)
      requires v != a.v && v != U.v
      requires a.v.Length == v.Length && U.v.Length == v.Length && PowerOfTwo(v.Length)
      requires 1 <= i && 2 * i <= v.Length
      requires Digits(a.v[..]) && Digits(U.v[..]) && U.Value() < Radix(i)
      requires ModEq(a.Value() * U.Value(), 1, Radix(i))
      modifies v
      ensures Digits(v[..]) && U.Value() * (a.Value() % Radix(i)) == 1 + Radix(i) * Value()
    {
      var n := v.Length;
      ghost var A, Uv := a.Value(), U.Value();
      DigitsBound(U.v[..]);
      Copy(a);
      Mod2m(i);
      ghost var a0 := Value();
      assert U.Value() == Uv;
      LowInverse(A, Uv, Radix(i));
      var t := Mul(U, this);
      ghost var ts := t.v[..];
      t.Shrw(i);
      Copy(t);
      HighOfProduct(ts, v[..], i, n, Uv, a0);
    }

    /** c := a shifted down i limbs, cut to i limbs, times U, modulo
        Radix(i): the cross term U*a1 mod Radix(i), a1 the second base
        Radix(i) digit of a. */
    method CrossHalf(a: FF, U: FF, i: nat)
      requires v != a.v && v != U.v
      requires a.v.Length == v.Length && U.v.Length == v.Length && PowerOfTwo(v.Length)
      requires 2 * i <= v.Length && Digits(a.v[..])
      modifies v
      ensures Digits(v[..]) && Value() == (U.Value() * ((a.Value() / Radix(i)) % Radix(i))) % Radix(i)
    {
      ghost var A, Uv := a.Value(), U.Value();
      SecondDigit(a, i);
      ghost var a1 := Value();
      LowProduct(U, i);
      CrossValue(Value(), a1, Uv, A, i);
    }

    /** c.copy(a); c.shrw(i); c.mod2m(i): the second base-Radix(i) digit
        of a. */
    method SecondDigit(a: FF, i: nat)
      requires v != a.v && a.v.Length == v.Length && 2 * i <= v.Length && Digits(a.v[..])
      modifies v
      ensures Digits(v[..]) && Value() == (a.Value() / Radix(i)) % Radix(i)
    {
      var n := v.Length;
      ghost var As := a.v[..];
      Copy(a);
      Shrw(i);
      ghost var S := v[..];
      assert S[..i] == As[i..2 * i];
      Mod2m(i);
      ghost var T := As[i..2 * i] + Zeros(n - i);
      assert forall j | 0 <= j < n :: v[j] == T[j];
      assert v[..] == T;
      SecondDigitValue(As, i, n);
    }

    static lemma SecondDigitValue(As: seq<int>, i: nat, n: nat)
      requires Digits(As) && 2 * i <= |As| && i <= n
      ensures Digits(As[i..2 * i] + Zeros(n - i))
      ensures Val(As[i..2 * i] + Zeros(n - i)) == (Val(As) / Radix(i)) % Radix(i)
    {
      ValPadded(As[i..2 * i], n - i);
      Halves(As, i);
    }

    /** lmul(U) then mod2m(i): this times U modulo Radix(i). */
    method LowProduct(U: FF, i: nat)
      requires v != U.v && U.v.Length == v.Length && PowerOfTwo(v.Length) && i <= v.Length
      modifies v
      ensures Digits(v[..]) && Value() == (old(Value()) * U.Value()) % Radix(i)
    {
      var n := v.Length;
      ghost var x, Uv := Value(), U.Value();
      assert U.v[..n] == U.v[..];
      Lmul(U);
      ghost var l := Value();
      Mod2m(i);
      LowOfLow(Value(), l, x * Uv, i, n);
    }

    /** b := ((b + c)*U mod Radix(i)) = w; c := Radix(i); b := c - w,
        normalised, shifted up i limbs: the correction Radix(i)*((Radix(i)
        - w) mod Radix(i)), held in limbs i..2i-1. */
    method Correction(c: FF, U: FF, i: nat)
      requires v != c.v && v != U.v && c.v != U.v
      requires c.v.Length == v.Length && U.v.Length == v.Length && PowerOfTwo(v.Length)
      requires 1 <= i && 2 * i <= v.Length
      modifies v, c.v
      ensures v[..] == Zeros(i) + v[i..2 * i] + Zeros(v.Length - 2 * i) && Digits(v[i..2 * i])
      ensures Value() == Radix(i) * ((Radix(i) - ((old(Value()) + old(c.Value())) * U.Value()) % Radix(i)) % Radix(i))
    {
      ghost var Uv, g := U.Value(), Value() + c.Value();
      assert c.v[..v.Length] == c.v[..];
      Add(c);
      Norm();
      assert Value() == g;
      LowProduct(U, i);
      Complement(c, i);
    }

    /** c := Radix(i) by one() and shlw(i); this := c - this, normalised
        and shifted up i limbs: Radix(i) times (Radix(i) - w) mod Radix(i)
        for w in [0, Radix(i)), in limbs i..2i-1. */
    method Complement(c: FF, i: nat)
      requires v != c.v && c.v.Length == v.Length && 1 <= i && 2 * i <= v.Length
      requires 0 <= Value() < Radix(i)
      modifies v, c.v
      ensures v[..] == Zeros(i) + v[i..2 * i] + Zeros(v.Length - 2 * i) && Digits(v[i..2 * i])
      ensures Value() == Radix(i) * ((Radix(i) - old(Value())) % Radix(i))
    {
      var n := v.Length;
      c.One();
      c.Shlw(i);
      UnitAt(c.v[..], i, n);
      assert c.v[..n] == c.v[..];
      RevSub(c);
      Norm();
      ghost var bs := v[..];
      Shlw(i);
      ShiftedCorrection(bs, v[..], i, n);
    }

    /* ---------------- exponentiation ---------------- */

    /** One rung of the Montgomery ladder of skpow, with this as scratch:
        this := R0*R1/R; swap on b; R0 := R0^2/R; R1 := this; swap back.
        For b = 0 that squares R0 and multiplies into R1, for b = 1 it
        multiplies into R0 and squares R1, modulo p. */
    method LadderRung(R0: FF, R1: FF, b: int, p: FF, ND: FF) returns (ghost trace: seq<LadderOp>)
      requires v != R0.v && v != R1.v && v != p.v && v != ND.v && R0.v != R1.v
      requires R0.v != p.v && R0.v != ND.v && R1.v != p.v && R1.v != ND.v && p.v != ND.v
      requires R0.v.Length == v.Length && R1.v.Length == v.Length && p.v.Length == v.Length && ND.v.Length == v.Length
      requires v.Length >= 2 && PowerOfTwo(v.Length) && (b == 0 || b == 1)
      requires Digits(p.v[..]) && p.Value() > 0 && ModEq(p.Value() * ND.Value(), 1, Radix(v.Length))
      requires R0.Value() >= 0 && R1.Value() >= 0
      modifies v, R0.v, R1.v, p.v
      ensures p.v[..] == old(p.v[..]) && R0.Value() >= 0 && R1.Value() >= 0
      ensures b == 0 ==> ModEq(R0.Value() * Radix(v.Length), old(R0.Value()) * old(R0.Value()), p.Value())
      ensures b == 0 ==> ModEq(R1.Value() * Radix(v.Length), old(R0.Value()) * old(R1.Value()), p.Value())
      ensures b == 1 ==> ModEq(R0.Value() * Radix(v.Length), old(R0.Value()) * old(R1.Value()), p.Value())
      ensures b == 1 ==> ModEq(R1.Value() * Radix(v.Length), old(R1.Value()) * old(R1.Value()), p.Value())
      ensures trace == RUNG
    {
      ghost var a, c, Ps := R0.Value(), R1.Value(), p.v[..];
      assert R0.v[..v.Length] == R0.v[..];
      Copy(R0);
      trace := [CopyOp(Scratch, RZero)];
      Modmul(R1, p, ND);
      trace := trace + [ModmulOp(Scratch, ROne)];
      ghost var m := Value();
      CSwap(R0, R1, b);
      trace := trace + [CSwapOp];
      R0.Modsqr(p, ND);
      trace := trace + [ModsqrOp(RZero)];
      assert v[..R1.v.Length] == v[..];
      R1.Copy(this);
      trace := trace + [CopyOp(ROne, Scratch)];
      CSwap(R0, R1, b);
      trace := trace + [CSwapOp];
    }

    /** skpow(e, p): this^e mod p by a Montgomery ladder over all
        8*MODBYTES*n bits of e, for an odd modulus p in digits. */
    method Skpow(e: FF, p: FF) returns (ghost trace: seq<LadderOp>)
      requires v != e.v && v != p.v && e.v != p.v
      requires p.v.Length == v.Length && e.v.Length == v.Length && v.Length >= 2 && PowerOfTwo(v.Length)
      requires Digits(p.v[..]) && p.Value() % 2 == 1 && Digits(e.v[..]) && Value() >= 0
      modifies v, p.v
      ensures p.v[..] == old(p.v[..])
      ensures old(e.Value()) >= 0 && Value() == Exp(old(Value()), old(e.Value())) % p.Value()
      ensures trace == Repeat(RUNG, 8 * MODBYTES * v.Length)
    {
      var n := p.v.Length;
      ghost var X, E, P, Ps, Es := Value(), e.Value(), p.Value(), p.v[..], e.v[..];
      DigitsBound(Es);
      var R0 := new FF(n);
      var R1 := new FF(n);
      var ND := p.Invmod2m();
      ghost var NDs := ND.v[..];
      DigitsBound(Ps);
      ghost var x := MontStart(R0, R1, p);
      trace := Ladder(R0, R1, e, p, ND, x);
      MontFinish(R0, p, ND, Exp(x, E));
      ModEqExpMod(X, x, E, P);
    }

    /** The loop of skpow: the ladder over the 8*MODBYTES*n bits of e from
        the top leaves R0 the form of x^e. */
    method Ladder(R0: FF, R1: FF, e: FF, p: FF, ND: FF, ghost x: int) returns (ghost trace: seq<LadderOp>)
      requires v != R0.v && v != R1.v && v != p.v && v != ND.v && R0.v != R1.v
      requires R0.v != p.v && R0.v != ND.v && R1.v != p.v && R1.v != ND.v && p.v != ND.v
      requires R0.v.Length == v.Length && R1.v.Length == v.Length && p.v.Length == v.Length && ND.v.Length == v.Length
      requires v.Length >= 2 && PowerOfTwo(v.Length)
      requires p.Value() > 0 && Digits(p.v[..]) && p.Value() % 2 == 1 && ModEq(p.Value() * ND.Value(), 1, Radix(v.Length))
      requires R0.Value() >= 0 && R1.Value() >= 0
      requires Mont(R0.Value(), Exp(x, 0), p.Value(), v.Length) && Mont(R1.Value(), Exp(x, 1), p.Value(), v.Length)
      requires e.v != v && e.v != R0.v && e.v != R1.v && e.v != p.v
      requires e.v.Length == v.Length && Digits(e.v[..])
      modifies v, R0.v, R1.v, p.v
      ensures p.v[..] == old(p.v[..]) && R0.Value() >= 0 && e.Value() >= 0
      ensures Mont(R0.Value(), Exp(x, e.Value()), p.Value(), v.Length)
      ensures trace == Repeat(RUNG, 8 * MODBYTES * v.Length)
    {
      var n := v.Length;
      ghost var E, P, Ps := e.Value(), p.Value(), p.v[..];
      DigitsBound(e.v[..]);
      RadixIsPow2(n);
      NoBitsAbove(E, 8 * MODBYTES * n);
      var i := 8 * MODBYTES * n;
      ghost var k: nat := 0;
      trace := [];
      while i > 0
        invariant 0 <= i <= 8 * MODBYTES * n
        invariant p.v[..] == Ps && p.Value() == P && e.Value() == E
        invariant R0.Value() >= 0 && R1.Value() >= 0
        invariant k == E / Pow2(i)
        invariant Mont(R0.Value(), Exp(x, k), P, n) && Mont(R1.Value(), Exp(x, k + 1), P, n)
        invariant trace == Repeat(RUNG, 8 * MODBYTES * n - i)
      {
        i := i - 1;
        var b := e.BitAt(i);
        BitStep(E, i);
        ghost var rung := LadderBit(R0, R1, b, p, ND, x, k);
        trace := trace + rung;
        k := 2 * k + b;
      }
      assert Pow2(0) == 1;
    }

    /** Bit i of the value: bit i mod 256 of limb i/256, when the limbs are
        digits. */
    method BitAt(i: nat) returns (b: int)
      requires Digits(v[..]) && i < LIMB_BITS * v.Length
      ensures b == Bit(Value(), i) && (b == 0 || b == 1)
    {
      b := Bit(v[i / LIMB_BITS], i % LIMB_BITS);
      BitOfVal(v[..], i);
    }

    /** skpow(e, p) for a short exponent e, one BIG of 8*MODBYTES bits:
        the same ladder over those bits. */
    method SkpowBig(e: int, p: FF) returns (ghost trace: seq<LadderOp>)
      requires v != p.v && p.v.Length == v.Length && v.Length >= 2 && PowerOfTwo(v.Length)
      requires Digits(p.v[..]) && p.Value() % 2 == 1 && 0 <= e < BASE && Value() >= 0
      modifies v, p.v
      ensures p.v[..] == old(p.v[..])
      ensures Value() == Exp(old(Value()), e) % p.Value()
      ensures trace == Repeat(RUNG, 8 * MODBYTES)
    {
      var n := p.v.Length;
      ghost var X, P, Ps := Value(), p.Value(), p.v[..];
      var R0 := new FF(n);
      var R1 := new FF(n);
      var ND := p.Invmod2m();
      ghost var NDs := ND.v[..];
      DigitsBound(Ps);
      ghost var x := MontStart(R0, R1, p);
      trace := LadderBig(R0, R1, e, p, ND, x);
      MontFinish(R0, p, ND, Exp(x, e));
      ModEqExpMod(X, x, e, P);
    }

    /** The loop of skpow for a short exponent: the ladder over the
        8*MODBYTES bits of e leaves R0 the form of x^e. */
    method LadderBig(R0: FF, R1: FF, e: int, p: FF, ND: FF, ghost x: int) returns (ghost trace: seq<LadderOp>)
      requires v != R0.v && v != R1.v && v != p.v && v != ND.v && R0.v != R1.v
      requires R0.v != p.v && R0.v != ND.v && R1.v != p.v && R1.v != ND.v && p.v != ND.v
      requires R0.v.Length == v.Length && R1.v.Length == v.Length && p.v.Length == v.Length && ND.v.Length == v.Length
      requires v.Length >= 2 && PowerOfTwo(v.Length)
      requires p.Value() > 0 && Digits(p.v[..]) && p.Value() % 2 == 1 && ModEq(p.Value() * ND.Value(), 1, Radix(v.Length))
      requires R0.Value() >= 0 && R1.Value() >= 0
      requires Mont(R0.Value(), Exp(x, 0), p.Value(), v.Length) && Mont(R1.Value(), Exp(x, 1), p.Value(), v.Length)
      requires 0 <= e < BASE
      modifies v, R0.v, R1.v, p.v
      ensures p.v[..] == old(p.v[..]) && R0.Value() >= 0
      ensures Mont(R0.Value(), Exp(x, e), p.Value(), v.Length)
      ensures trace == Repeat(RUNG, 8 * MODBYTES)
    {
      var n := v.Length;
      ghost var P, Ps := p.Value(), p.v[..];
      BaseFacts();
      NoBitsAbove(e, 8 * MODBYTES);
      var i := 8 * MODBYTES;
      ghost var k: nat := 0;
      trace := [];
      while i > 0
        invariant 0 <= i <= 8 * MODBYTES
        invariant p.v[..] == Ps && p.Value() == P
        invariant R0.Value() >= 0 && R1.Value() >= 0
        invariant k == e / Pow2(i)
        invariant Mont(R0.Value(), Exp(x, k), P, n) && Mont(R1.Value(), Exp(x, k + 1), P, n)
        invariant trace == Repeat(RUNG, 8 * MODBYTES - i)
      {
        i := i - 1;
        var b := Bit(e, i);
        BitStep(e, i);
        ghost var rung := LadderBit(R0, R1, b, p, ND, x, k);
        trace := trace + rung;
        k := 2 * k + b;
      }
      assert Pow2(0) == 1;
    }

    /** The start of skpow: this := this mod p, R0 := nres(1),
        R1 := nres(this); R0 and R1 become the forms of x^0 and x^1 with
        x the reduced base. */
    method MontStart(R0: FF, R1: FF, p: FF) returns (ghost x: int)
      requires v != R0.v && v != R1.v && v != p.v && R0.v != R1.v && R0.v != p.v && R1.v != p.v
      requires R0.v.Length == v.Length && R1.v.Length == v.Length && p.v.Length == v.Length && v.Length > 0
      requires Digits(p.v[..]) && p.Value() > 0 && Value() >= 0
      modifies v, R0.v, R1.v, p.v
      ensures p.v[..] == old(p.v[..]) && x == Value() && 0 <= x < p.Value() && ModEq(x, old(Value()), p.Value())
      ensures R0.Value() >= 0 && R1.Value() >= 0
      ensures Mont(R0.Value(), Exp(x, 0), p.Value(), v.Length) && Mont(R1.Value(), Exp(x, 1), p.Value(), v.Length)
    {
      var n := v.Length;
      ghost var P := p.Value();
      DigitsNormed(p.v[..]);
      Mod(p);
      x := Value();
      R0.One();
      assert v[..R1.v.Length] == v[..];
      R1.Copy(this);
      R0.Nres(p);
      R1.Nres(p);
      NresMont(R0.Value(), 1, P, n);
      NresMont(R1.Value(), x, P, n);
      assert Exp(x, 0) == 1 && Exp(x, 1) == x;
    }

    /** One rung of a ladder: bit b moves the pair from the forms of x^k
        and x^(k+1) to those of x^(2k+b) and x^(2k+b+1). */
    method LadderBit(R0: FF, R1: FF, b: int, p: FF, ND: FF, ghost x: int, ghost k: nat)
      returns (ghost trace: seq<LadderOp>)
      requires v != R0.v && v != R1.v && v != p.v && v != ND.v && R0.v != R1.v
      requires R0.v != p.v && R0.v != ND.v && R1.v != p.v && R1.v != ND.v && p.v != ND.v
      requires R0.v.Length == v.Length && R1.v.Length == v.Length && p.v.Length == v.Length && ND.v.Length == v.Length
      requires v.Length >= 2 && PowerOfTwo(v.Length) && (b == 0 || b == 1)
      requires p.Value() > 0 && Digits(p.v[..]) && p.Value() % 2 == 1 && ModEq(p.Value() * ND.Value(), 1, Radix(v.Length))
      requires R0.Value() >= 0 && R1.Value() >= 0
      requires Mont(R0.Value(), Exp(x, k), p.Value(), v.Length) && Mont(R1.Value(), Exp(x, k + 1), p.Value(), v.Length)
      modifies v, R0.v, R1.v, p.v
      ensures p.v[..] == old(p.v[..]) && R0.Value() >= 0 && R1.Value() >= 0
      ensures Mont(R0.Value(), Exp(x, 2 * k + b), p.Value(), v.Length)
      ensures Mont(R1.Value(), Exp(x, 2 * k + b + 1), p.Value(), v.Length)
      ensures trace == RUNG
    {
      ghost var r0, r1 := R0.Value(), R1.Value();
      trace := LadderRung(R0, R1, b, p, ND);
      LadderStep(r0, r1, R0.Value(), R1.Value(), k, b, x, p.Value(), v.Length);
    }

    /** The end of every exponentiation: this := redc(R0), which for R0
        the form of a is a mod p. */
    method MontFinish(R0: FF, p: FF, ND: FF, ghost a: int)
      requires v != R0.v && v != p.v && v != ND.v && R0.v != p.v && p.v != ND.v
      requires R0.v.Length == v.Length && p.v.Length == v.Length && ND.v.Length == v.Length
      requires v.Length >= 2 && PowerOfTwo(v.Length)
      requires p.Value() > 0 && Digits(p.v[..]) && p.Value() % 2 == 1 && ModEq(p.Value() * ND.Value(), 1, Radix(v.Length))
      requires R0.Value() >= 0 && Mont(R0.Value(), a, p.Value(), v.Length)
      modifies v, p.v
      ensures p.v[..] == old(p.v[..]) && Value() == a % p.Value()
    {
      assert R0.v[..v.Length] == R0.v[..];
      Copy(R0);
      Finish(p, ND, a);
    }

    /** redc(p, ND) applied to the form of a leaves a mod p. */
    method Finish(p: FF, ND: FF, ghost a: int)
      requires v != p.v && v != ND.v && p.v != ND.v
      requires p.v.Length == v.Length && ND.v.Length == v.Length
      requires v.Length >= 2 && PowerOfTwo(v.Length)
      requires p.Value() > 0 && Digits(p.v[..]) && p.Value() % 2 == 1 && ModEq(p.Value() * ND.Value(), 1, Radix(v.Length))
      requires Value() >= 0 && Mont(Value(), a, p.Value(), v.Length)
      modifies v, p.v
      ensures p.v[..] == old(p.v[..]) && Normed(v[..]) && Value() == a % p.Value()
    {
      ghost var r := Value();
      Redc(p, ND);
      MontOut(Value(), r, a, p.Value(), v.Length);
    }

    /** power(e, p): this^e mod p for a machine-integer exponent, right to
        left: w runs through the forms of x^(2^j) and this collects the
        set bits, starting with the first set bit's w; e = 2 is one
        squaring. For e = 0 no bit is collected and the result is
        redc(this), the Montgomery reduction of the base rather than 1.
        The base must already be below p. */
    method Power(e: nat, p: FF)
      requires v != p.v && p.v.Length == v.Length && v.Length >= 2 && PowerOfTwo(v.Length)
      requires Digits(p.v[..]) && p.Value() % 2 == 1 && 0 <= Value() < p.Value()
      modifies v, p.v
      ensures p.v[..] == old(p.v[..]) && Normed(v[..])
      ensures e > 0 ==> Value() == Exp(old(Value()), e) % p.Value()
      ensures e == 0 ==> 0 <= Value() < p.Value() && ModEq(Value() * Radix(v.Length), old(Value()), p.Value())
    {
      var n := p.v.Length;
      ghost var X, P, Ps := Value(), p.Value(), p.v[..];
      var f := true;
      var w := new FF(n);
      var ND := p.Invmod2m();
      DigitsBound(Ps);
      DigitsNormed(Ps);
      assert v[..w.v.Length] == v[..];
      w.Copy(this);
      w.Nres(p);
      NresMont(w.Value(), X, P, n);
      if e == 2 {
        ghost var W := w.Value();
        assert w.v[..v.Length] == w.v[..];
        Copy(w);
        Modsqr(p, ND);
        SquareOnce(Value(), W, X, P, n);
        Finish(p, ND, Exp(X, e));
      } else {
        assert Pow2(0) == 1 && Exp(X, 1) == X;
        f := PowerLoop(e, w, p, ND, X);
        if f {
          Redc(p, ND);
        } else {
          Finish(p, ND, Exp(X, e));
        }
      }
    }

    /** The loop of power for e other than 2: e is consumed from its low
        bit; f stays true, and this untouched, until the first set bit. */
    method PowerLoop(e: nat, w: FF, p: FF, ND: FF, ghost x: int) returns (f: bool)
      requires v != w.v && v != p.v && v != ND.v && w.v != p.v && w.v != ND.v && p.v != ND.v
      requires w.v.Length == v.Length && p.v.Length == v.Length && ND.v.Length == v.Length
      requires v.Length >= 2 && PowerOfTwo(v.Length)
      requires p.Value() > 0 && Digits(p.v[..]) && p.Value() % 2 == 1 && ModEq(p.Value() * ND.Value(), 1, Radix(v.Length))
      requires w.Value() >= 0 && Mont(w.Value(), Exp(x, Pow2(0)), p.Value(), v.Length)
      modifies v, w.v, p.v
      ensures p.v[..] == old(p.v[..])
      ensures f <==> e == 0
      ensures f ==> v[..] == old(v[..])
      ensures !f ==> Value() >= 0 && Mont(Value(), Exp(x, e), p.Value(), v.Length)
    {
      var n := v.Length;
      ghost var X, P, Ps, NDs := Value(), p.Value(), p.v[..], ND.v[..];
      ghost var V := v[..];
      f := true;
      var e' := e;
      ghost var j: nat := 0;
      while true
        invariant p.v[..] == Ps && ND.v[..] == NDs && p.Value() == P
        invariant w.Value() >= 0 && Mont(w.Value(), Exp(x, Pow2(j)), P, n)
        invariant e' == e / Pow2(j) && (f <==> e % Pow2(j) == 0)
        invariant f ==> v[..] == V
        invariant !f ==> Value() >= 0 && Mont(Value(), Exp(x, e % Pow2(j)), P, n)
        decreases e'
      {
        LowBitStep(e, j);
        LowBitsZero(e, j);
        ghost var lo := e % Pow2(j);
        if e' % 2 == 1 {
          assert e % Pow2(j + 1) == lo + Pow2(j);
          Collect(w, f, p, ND, x, lo, j);
          f := false;
        } else {
          assert e % Pow2(j + 1) == lo;
        }
        e' := e' / 2;
        j := j + 1;
        if e' == 0 {
          break;
        }
        ghost var c := w.Value();
        w.Modsqr(p, ND);
        SquareRunning(c, w.Value(), x, j - 1, P, n);
      }
      AllBitsRead(e, j);
    }

    /** A set bit j in power: the first one copies w, the form of
        x^(2^j), and later ones multiply it in. */
    method Collect(w: FF, f: bool, p: FF, ND: FF, ghost x: int, ghost lo: nat, ghost j: nat)
      requires v != w.v && v != p.v && v != ND.v && w.v != p.v && w.v != ND.v && p.v != ND.v
      requires w.v.Length == v.Length && p.v.Length == v.Length && ND.v.Length == v.Length
      requires v.Length >= 2 && PowerOfTwo(v.Length)
      requires p.Value() > 0 && Digits(p.v[..]) && p.Value() % 2 == 1 && ModEq(p.Value() * ND.Value(), 1, Radix(v.Length))
      requires w.Value() >= 0 && Mont(w.Value(), Exp(x, Pow2(j)), p.Value(), v.Length)
      requires f ==> lo == 0
      requires !f ==> Value() >= 0 && Mont(Value(), Exp(x, lo), p.Value(), v.Length)
      modifies v, p.v
      ensures p.v[..] == old(p.v[..])
      ensures Value() >= 0 && Mont(Value(), Exp(x, lo + Pow2(j)), p.Value(), v.Length)
    {
      if f {
        assert w.v[..v.Length] == w.v[..];
        Copy(w);
      } else {
        ghost var a, c := Value(), w.Value();
        Modmul(w, p, ND);
        AccumulateBit(a, Value(), c, x, lo, j, p.Value(), v.Length);
      }
    }

    /** pow(e, p): this^e mod p by left-to-right square and multiply over
        all 8*MODBYTES*n bits of e. The base must already be below p. */
    method Pow(e: FF, p: FF)
      requires v != e.v && v != p.v && e.v != p.v
      requires p.v.Length == v.Length && e.v.Length == v.Length && v.Length >= 2 && PowerOfTwo(v.Length)
      requires Digits(p.v[..]) && p.Value() % 2 == 1 && Digits(e.v[..]) && 0 <= Value() < p.Value()
      modifies v, p.v
      ensures p.v[..] == old(p.v[..]) && Normed(v[..])
      ensures old(e.Value()) >= 0 && Value() == Exp(old(Value()), old(e.Value())) % p.Value()
    {
      var n := p.v.Length;
      ghost var X, E, P, Ps, Es := Value(), e.Value(), p.Value(), p.v[..], e.v[..];
      DigitsBound(Es);
      DigitsBound(Ps);
      DigitsNormed(Ps);
      var w := new FF(n);
      var ND := p.Invmod2m();
      ghost var NDs := ND.v[..];
      assert v[..w.v.Length] == v[..];
      w.Copy(this);
      One();
      Nres(p);
      w.Nres(p);
      NresMont(Value(), 1, P, n);
      NresMont(w.Value(), X, P, n);
      assert Exp(X, 0) == 1;
      PowLoop(w, e, p, ND, X);
      Finish(p, ND, Exp(X, E));
    }

    /** The loop of pow: square and multiply over the 8*MODBYTES*n bits
        of e from the top, this going from the form of 1 to that of x^e. */
    method PowLoop(w: FF, e: FF, p: FF, ND: FF, ghost x: int)
      requires v != w.v && v != p.v && v != ND.v && w.v != p.v && w.v != ND.v && p.v != ND.v
      requires e.v != v && e.v != w.v && e.v != p.v
      requires w.v.Length == v.Length && p.v.Length == v.Length && ND.v.Length == v.Length && e.v.Length == v.Length
      requires v.Length >= 2 && PowerOfTwo(v.Length) && Digits(e.v[..])
      requires p.Value() > 0 && Digits(p.v[..]) && p.Value() % 2 == 1 && ModEq(p.Value() * ND.Value(), 1, Radix(v.Length))
      requires w.Value() >= 0 && Mont(w.Value(), x, p.Value(), v.Length)
      requires Value() >= 0 && Mont(Value(), Exp(x, 0), p.Value(), v.Length)
      modifies v, p.v
      ensures p.v[..] == old(p.v[..]) && e.Value() >= 0
      ensures Value() >= 0 && Mont(Value(), Exp(x, e.Value()), p.Value(), v.Length)
    {
      var n := v.Length;
      ghost var E, P, Ps := e.Value(), p.Value(), p.v[..];
      DigitsBound(e.v[..]);
      RadixIsPow2(n);
      NoBitsAbove(E, 8 * MODBYTES * n);
      var i := 8 * MODBYTES * n;
      ghost var k: nat := 0;
      while i > 0
        invariant 0 <= i <= 8 * MODBYTES * n
        invariant p.v[..] == Ps && p.Value() == P && e.Value() == E
        invariant k == E / Pow2(i) && Value() >= 0 && Mont(Value(), Exp(x, k), P, n)
      {
        i := i - 1;
        var b := e.BitAt(i);
        BitStep(E, i);
        SquareMultiply(w, b, p, ND, x, k);
        k := 2 * k + b;
      }
      assert Pow2(0) == 1;
    }

    /** One bit of pow: square, then multiply by the form of x when the
        bit is set. */
    method SquareMultiply(w: FF, b: int, p: FF, ND: FF, ghost x: int, ghost k: nat)
      requires v != w.v && v != p.v && v != ND.v && w.v != p.v && w.v != ND.v && p.v != ND.v
      requires w.v.Length == v.Length && p.v.Length == v.Length && ND.v.Length == v.Length
      requires v.Length >= 2 && PowerOfTwo(v.Length) && (b == 0 || b == 1)
      requires p.Value() > 0 && Digits(p.v[..]) && p.Value() % 2 == 1 && ModEq(p.Value() * ND.Value(), 1, Radix(v.Length))
      requires w.Value() >= 0 && Mont(w.Value(), x, p.Value(), v.Length)
      requires Value() >= 0 && Mont(Value(), Exp(x, k), p.Value(), v.Length)
      modifies v, p.v
      ensures p.v[..] == old(p.v[..])
      ensures Value() >= 0 && Mont(Value(), Exp(x, 2 * k + b), p.Value(), v.Length)
    {
      ghost var r := Value();
      Modsqr(p, ND);
      ghost var s := Value();
      if b == 1 {
        Modmul(w, p, ND);
      }
      SquareMultiplyStep(r, s, Value(), w.Value(), k, b, x, p.Value(), v.Length);
    }

    /** pow2(e, y, f, p): x^e * y^f mod p for two short exponents, sharing
        the squarings: each bit pair multiplies by the form of x, of y or of
        x*y. Both bases must already be below p. */
    method DoublePow(e: int, y: FF, f: int, p: FF)
      requires v != y.v && v != p.v && y.v != p.v
      requires p.v.Length == v.Length && y.v.Length == v.Length && v.Length >= 2 && PowerOfTwo(v.Length)
      requires Digits(p.v[..]) && p.Value() % 2 == 1 && 0 <= e < BASE && 0 <= f < BASE
      requires 0 <= Value() < p.Value() && 0 <= y.Value() < p.Value()
      modifies v, p.v
      ensures p.v[..] == old(p.v[..])
      ensures Value() == Exp(old(Value()), e) * Exp(old(y.Value()), f) % p.Value()
    {
      var n := p.v.Length;
      ghost var X, Y, P, Ps, Ys := Value(), y.Value(), p.Value(), p.v[..], y.v[..];
      DigitsBound(Ps);
      var xn := new FF(n);
      var yn := new FF(n);
      var xy := new FF(n);
      var ND := p.Invmod2m();
      ghost var NDs := ND.v[..];
      PairStart(y, xn, yn, xy, p, ND);
      DoubleLoop(xn, yn, xy, e, f, p, ND, X, Y);
      Finish(p, ND, Exp(X, e) * Exp(Y, f));
    }

    /** The loop of pow2: the bit pairs of e and f from the top. */
    method DoubleLoop(xn: FF, yn: FF, xy: FF, e: int, f: int, p: FF, ND: FF, ghost X: int, ghost Y: int)
      requires v != xn.v && v != yn.v && v != xy.v && v != p.v && v != ND.v && p.v != ND.v
      requires xn.v != p.v && yn.v != p.v && xy.v != p.v
      requires xn.v.Length == v.Length && yn.v.Length == v.Length && xy.v.Length == v.Length
      requires p.v.Length == v.Length && ND.v.Length == v.Length
      requires v.Length >= 2 && PowerOfTwo(v.Length) && 0 <= e < BASE && 0 <= f < BASE
      requires p.Value() > 0 && Digits(p.v[..]) && p.Value() % 2 == 1 && ModEq(p.Value() * ND.Value(), 1, Radix(v.Length))
      requires xn.Value() >= 0 && yn.Value() >= 0 && xy.Value() >= 0
      requires Mont(xn.Value(), X, p.Value(), v.Length) && Mont(yn.Value(), Y, p.Value(), v.Length)
      requires Mont(xy.Value(), X * Y, p.Value(), v.Length)
      requires Value() >= 0 && Mont(Value(), Exp(X, 0) * Exp(Y, 0), p.Value(), v.Length)
      modifies v, p.v
      ensures p.v[..] == old(p.v[..])
      ensures Value() >= 0 && Mont(Value(), Exp(X, e) * Exp(Y, f), p.Value(), v.Length)
    {
      var n := v.Length;
      ghost var P, Ps, NDs := p.Value(), p.v[..], ND.v[..];
      Pow2At256();
      NoBitsAbove(e, 8 * MODBYTES);
      NoBitsAbove(f, 8 * MODBYTES);
      var i := 8 * MODBYTES;
      ghost var ke: nat, kf: nat := 0, 0;
      while i > 0
        invariant 0 <= i <= 8 * MODBYTES
        invariant p.v[..] == Ps && p.Value() == P
        invariant ke == e / Pow2(i) && kf == f / Pow2(i)
        invariant Value() >= 0 && Mont(Value(), Exp(X, ke) * Exp(Y, kf), P, n)
      {
        i := i - 1;
        var eb, fb := Bit(e, i), Bit(f, i);
        BitStep(e, i);
        BitStep(f, i);
        DoubleBit(xn, yn, xy, eb, fb, p, ND, X, Y, ke, kf);
        ke, kf := 2 * ke + eb, 2 * kf + fb;
      }
      assert Pow2(0) == 1;
    }

    /** The start of pow2: xn, yn and xy the forms of x, y and x*y, and
        this the form of 1. */
    method PairStart(y: FF, xn: FF, yn: FF, xy: FF, p: FF, ND: FF)
      requires v != y.v && v != p.v && y.v != p.v && v != ND.v && p.v != ND.v
      requires xn.v != yn.v && xn.v != xy.v && yn.v != xy.v
      requires xn.v != v && xn.v != y.v && xn.v != p.v && xn.v != ND.v
      requires yn.v != v && yn.v != y.v && yn.v != p.v && yn.v != ND.v
      requires xy.v != v && xy.v != y.v && xy.v != p.v && xy.v != ND.v
      requires p.v.Length == v.Length && y.v.Length == v.Length && ND.v.Length == v.Length
      requires xn.v.Length == v.Length && yn.v.Length == v.Length && xy.v.Length == v.Length
      requires v.Length >= 2 && PowerOfTwo(v.Length)
      requires p.Value() > 0 && Digits(p.v[..]) && p.Value() % 2 == 1 && ModEq(p.Value() * ND.Value(), 1, Radix(v.Length))
      requires 0 <= Value() < p.Value() && 0 <= y.Value() < p.Value()
      modifies v, xn.v, yn.v, xy.v, p.v
      ensures p.v[..] == old(p.v[..]) && xn.Value() >= 0 && yn.Value() >= 0 && xy.Value() >= 0
      ensures Mont(xn.Value(), old(Value()), p.Value(), v.Length) && Mont(yn.Value(), old(y.Value()), p.Value(), v.Length)
      ensures Mont(xy.Value(), old(Value()) * old(y.Value()), p.Value(), v.Length)
      ensures Value() >= 0 && Mont(Value(), Exp(old(Value()), 0) * Exp(old(y.Value()), 0), p.Value(), v.Length)
    {
      var n := v.Length;
      ghost var X, Y, P := Value(), y.Value(), p.Value();
      DigitsNormed(p.v[..]);
      assert v[..xn.v.Length] == v[..];
      xn.Copy(this);
      assert y.v[..yn.v.Length] == y.v[..];
      yn.Copy(y);
      xn.Nres(p);
      yn.Nres(p);
      NresMont(xn.Value(), X, P, n);
      NresMont(yn.Value(), Y, P, n);
      assert xn.v[..xy.v.Length] == xn.v[..];
      xy.Copy(xn);
      ghost var a, c := xy.Value(), yn.Value();
      xy.Modmul(yn, p, ND);
      MontMul(xy.Value(), a, c, X, Y, P, n);
      One();
      Nres(p);
      NresMont(Value(), 1, P, n);
      assert Exp(X, 0) * Exp(Y, 0) == 1;
    }

    /** One bit pair of pow2: square, then multiply by the form of
        x^eb * y^fb unless both bits are clear. */
    method DoubleBit(xn: FF, yn: FF, xy: FF, eb: int, fb: int, p: FF, ND: FF,
                     ghost x: int, ghost y: int, ghost ke: nat, ghost kf: nat)
      requires v != xn.v && v != yn.v && v != xy.v && v != p.v && v != ND.v && p.v != ND.v
      requires xn.v != p.v && yn.v != p.v && xy.v != p.v
      requires xn.v.Length == v.Length && yn.v.Length == v.Length && xy.v.Length == v.Length
      requires p.v.Length == v.Length && ND.v.Length == v.Length
      requires v.Length >= 2 && PowerOfTwo(v.Length) && (eb == 0 || eb == 1) && (fb == 0 || fb == 1)
      requires p.Value() > 0 && Digits(p.v[..]) && p.Value() % 2 == 1 && ModEq(p.Value() * ND.Value(), 1, Radix(v.Length))
      requires xn.Value() >= 0 && yn.Value() >= 0 && xy.Value() >= 0
      requires Mont(xn.Value(), x, p.Value(), v.Length) && Mont(yn.Value(), y, p.Value(), v.Length)
      requires Mont(xy.Value(), x * y, p.Value(), v.Length)
      requires Value() >= 0 && Mont(Value(), Exp(x, ke) * Exp(y, kf), p.Value(), v.Length)
      modifies v, p.v
      ensures p.v[..] == old(p.v[..])
      ensures Value() >= 0 && Mont(Value(), Exp(x, 2 * ke + eb) * Exp(y, 2 * kf + fb), p.Value(), v.Length)
    {
      ghost var r := Value();
      Modsqr(p, ND);
      ghost var s := Value();
      ghost var m := 0;
      assert Exp(x, 0) == 1 && Exp(x, 1) == x && Exp(y, 0) == 1 && Exp(y, 1) == y;
      if eb == 1 {
        if fb == 1 {
          m := xy.Value();
          Modmul(xy, p, ND);
        } else {
          m := xn.Value();
          Modmul(xn, p, ND);
        }
      } else {
        if fb == 1 {
          m := yn.Value();
          Modmul(yn, p, ND);
        }
      }
      DoubleStep(r, s, Value(), m, ke, kf, eb, fb, x, y, p.Value(), v.Length);
    }

    /** igcd(x, y): Euclid's algorithm on machine integers, with Java's
        truncating remainder; the result is gcd(|x|, |y|) up to sign, and
        non-negative for non-negative arguments. */
    static method Igcd(x: int, y: int) returns (g: int)
      ensures Abs(g) == Gcd(Abs(x), Abs(y))
      ensures x >= 0 && y >= 0 ==> g >= 0
    {
      if y == 0 {
        return x;
      }
      var a, b := x, y;
      var r := JavaRem(a, b);
      while r != 0
        invariant b != 0 && r == JavaRem(a, b)
        invariant Gcd(Abs(a), Abs(b)) == Gcd(Abs(x), Abs(y))
        invariant x >= 0 && y >= 0 ==> a >= 0 && b >= 0
        decreases Abs(b)
      {
        a, b := b, r;
        r := JavaRem(a, b);
      }
      g := b;
    }

    /** Halve while even and non-zero; the value loses a power of two and
        ends zero or odd. */
    method StripTwos() returns (ghost k: nat)
      requires v.Length > 0 && Normed(v[..])
      modifies v
      ensures Normed(v[..]) && old(Value()) == Value() * Pow2(k)
      ensures Value() == 0 || Value() % 2 == 1
    {
      ghost var X := Value();
      k := 0;
      while true
        invariant Normed(v[..]) && X == Value() * Pow2(k)
        decreases Abs(Value())
      {
        var z := IsZilch();
        if z {
          break;
        }
        var par := Parity();
        if par != 0 {
          break;
        }
        ghost var x := Value();
        Shr();
        HalveExact(x, Value(), k, X);
        k := k + 1;
      }
    }

    /** One pass of cfactor's loop: x := x - y, normalised, stripped of
        factors of two. */
    static method SubtractStrip(x: FF, y: FF) returns (ghost k: nat)
      requires x.v != y.v && x.v.Length == y.v.Length && x.v.Length > 0
      modifies x.v
      ensures Normed(x.v[..]) && old(x.Value()) - y.Value() == x.Value() * Pow2(k)
      ensures x.Value() == 0 || x.Value() % 2 == 1
    {
      assert y.v[..x.v.Length] == y.v[..];
      x.Sub(y);
      x.Norm();
      k := x.StripTwos();
    }

    /** cfactor(s): a quick test for a factor shared with s. x starts as
        this, and is reduced by s and stripped of factors of two at least
        once and then while it exceeds s; the answer is whether word 0 of
        what is left has a gcd above 1 with s. For odd s below 2^29 and
        this >= s, that is whether this and s share a factor. */
    method Cfactor(s: int) returns (b: bool)
      requires v.Length > 0 && 0 < s < 0x8000_0000
      ensures s < WORD && s % 2 == 1 && Value() >= s ==> (b <==> Gcd(Value(), s) > 1)
    {
      var n := v.Length;
      var x := new FF(n);
      var y := new FF(n);
      y.Set(s);
      assert v[..x.v.Length] == v[..];
      x.Copy(this);
      x.Norm();
      ghost var good := s < WORD && s % 2 == 1 && Value() >= s;
      ghost var k := SubtractStrip(x, y);
      if good {
        StripGcd(Value(), x.Value(), k, s);
      }
      BaseFacts();
      DigitNormed(s, n, y.v[..]);
      StripWhileAbove(x, y, s);
      var g := x.v[0] % WORD;
      var r := Igcd(s, g);
      b := r > 1;
      if good {
        SmallNormed(x.v[..], s);
        GcdComm(s, x.Value());
      }
    }

    /** The loop of cfactor: subtract s and strip factors of two while x
        exceeds s. For odd s and x >= 0 the gcd with s is kept. */
    static method StripWhileAbove(x: FF, y: FF, s: int)
      requires x.v != y.v && x.v.Length == y.v.Length > 0 && s > 0
      requires Normed(x.v[..]) && Normed(y.v[..]) && y.Value() == s
      modifies x.v
      ensures Normed(x.v[..]) && x.Value() <= s
      ensures s % 2 == 1 && old(x.Value()) >= 0 ==> x.Value() >= 0 && Gcd(x.Value(), s) == Gcd(old(x.Value()), s)
    {
      ghost var X0 := x.Value();
      var c := Comp(x, y);
      while c > 0
        invariant Normed(x.v[..]) && c == Sign(x.Value() - s)
        invariant s % 2 == 1 && X0 >= 0 ==> x.Value() >= 0 && Gcd(x.Value(), s) == Gcd(X0, s)
        decreases x.Value()
      {
        ghost var x0 := x.Value();
        ghost var k := SubtractStrip(x, y);
        StripBound(x0, x.Value(), k, s);
        if s % 2 == 1 {
          StripGcd(x0, x.Value(), k, s);
        }
        c := Comp(x, y);
      }
    }

    /** Halving modulo an odd p: an odd value gets p added first so that
        the shift is exact. */
    method HalveMod(p: FF)
      requires p.v != v && p.v.Length == v.Length && v.Length > 0
      requires Normed(v[..]) && p.Value() % 2 == 1 && 0 <= Value() < p.Value()
      modifies v
      ensures Normed(v[..]) && 0 <= Value() < p.Value() && ModEq(2 * Value(), old(Value()), p.Value())
    {
      ghost var X, P := Value(), p.Value();
      var par := Parity();
      if par != 0 {
        assert p.v[..v.Length] == p.v[..];
        Add(p);
        Norm();
      }
      Shr();
      assert 2 * Value() - X == (if par != 0 then P else 0);
      MultipleOf(if par != 0 then 1 else 0, P);
    }

    /** The halving loop of invmodp for one side: u is halved while even,
        and x with it modulo p, keeping x * a = u modulo p and u coprime to
        the other side w. */
    static method Halving(u: FF, x: FF, p: FF, ghost a: int, ghost w: int)
      requires u.v != x.v && u.v != p.v && x.v != p.v
      requires u.v.Length == x.v.Length == p.v.Length && u.v.Length > 0
      requires Normed(u.v[..]) && Normed(x.v[..]) && p.Value() % 2 == 1 && 0 <= x.Value() < p.Value()
      requires u.Value() > 0 && w >= 0 && Gcd(u.Value(), w) == 1 && ModEq(x.Value() * a, u.Value(), p.Value())
      modifies u.v, x.v
      ensures Normed(u.v[..]) && Normed(x.v[..]) && 0 <= x.Value() < p.Value()
      ensures 0 < u.Value() <= old(u.Value()) && u.Value() % 2 == 1 && Gcd(u.Value(), w) == 1
      ensures ModEq(x.Value() * a, u.Value(), p.Value())
    {
      ghost var P := p.Value();
      while true
        invariant Normed(u.v[..]) && Normed(x.v[..]) && 0 <= x.Value() < P && p.Value() == P
        invariant 0 < u.Value() <= old(u.Value()) && Gcd(u.Value(), w) == 1
        invariant ModEq(x.Value() * a, u.Value(), P)
        decreases u.Value()
      {
        var par := u.Parity();
        if par != 0 {
          break;
        }
        ghost var u0, x0 := u.Value(), x.Value();
        u.Shr();
        x.HalveMod(p);
        HalveStep(x0, x.Value(), a, u0, P);
        CoprimeHalve(u0, w);
      }
    }

    /** this := (this - x2) mod p for both in [0, p): a plain difference
        when this >= x2, else this + (p - x2). */
    method ModSub(x2: FF, t: FF, p: FF)
      requires v != x2.v && v != t.v && v != p.v && x2.v != t.v && t.v != p.v
      requires x2.v.Length == v.Length && t.v.Length == v.Length && p.v.Length == v.Length && v.Length > 0
      requires Normed(v[..]) && Normed(x2.v[..]) && 0 <= Value() < p.Value() && 0 <= x2.Value() < p.Value()
      modifies v, t.v
      ensures Normed(v[..]) && Value() == (old(Value()) - x2.Value()) % p.Value()
    {
      ghost var X, X2, P := Value(), x2.Value(), p.Value();
      var c := Comp(this, x2);
      assert x2.v[..v.Length] == x2.v[..];
      if c >= 0 {
        Sub(x2);
      } else {
        assert p.v[..t.v.Length] == p.v[..];
        t.Copy(p);
        t.Sub(x2);
        assert t.v[..v.Length] == t.v[..];
        Add(t);
      }
      Norm();
      DivModUnique(X - X2, P, if c >= 0 then 0 else -1, Value());
    }

    /** The subtraction step of invmodp, for u >= w: u := u - w and
        x1 := x1 - x2 mod p, keeping x1 * a = u modulo p. */
    static method SubtractStep(u: FF, w: FF, x1: FF, x2: FF, t: FF, p: FF, ghost a: int)
      requires u.v != w.v && u.v != x1.v && u.v != x2.v && u.v != t.v && u.v != p.v
      requires x1.v != w.v && x1.v != x2.v && x1.v != t.v && x1.v != p.v
      requires x2.v != t.v && t.v != p.v && w.v != t.v
      requires u.v.Length == w.v.Length == x1.v.Length == x2.v.Length == t.v.Length == p.v.Length > 0
      requires Normed(x1.v[..]) && Normed(x2.v[..]) && 0 <= x1.Value() < p.Value() && 0 <= x2.Value() < p.Value()
      requires ModEq(x1.Value() * a, u.Value(), p.Value()) && ModEq(x2.Value() * a, w.Value(), p.Value())
      modifies u.v, x1.v, t.v
      ensures Normed(u.v[..]) && u.Value() == old(u.Value()) - w.Value()
      ensures Normed(x1.v[..]) && 0 <= x1.Value() < p.Value()
      ensures ModEq(x1.Value() * a, u.Value(), p.Value())
    {
      ghost var X1, U := x1.Value(), u.Value();
      assert w.v[..u.v.Length] == w.v[..];
      u.Sub(w);
      u.Norm();
      x1.ModSub(x2, t, p);
      SubtractPairing(X1, x2.Value(), x1.Value(), U, w.Value(), a, p.Value());
    }

    /** invmodp(p): 1/this mod p by the binary extended Euclidean
        algorithm, for odd p and 0 < this < p coprime to p. u and w (the
        source's v) start at this and p, x1 and x2 at 1 and 0, keeping
        x1 * a = u and x2 * a = w modulo p; each round halves both while
        even and subtracts the smaller from the larger, until one of them
        is 1. */
    method Invmodp(p: FF)
      requires p.v != v && p.v.Length == v.Length && v.Length > 0
      requires Normed(v[..]) && Normed(p.v[..]) && p.Value() % 2 == 1
      requires 0 < Value() < p.Value() && Gcd(Value(), p.Value()) == 1
      modifies v
      ensures 0 <= Value() < p.Value() && ModEq(old(Value()) * Value(), 1, p.Value())
    {
      var n := p.v.Length;
      ghost var A, P := Value(), p.Value();
      var u := new FF(n);
      var w := new FF(n);
      var x1 := new FF(n);
      var x2 := new FF(n);
      var t := new FF(n);
      var one := new FF(n);
      one.One();
      assert v[..u.v.Length] == v[..];
      u.Copy(this);
      assert p.v[..w.v.Length] == p.v[..];
      w.Copy(p);
      assert one.v[..x1.v.Length] == one.v[..];
      x1.Copy(one);
      x2.Zero();
      EuclidStart(one.v[..], x2.v[..], A, P);
      EuclidLoop(u, w, x1, x2, t, one, p, A);
      ghost var X1, X2 := x1.Value(), x2.Value();
      assert X1 * A == A * X1 && X2 * A == A * X2;
      var c := Comp(u, one);
      if c == 0 {
        Copy(x1);
        assert Value() == X1;
      } else {
        Copy(x2);
        assert Value() == X2;
      }
    }

    /** The loop of invmodp: rounds of halving and subtraction until u or
        w is 1, keeping x1 * a = u and x2 * a = w modulo p. */
    static method EuclidLoop(u: FF, w: FF, x1: FF, x2: FF, t: FF, one: FF, p: FF, ghost A: int)
      requires u.v != w.v && u.v != x1.v && u.v != x2.v && u.v != t.v && u.v != p.v && u.v != one.v
      requires w.v != x1.v && w.v != x2.v && w.v != t.v && w.v != p.v && w.v != one.v
      requires x1.v != x2.v && x1.v != t.v && x1.v != p.v && x1.v != one.v
      requires x2.v != t.v && x2.v != p.v && x2.v != one.v && t.v != p.v && t.v != one.v
      requires u.v.Length == w.v.Length == x1.v.Length == x2.v.Length == t.v.Length == one.v.Length == p.v.Length > 0
      requires Normed(u.v[..]) && Normed(w.v[..]) && Normed(x1.v[..]) && Normed(x2.v[..])
      requires one.Value() == 1 && Normed(one.v[..]) && p.Value() % 2 == 1
      requires u.Value() >= 0 && w.Value() >= 0 && Gcd(u.Value(), w.Value()) == 1
      requires 0 <= x1.Value() < p.Value() && 0 <= x2.Value() < p.Value()
      requires ModEq(x1.Value() * A, u.Value(), p.Value()) && ModEq(x2.Value() * A, w.Value(), p.Value())
      modifies u.v, w.v, x1.v, x2.v, t.v
      ensures u.Value() == 1 || w.Value() == 1
      ensures Normed(u.v[..]) && 0 <= x1.Value() < p.Value() && 0 <= x2.Value() < p.Value()
      ensures ModEq(x1.Value() * A, u.Value(), p.Value()) && ModEq(x2.Value() * A, w.Value(), p.Value())
    {
      ghost var P := p.Value();
      while true
        invariant Normed(u.v[..]) && Normed(w.v[..]) && Normed(x1.v[..]) && Normed(x2.v[..])
        invariant u.Value() >= 0 && w.Value() >= 0 && Gcd(u.Value(), w.Value()) == 1
        invariant 0 <= x1.Value() < P && 0 <= x2.Value() < P
        invariant ModEq(x1.Value() * A, u.Value(), P) && ModEq(x2.Value() * A, w.Value(), P)
        decreases u.Value() + w.Value()
      {
        var c1 := Comp(u, one);
        var c2 := Comp(w, one);
        if c1 == 0 || c2 == 0 {
          break;
        }
        EuclidRound(u, w, x1, x2, t, p, A);
      }
    }

    /** One round of invmodp's loop, for u and w both other than 1: halve
        each while even, then subtract the smaller from the larger. */
    static method EuclidRound(u: FF, w: FF, x1: FF, x2: FF, t: FF, p: FF, ghost A: int)
      requires u.v != w.v && u.v != x1.v && u.v != x2.v && u.v != t.v && u.v != p.v
      requires w.v != x1.v && w.v != x2.v && w.v != t.v && w.v != p.v
      requires x1.v != x2.v && x1.v != t.v && x1.v != p.v && x2.v != t.v && x2.v != p.v && t.v != p.v
      requires u.v.Length == w.v.Length == x1.v.Length == x2.v.Length == t.v.Length == p.v.Length > 0
      requires Normed(u.v[..]) && Normed(w.v[..]) && Normed(x1.v[..]) && Normed(x2.v[..]) && p.Value() % 2 == 1
      requires u.Value() >= 0 && w.Value() >= 0 && u.Value() != 1 && w.Value() != 1
      requires Gcd(u.Value(), w.Value()) == 1
      requires 0 <= x1.Value() < p.Value() && 0 <= x2.Value() < p.Value()
      requires ModEq(x1.Value() * A, u.Value(), p.Value()) && ModEq(x2.Value() * A, w.Value(), p.Value())
      modifies u.v, w.v, x1.v, x2.v, t.v
      ensures Normed(u.v[..]) && Normed(w.v[..]) && Normed(x1.v[..]) && Normed(x2.v[..])
      ensures u.Value() >= 0 && w.Value() >= 0 && Gcd(u.Value(), w.Value()) == 1
      ensures u.Value() + w.Value() < old(u.Value() + w.Value())
      ensures 0 <= x1.Value() < p.Value() && 0 <= x2.Value() < p.Value()
      ensures ModEq(x1.Value() * A, u.Value(), p.Value()) && ModEq(x2.Value() * A, w.Value(), p.Value())
    {
      EuclidRoundStart(u.Value(), w.Value());
      Halving(u, x1, p, A, w.Value());
      GcdComm(u.Value(), w.Value());
      Halving(w, x2, p, A, u.Value());
      GcdComm(u.Value(), w.Value());
      ghost var U, W := u.Value(), w.Value();
      var c := Comp(u, w);
      if c >= 0 {
        SubtractStep(u, w, x1, x2, t, p, A);
        EuclidRoundEnd(U, W);
      } else {
        SubtractStep(w, u, x2, x1, t, p, A);
        EuclidRoundEnd(W, U);
        GcdComm(w.Value(), u.Value());
      }
    }

    /* ---------------- primality ---------------- */

    /** randomnum(p, rng): 2n limbs from the generator, reduced modulo p by
        dmod. The generator's limbs are the parameter draws. */
    method Randomnum(p: FF, draws: seq<int>)
      requires v != p.v && p.v.Length == v.Length && v.Length > 0
      requires |draws| == 2 * v.Length && Digits(draws)
      requires Normed(p.v[..]) && p.Value() > 0
      modifies v, p.v
      ensures p.v[..] == old(p.v[..]) && Normed(v[..]) && 0 <= Value() < p.Value()
      ensures Digits(p.v[..]) && Val(draws) < p.Value() * Radix(v.Length) ==>
        Value() == Val(draws) % p.Value()
    {
      var d := new FF(2 * v.Length);
      d.Load(draws);
      DigitsBound(draws);
      var r := d.Dmod(p);
      Copy(r);
    }

    /** prime's first loop: strip the factors of two from an even-or-odd
        positive value, counting them. */
    method Halvings() returns (s: nat)
      requires v.Length > 0 && Normed(v[..]) && Value() > 0
      modifies v
      ensures Normed(v[..]) && old(Value()) == Value() * Pow2(s) && Value() % 2 == 1
    {
      ghost var X := Value();
      s := 0;
      while true
        invariant Normed(v[..]) && X == Value() * Pow2(s) && Value() > 0
        decreases Value()
      {
        var par := Parity();
        if par != 0 {
          break;
        }
        ghost var x := Value();
        Shr();
        HalveExact(x, Value(), s, X);
        s := s + 1;
      }
    }

    /** prime(p, rng): false when cfactor finds one of the odd primes up to
        19 in p, or when p - 1 is odd; otherwise p - 1 = d * 2^s with d odd
        and s >= 1, and p is declared prime when each of ten bases drawn by
        randomnum passes a Miller-Rabin round. */
    static method Prime(p: FF, draws: seq<seq<int>>) returns (b: bool, ghost shared: bool, ghost d: nat, ghost s: nat, ghost ws: seq<int>)
      requires p.v.Length >= 2 && PowerOfTwo(p.v.Length)
      requires 2 <= p.Value() < Radix(p.v.Length)
      requires |draws| == 10
      requires forall i | 0 <= i < 10 :: |draws[i]| == 2 * p.v.Length && Digits(draws[i])
      modifies p.v
      ensures p.Value() == old(p.Value()) && Digits(p.v[..])
      ensures p.Value() >= SMALL_PRIMES ==> (shared <==> Gcd(p.Value(), SMALL_PRIMES) > 1)
      ensures !shared ==> d % 2 == 1 && p.Value() - 1 == d * Pow2(s) && (s == 0 <==> p.Value() % 2 == 0)
      ensures shared || s == 0 ==> !b
      ensures b ==> |ws| == 10 && forall i | 0 <= i < 10 :: MillerRabinPass(ws[i], d, s, p.Value())
      ensures !b && !shared && s > 0 ==> 0 < |ws| <= 10 && !MillerRabinPass(ws[|ws| - 1], d, s, p.Value())
      ensures |ws| <= 10 && forall i | 0 <= i < |ws| :: 0 <= ws[i] < p.Value()
      ensures forall i | 0 <= i < |ws| :: Val(draws[i]) < p.Value() * Radix(p.v.Length) ==>
        ws[i] == Val(draws[i]) % p.Value()
    {
      var n := p.v.Length;
      p.Norm();
      NormedSmall(p.v[..], n);
      ghost var P := p.Value();
      b, d, s, ws := false, 0, 0, [];
      var cf := p.Cfactor(SMALL_PRIMES);
      shared := cf;
      if cf {
        return;
      }
      var unity, nm1, dd, sc := OddPart(p);
      d, s := dd.Value(), sc;
      ParityOfPredecessor(P, d, s);
      if sc == 0 {
        return;
      }
      b, ws := Witnesses(p, dd, unity, nm1, draws, sc, d);
    }

    /** prime's set-up: unity = 1, nm1 = p - 1 and p - 1 = d * 2^s with d
        odd. */
    static method OddPart(p: FF) returns (unity: FF, nm1: FF, dd: FF, s: nat)
      requires p.v.Length > 0 && Digits(p.v[..]) && p.Value() >= 2
      ensures fresh(unity) && fresh(unity.v) && fresh(nm1) && fresh(nm1.v) && fresh(dd) && fresh(dd.v)
      ensures unity.v != nm1.v && unity.v != dd.v && nm1.v != dd.v
      ensures unity.v.Length == nm1.v.Length == dd.v.Length == p.v.Length
      ensures unity.Value() == 1 && Normed(unity.v[..]) && nm1.Value() == p.Value() - 1 && Normed(nm1.v[..])
      ensures Digits(dd.v[..]) && dd.Value() > 0 && dd.Value() % 2 == 1 && p.Value() - 1 == dd.Value() * Pow2(s)
    {
      var n := p.v.Length;
      unity := new FF(n);
      unity.One();
      nm1 := new FF(n);
      nm1.Copy(p);
      assert unity.v[..nm1.v.Length] == unity.v[..];
      nm1.Sub(unity);
      nm1.Norm();
      dd := new FF(n);
      dd.Copy(nm1);
      s := dd.Halvings();
      DigitsBound(p.v[..]);
      HalvedBelow(p.Value() - 1, dd.Value(), s, Radix(n));
      NormedSmall(dd.v[..], n);
    }

    /** prime's second loop: ten Miller-Rabin rounds, stopping at the
        first base that fails. */
    static method Witnesses(p: FF, dd: FF, unity: FF, nm1: FF, draws: seq<seq<int>>, s: nat, ghost D: nat)
      returns (b: bool, ghost ws: seq<int>)
      requires p.v != dd.v && p.v != unity.v && p.v != nm1.v && dd.v != unity.v && dd.v != nm1.v && unity.v != nm1.v
      requires dd.v.Length == unity.v.Length == nm1.v.Length == p.v.Length >= 2 && PowerOfTwo(p.v.Length)
      requires Digits(p.v[..]) && p.Value() % 2 == 1 && p.Value() > 2 && Digits(dd.v[..]) && dd.Value() == D
      requires unity.Value() == 1 && Normed(unity.v[..]) && nm1.Value() == p.Value() - 1 && Normed(nm1.v[..])
      requires s >= 1 && |draws| == 10
      requires forall i | 0 <= i < 10 :: |draws[i]| == 2 * p.v.Length && Digits(draws[i])
      modifies p.v
      ensures p.v[..] == old(p.v[..])
      ensures b ==> |ws| == 10 && forall i | 0 <= i < 10 :: MillerRabinPass(ws[i], D, s, p.Value())
      ensures !b ==> 0 < |ws| <= 10 && !MillerRabinPass(ws[|ws| - 1], D, s, p.Value())
      ensures |ws| <= 10 && forall i | 0 <= i < |ws| :: 0 <= ws[i] < p.Value()
      ensures forall i | 0 <= i < |ws| :: Val(draws[i]) < p.Value() * Radix(p.v.Length) ==>
        ws[i] == Val(draws[i]) % p.Value()
    {
      ghost var Ps, P := p.v[..], p.Value();
      var x := new FF(p.v.Length);
      ws := [];
      for i := 0 to 10
        invariant p.v[..] == Ps && |ws| == i
        invariant forall k | 0 <= k < i :: MillerRabinPass(ws[k], D, s, P)
        invariant forall k | 0 <= k < i :: 0 <= ws[k] < P
        invariant forall k | 0 <= k < i :: Val(draws[k]) < P * Radix(p.v.Length) ==> ws[k] == Val(draws[k]) % P
      {
        var pass;
        ghost var w;
        pass, w := x.MillerRabinRound(p, dd, unity, nm1, draws[i], s, D);
        ws := ws + [w];
        if !pass {
          return false, ws;
        }
      }
      return true, ws;
    }

    /** One round of prime: a base w from randomnum, x = w^d mod p, then up
        to s - 1 squarings looking for p - 1, giving up at 1. */
    method MillerRabinRound(p: FF, dd: FF, unity: FF, nm1: FF, draw: seq<int>, s: nat, ghost D: nat)
      returns (pass: bool, ghost w: int)
      requires v != p.v && v != dd.v && v != unity.v && v != nm1.v
      requires p.v != dd.v && p.v != unity.v && p.v != nm1.v
      requires v.Length == dd.v.Length == unity.v.Length == nm1.v.Length == p.v.Length >= 2 && PowerOfTwo(p.v.Length)
      requires Digits(p.v[..]) && p.Value() % 2 == 1 && p.Value() > 2 && Digits(dd.v[..]) && dd.Value() == D
      requires unity.Value() == 1 && Normed(unity.v[..]) && nm1.Value() == p.Value() - 1 && Normed(nm1.v[..])
      requires s >= 1 && |draw| == 2 * p.v.Length && Digits(draw)
      modifies v, p.v
      ensures p.v[..] == old(p.v[..]) && 0 <= w < p.Value()
      ensures pass <==> MillerRabinPass(w, D, s, p.Value())
      ensures Val(draw) < p.Value() * Radix(p.v.Length) ==> w == Val(draw) % p.Value()
    {
      ghost var P := p.Value();
      DigitsNormed(p.v[..]);
      Randomnum(p, draw);
      w := Value();
      Pow(dd, p);
      var c1 := Comp(this, unity);
      var c2 := Comp(this, nm1);
      if c1 == 0 || c2 == 0 {
        assert Pow2(0) == 1 && D * Pow2(0) == D;
        return true, w;
      }
      pass := Squarings(p, unity, nm1, s, w, D);
    }

    /** The squarings of a Miller-Rabin round: this holds w^d mod p, which
        is neither 1 nor p - 1; square up to s - 1 times, failing at 1 and
        passing at p - 1. */
    method Squarings(p: FF, unity: FF, nm1: FF, s: nat, ghost w: int, ghost D: nat) returns (pass: bool)
      requires v != p.v && p.v != unity.v && p.v != nm1.v
      requires v.Length == unity.v.Length == nm1.v.Length == p.v.Length >= 2 && PowerOfTwo(p.v.Length)
      requires Digits(p.v[..]) && p.Value() % 2 == 1 && p.Value() > 2
      requires unity.Value() == 1 && Normed(unity.v[..]) && nm1.Value() == p.Value() - 1 && Normed(nm1.v[..])
      requires Normed(v[..]) && Value() == Exp(w, D) % p.Value() && s >= 1
      requires Value() != 1 && Value() != p.Value() - 1
      modifies v, p.v
      ensures p.v[..] == old(p.v[..])
      ensures pass <==> MillerRabinPass(w, D, s, p.Value())
    {
      ghost var P, Ps := p.Value(), p.v[..];
      assert Pow2(0) == 1 && D * Pow2(0) == D;
      var j := 1;
      while j < s
        invariant 1 <= j <= s && p.v[..] == Ps && Normed(v[..])
        invariant Value() == Exp(w, D * Pow2(j - 1)) % P
        invariant forall i: nat | i < j :: Exp(w, D * Pow2(i)) % P != P - 1
      {
        ghost var e: nat := D * Pow2(j - 1);
        Power(2, p);
        SquareExpMod(w, e, P);
        DoubleExponent(D, j);
        var c := Comp(this, unity);
        if c == 0 {
          OneBeforeMinusOne(w, D, s, j, P);
          return false;
        }
        c := Comp(this, nm1);
        if c == 0 {
          return true;
        }
        j := j + 1;
      }
      return false;
    }
  }
}
