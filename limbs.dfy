/** The limb layer underneath FF. A limb stands for one BIG: its whole
    integer value, which after normalisation is a digit in [0, BASE) and
    otherwise may carry excess above 2^256 or be negative after a
    subtraction. A limb vector s stands for Val(s) = sum of s[i] * BASE^i,
    limb 0 least significant. */
module Limbs {
  import opened Arith

  /** The fixed ROM parameters: bytes per limb, bits per internal BIG word,
      and words per BIG. */
  const MODBYTES: nat := 32
  const BASEBITS: nat := 29
  const NLEN: nat := 9

  /** Nominal bits per limb (8 * MODBYTES) and the limb radix. */
  const LIMB_BITS: nat := 8 * MODBYTES

  /** 2^BASEBITS: the weight of one internal BIG word. */
  const WORD: int := 0x2000_0000

  /** The value of a BIG given as its NLEN words, least significant first. */
  function WordsVal(w: seq<int>): int
  {
    if |w| == 0 then 0 else w[0] + WORD * WordsVal(w[1..])
  }
  type Radix2 = b: int | b > 1 && b % 2 == 0 witness 2
  const BASE: Radix2 := Pow2(LIMB_BITS)

  lemma BaseFacts()
    ensures BASE > 1 && BASE % 2 == 0 && WORD < 0x1_0000_0000 < BASE
    ensures BASE == Pow2(LIMB_BITS)
    ensures BASE == 2 * Pow2(LIMB_BITS - 1)
  {
    Pow2At256();
    assert Pow2(256) == 2 * Pow2(255);
  }

  lemma Pow2At8()
    ensures Pow2(8) == 256
  {
    assert Pow2(1) == 2;
    assert Pow2(2) == 4;
    assert Pow2(3) == 8;
    assert Pow2(4) == 16;
    assert Pow2(5) == 32;
    assert Pow2(6) == 64;
    assert Pow2(7) == 128;
  }

  lemma Pow2At256()
    ensures Pow2(256) == 0x1_0000000000000000000000000000000000000000000000000000000000000000
  {
    Pow2At8();
    Pow2Add(8, 8);
    assert Pow2(16) == 0x1_0000;
    Pow2Add(16, 16);
    assert Pow2(32) == 0x1_0000_0000;
    Pow2Add(32, 32);
    assert Pow2(64) == 0x1_0000_0000_0000_0000;
    Pow2Add(64, 64);
    assert Pow2(128) == 0x1_0000_0000_0000_0000_0000_0000_0000_0000;
    Pow2Add(128, 128);
  }

  /** BASE^k: the weight of limb k, and R = Radix(n) for an n-limb FF. */
  function Radix(k: nat): (r: int)
    ensures r > 0
  {
    if k == 0 then 1 else BASE * Radix(k - 1)
  }

  lemma {:induction false} RadixAdd(a: nat, b: nat)
    ensures Radix(a + b) == Radix(a) * Radix(b)
  {
    if a > 0 {
      var c := a - 1;
      RadixAdd(c, b);
      assert Radix(a + b) == BASE * Radix(c + b);
      MulAssoc(BASE, Radix(c), Radix(b));
    }
  }

  lemma {:induction false} RadixIsPow2(k: nat)
    ensures Radix(k) == Pow2(LIMB_BITS * k)
  {
    if k > 0 {
      RadixIsPow2(k - 1);
      BaseFacts();
      Pow2Add(LIMB_BITS, LIMB_BITS * (k - 1));
      assert LIMB_BITS * k == LIMB_BITS + LIMB_BITS * (k - 1);
    }
  }

  lemma RadixMono(a: nat, b: nat)
    requires a <= b
    ensures Radix(a) <= Radix(b)
  {
    RadixAdd(a, b - a);
    MulMonoRight(Radix(a), 1, Radix(b - a));
  }

  /** The value of a limb vector. */
  function Val(s: seq<int>): int
  {
    if |s| == 0 then 0 else s[0] + BASE * Val(s[1..])
  }

  predicate IsDigit(x: int)
  {
    0 <= x < BASE
  }

  /** Every limb is a digit: the vector is fully normalised. */
  predicate Digits(s: seq<int>)
  {
    forall i | 0 <= i < |s| :: IsDigit(s[i])
  }

  /** Every limb but the top one is a digit: the state after norm(), where
      the top limb may hold excess or be negative. */
  predicate Normed(s: seq<int>)
  {
    forall i | 0 <= i < |s| - 1 :: IsDigit(s[i])
  }

  /** n zero limbs. */
  function Zeros(n: nat): (r: seq<int>)
    ensures |r| == n && forall i | 0 <= i < n :: r[i] == 0
  {
    seq(n, i => 0)
  }

  /* ---------------- the value function ---------------- */

  lemma {:induction false} ValAppend(a: seq<int>, b: seq<int>)
    ensures Val(a + b) == Val(a) + Radix(|a|) * Val(b)
  {
    if |a| > 0 {
      assert (a + b)[1..] == a[1..] + b;
      ValAppend(a[1..], b);
      assert Val(a + b) == a[0] + BASE * (Val(a[1..]) + Radix(|a| - 1) * Val(b));
      PlaceShift(a[0], BASE, Val(a[1..]), Radix(|a| - 1), Val(b));
    } else {
      assert a + b == b;
    }
  }

  lemma ValSplit(s: seq<int>, k: nat)
    requires k <= |s|
    ensures Val(s) == Val(s[..k]) + Radix(k) * Val(s[k..])
  {
    assert s == s[..k] + s[k..];
    ValAppend(s[..k], s[k..]);
  }

  lemma ValSingle(x: int)
    ensures Val([x]) == x
  {
    assert [x][1..] == [];
  }

  lemma ValLast(s: seq<int>)
    requires |s| > 0
    ensures Val(s) == Val(s[..|s| - 1]) + Radix(|s| - 1) * s[|s| - 1]
  {
    ValSplit(s, |s| - 1);
    ValSingle(s[|s| - 1]);
    assert s[|s| - 1..] == [s[|s| - 1]];
  }

  lemma {:induction false} ValZeros(n: nat)
    ensures Val(Zeros(n)) == 0
  {
    if n > 0 {
      assert Zeros(n)[1..] == Zeros(n - 1);
      ValZeros(n - 1);
    }
  }

  lemma ValUpdate(s: seq<int>, i: nat, x: int)
    requires i < |s|
    ensures Val(s[i := x]) == Val(s) + Radix(i) * (x - s[i])
  {
    var t := s[i := x];
    assert t[..i] == s[..i] && t[i + 1..] == s[i + 1..];
    assert s[i..i + 1] == [s[i]] && t[i..i + 1] == [x];
    ValSingle(s[i]);
    ValSingle(x);
    ValWindowChange(s, t, i, 1, x - s[i]);
  }

  /** One more limb at the top of a prefix, and one more at the bottom of
      a suffix. */
  lemma ValPrefixStep(s: seq<int>, i: nat)
    requires i < |s|
    ensures Val(s[..i + 1]) == Val(s[..i]) + Radix(i) * s[i]
  {
    assert s[..i + 1] == s[..i] + [s[i]];
    ValAppendAt(s[..i], [s[i]], i);
    ValSingle(s[i]);
  }

  /** Setting limb i keeps the limbs below and above it, and adds the new
      limb at weight Radix(i) to the prefix below it. */
  lemma ValSetPrefix(w: seq<int>, i: nat, x: int)
    requires i < |w|
    ensures w[i := x][..i] == w[..i]
    ensures Val(w[i := x][..i + 1]) == Val(w[..i]) + Radix(i) * x
  {
    var t := w[i := x];
    assert t[..i] == w[..i];
    ValPrefixStep(t, i);
  }

  lemma ValSuffixStep(s: seq<int>, i: nat)
    requires i < |s|
    ensures Val(s[i..]) == s[i] + BASE * Val(s[i + 1..])
  {
    assert s[i..][1..] == s[i + 1..];
  }

  /** Moving c * BASE out of limb i into limb i+1 as c keeps the value. */
  lemma ValCarry(w: seq<int>, i: nat, c: int)
    requires i + 1 < |w|
    ensures Val(w[i := w[i] - c * BASE][i + 1 := w[i + 1] + c]) == Val(w)
  {
    var w1 := w[i := w[i] - c * BASE];
    ValUpdate(w, i, w[i] - c * BASE);
    ValUpdate(w1, i + 1, w1[i + 1] + c);
    CarryCancels(w[i], w1[i + 1], c, Radix(i), Radix(i + 1));
  }

  lemma CarryCancels(x: int, y: int, c: int, r: int, rn: int)
    requires rn == BASE * r
    ensures r * ((x - c * BASE) - x) + rn * ((y + c) - y) == 0
  {
  }

  /** Dropping the carry out of the top limb of an m-limb digit vector
      reduces its value modulo Radix(m). */
  lemma ValTruncate(w: seq<int>, c: int)
    requires |w| > 0 && Digits(w[|w| - 1 := w[|w| - 1] - c * BASE])
    ensures Val(w[|w| - 1 := w[|w| - 1] - c * BASE]) == Val(w) % Radix(|w|)
  {
    var k := |w| - 1;
    var w1 := w[k := w[k] - c * BASE];
    ValUpdate(w, k, w[k] - c * BASE);
    DigitsBound(w1);
    TruncateTop(Val(w), Val(w1), w[k], c, Radix(k), Radix(|w|));
  }

  lemma TruncateTop(vw: int, vw1: int, x: int, c: int, rm1: int, rm: int)
    requires vw1 == vw + rm1 * ((x - c * BASE) - x) && rm == BASE * rm1
    requires 0 <= vw1 < rm
    ensures vw1 == vw % rm
  {
    assert vw == c * rm + vw1;
    DivModUnique(vw, rm, c, vw1);
  }

  /** The low m bits of a vector are those of its lowest limb. */
  lemma LowBits(s: seq<int>, m: nat)
    requires |s| > 0 && m <= LIMB_BITS
    ensures Val(s) % Pow2(m) == s[0] % Pow2(m)
  {
    BaseFacts();
    Pow2Add(m, LIMB_BITS - m);
    ModFactor(Val(s), s[0], Val(s[1..]), Pow2(m), Pow2(LIMB_BITS - m), BASE);
  }

  lemma ModFactor(x: int, d: int, rest: int, p: int, q: int, b: int)
    requires x == d + b * rest && b == p * q && p > 0
    ensures x % p == d % p
  {
    assert x == d + (q * rest) * p;
    DivModAddMul(d, q * rest, p);
  }

  /** Limb-wise sums and differences add and subtract values. */
  lemma {:induction false} ValAddElems(a: seq<int>, b: seq<int>, c: seq<int>)
    requires |a| == |b| == |c|
    requires forall i | 0 <= i < |c| :: c[i] == a[i] + b[i]
    ensures Val(c) == Val(a) + Val(b)
  {
    if |c| > 0 {
      ValAddElems(a[1..], b[1..], c[1..]);
    }
  }

  lemma {:induction false} ValSubElems(a: seq<int>, b: seq<int>, c: seq<int>)
    requires |a| == |b| == |c|
    requires forall i | 0 <= i < |c| :: c[i] == a[i] - b[i]
    ensures Val(c) == Val(a) - Val(b)
  {
    if |c| > 0 {
      ValSubElems(a[1..], b[1..], c[1..]);
    }
  }

  /** Three consecutive parts; k names the offset of the third. */
  lemma ValConcat3(a: seq<int>, w: seq<int>, t: seq<int>, o: nat, k: nat)
    requires o == |a| && k == |a| + |w|
    ensures Val(a + w + t) == Val(a) + Radix(o) * Val(w) + Radix(k) * Val(t)
  {
    ValAppendAt(a + w, t, k);
    ValAppendAt(a, w, o);
  }

  lemma ValAppendAt(a: seq<int>, b: seq<int>, k: nat)
    requires k == |a|
    ensures Val(a + b) == Val(a) + Radix(k) * Val(b)
  {
    ValAppend(a, b);
  }

  /** Changing only the window s[o..o+n], whose value grows by d, makes
      the whole value grow by Radix(o) * d. */
  lemma ValWindowChange(s: seq<int>, s': seq<int>, o: nat, n: nat, d: int)
    requires o + n <= |s| && |s'| == |s|
    requires s'[..o] == s[..o] && s'[o + n..] == s[o + n..]
    requires Val(s'[o..o + n]) == Val(s[o..o + n]) + d
    ensures Val(s') == Val(s) + Radix(o) * d
  {
    var a, w, w', t := s[..o], s[o..o + n], s'[o..o + n], s[o + n..];
    assert s == a + w + t;
    assert s' == a + w' + t;
    ValPartChange(a, w, w', t, o, o + n, d);
  }

  lemma ValPartChange(a: seq<int>, w: seq<int>, w': seq<int>, t: seq<int>, o: nat, k: nat, d: int)
    requires o == |a| && |w'| == |w| && k == o + |w|
    requires Val(w') == Val(w) + d
    ensures Val(a + w' + t) == Val(a + w + t) + Radix(o) * d
  {
    ValConcat3(a, w, t, o, k);
    ValConcat3(a, w', t, o, k);
    Shift(Val(a + w + t), Val(a + w' + t), Val(a), Radix(o), Val(w), Val(w'), d, Radix(k), Val(t));
  }

  lemma Shift(v: int, v': int, a: int, ro: int, w: int, w': int, d: int, rt: int, t: int)
    requires v == a + ro * w + rt * t && v' == a + ro * w' + rt * t && w' == w + d
    ensures v' == v + ro * d
  {
  }

  /* ---------------- normal forms ---------------- */

  lemma {:induction false} DigitsBound(s: seq<int>)
    requires Digits(s)
    ensures 0 <= Val(s) < Radix(|s|)
  {
    if |s| > 0 {
      DigitsBound(s[1..]);
      assert IsDigit(s[0]);
      DigitPlace(s[0], BASE, Val(s[1..]), Radix(|s| - 1));
    }
  }

  /** A normalised vector is its digits below the top limb plus the top
      limb, which is the quotient by the weight of the top position. */
  lemma NormedTop(s: seq<int>)
    requires |s| > 0 && Normed(s)
    ensures 0 <= Val(s[..|s| - 1]) < Radix(|s| - 1)
    ensures s[|s| - 1] == Val(s) / Radix(|s| - 1)
    ensures Val(s[..|s| - 1]) == Val(s) % Radix(|s| - 1)
  {
    var lo := s[..|s| - 1];
    ValLast(s);
    assert Digits(lo);
    DigitsBound(lo);
    TopDivMod(Val(s), Val(lo), s[|s| - 1], Radix(|s| - 1));
  }

  lemma TopDivMod(v: int, lo: int, top: int, r: int)
    requires r > 0 && 0 <= lo < r && v == lo + r * top
    ensures top == v / r && lo == v % r
  {
    DivModUnique(v, r, top, lo);
  }

  /** The tail of a normalised vector holds its quotient by BASE, one limb
      fewer than the whole. */
  lemma NormedTail(s: seq<int>, k: nat)
    requires |s| > 1 && Normed(s) && 0 <= Val(s) < Radix(k)
    ensures Normed(s[1..]) && IsDigit(s[0])
    ensures k == 0 ==> s[0] == 0 && Val(s[1..]) == 0
    ensures k > 0 ==> 0 <= Val(s[1..]) < Radix(k - 1)
  {
    BaseFacts();
    var t := s[1..];
    assert IsDigit(s[0]);
    DivModUnique(Val(s), BASE, Val(t), s[0]);
    if k > 0 {
      DivBound(Val(s), BASE, Radix(k - 1));
    } else {
      DivModUnique(0, BASE, 0, 0);
    }
  }

  /** A normalised vector whose value is in [0, Radix(k)) has zero limbs
      from position k on, and is made of digits. */
  lemma {:induction false} NormedSmall(s: seq<int>, k: nat)
    requires Normed(s) && k <= |s| && 0 <= Val(s) < Radix(k)
    ensures Digits(s)
    ensures forall j | k <= j < |s| :: s[j] == 0
  {
    BaseFacts();
    if |s| == 1 {
      ValSingle(s[0]);
      assert s == [s[0]];
      if k == 1 {
        assert Radix(1) == BASE;
      }
    } else if |s| > 1 {
      var t := s[1..];
      var k' := if k == 0 then 0 else k - 1;
      NormedTail(s, k);
      NormedSmall(t, k');
      assert forall j | 1 <= j < |s| :: s[j] == t[j - 1];
    }
  }

  /** A normalised vector below Radix(k) keeps its whole value in its low
      k limbs, which are digits. */
  lemma NormedLow(s: seq<int>, k: nat)
    requires Normed(s) && k <= |s| && 0 <= Val(s) < Radix(k)
    ensures Digits(s[..k]) && Val(s[..k]) == Val(s)
  {
    NormedSmall(s, k);
    ValSplit(s, k);
    assert s[k..] == Zeros(|s| - k);
    ValZeros(|s| - k);
  }

  /** Below the top limb, a normalised vector is in digits. */
  lemma NormedPrefix(s: seq<int>, k: nat)
    requires Normed(s) && k < |s|
    ensures Digits(s[..k])
  {
  }

  /** The only normalised vector of value zero is all zeros. */
  lemma NormedZero(s: seq<int>)
    requires Normed(s)
    ensures Val(s) == 0 ==> forall j | 0 <= j < |s| :: s[j] == 0
  {
    if Val(s) == 0 {
      NormedSmall(s, 0);
    }
  }

  /** Two normalised vectors of the same length and value are equal. */
  lemma {:induction false} NormedUnique(a: seq<int>, b: seq<int>)
    requires |a| == |b| && Normed(a) && Normed(b) && Val(a) == Val(b)
    ensures a == b
  {
    if |a| == 1 {
      ValSingle(a[0]);
      ValSingle(b[0]);
      assert a == [a[0]] && b == [b[0]];
    } else if |a| > 1 {
      DivModUnique(Val(a), BASE, Val(a[1..]), a[0]);
      DivModUnique(Val(b), BASE, Val(b[1..]), b[0]);
      NormedUnique(a[1..], b[1..]);
      assert a == [a[0]] + a[1..] && b == [b[0]] + b[1..];
    }
  }

  /** The digits of x: the unique fully normalised n-limb vector for a value
      in [0, Radix(n)). */
  function ToDigits(x: int, n: nat): (r: seq<int>)
    ensures |r| == n && Digits(r)
    ensures 0 <= x < Radix(n) ==> Val(r) == x
    decreases n
  {
    BaseFacts();
    if n == 0 then []
    else
      var r := [x % BASE] + ToDigits(x / BASE, n - 1);
      assert r[1..] == ToDigits(x / BASE, n - 1);
      if 0 <= x < Radix(n) then
        assert x == BASE * (x / BASE) + x % BASE;
        DivBound(x, BASE, Radix(n - 1));
        r
      else
        r
  }

  lemma DigitsNormed(s: seq<int>)
    requires Digits(s)
    ensures Normed(s)
  {
  }

  /* ---------------- bits ---------------- */

  /** Bit j of a limb, as BIG.bit reads it from a normalised BIG. */
  function Bit(x: int, j: nat): (b: int)
    ensures b == 0 || b == 1
  {
    (x / Pow2(j)) % 2
  }

  /** Bit i of a digit vector's value is bit i%256 of limb i/256. */
  lemma BitOfVal(s: seq<int>, i: nat)
    requires Digits(s) && i < LIMB_BITS * |s|
    ensures i / LIMB_BITS < |s|
    ensures Bit(Val(s), i) == Bit(s[i / LIMB_BITS], i % LIMB_BITS)
  {
    var q, r := i / LIMB_BITS, i % LIMB_BITS;
    if q >= |s| {
      MulMonoRight(LIMB_BITS, |s|, q);
      assert false;
    }
    BitSkipLimbs(s, q, r);
    BitInLimb(s[q..], r);
  }

  /** Skipping q whole limbs divides the value by Radix(q). */
  lemma BitSkipLimbs(s: seq<int>, q: nat, r: nat)
    requires Digits(s) && q <= |s|
    ensures Bit(Val(s), LIMB_BITS * q + r) == Bit(Val(s[q..]), r)
  {
    RadixIsPow2(q);
    Pow2Add(LIMB_BITS * q, r);
    ValSplit(s, q);
    assert Digits(s[..q]);
    DigitsBound(s[..q]);
    TopDivMod(Val(s), Val(s[..q]), Val(s[q..]), Radix(q));
    ModProduct(Val(s), Radix(q), Pow2(r));
  }

  /** Below 256, the bits of a vector are those of its lowest limb. */
  lemma BitInLimb(s: seq<int>, r: nat)
    requires |s| > 0 && r < LIMB_BITS
    ensures Bit(Val(s), r) == Bit(s[0], r)
  {
    BaseFacts();
    var p, v := Pow2(LIMB_BITS - r - 1), Val(s[1..]);
    Pow2Add(r, LIMB_BITS - r);
    assert Pow2(LIMB_BITS - r) == 2 * p;
    assert Val(s) == s[0] + BASE * v;
    MulAssoc(Pow2(r), 2 * p, v);
    MulAssoc(2, p, v);
    BitShift(Val(s), s[0], p * v, r);
  }

  lemma BitShift(x: int, d: int, h: int, r: nat)
    requires x == d + Pow2(r) * (2 * h)
    ensures Bit(x, r) == Bit(d, r)
  {
    var m := Pow2(r);
    var q := d / m;
    DivShift(x, d, 2 * h, m);
    DivModAddMul(q, h, 2);
  }

  lemma DivShift(x: int, d: int, k: int, m: int)
    requires m > 0 && x == d + m * k
    ensures x / m == d / m + k
  {
    DivModAddMul(d, k, m);
  }

  /* ---------------- bytes ---------------- */

  newtype uint8 = x: int | 0 <= x < 256

  /** 256^k. */
  function Pow256(k: nat): (r: int)
    ensures r > 0
  {
    if k == 0 then 1 else 256 * Pow256(k - 1)
  }

  lemma {:induction false} Pow256IsPow2(k: nat)
    ensures Pow256(k) == Pow2(8 * k)
  {
    if k > 0 {
      Pow256IsPow2(k - 1);
      Pow2Add(8, 8 * (k - 1));
      assert 8 * k == 8 + 8 * (k - 1);
      assert Pow2(8) == 256;
    }
  }

  /** The value of a big-endian byte string. */
  function BytesVal(b: seq<uint8>): int
  {
    if |b| == 0 then 0 else BytesVal(b[..|b| - 1]) * 256 + b[|b| - 1] as int
  }

  /** The low k bytes of x, big-endian (BIG.tobytearray with k = MODBYTES). */
  function LimbBytes(x: int, k: nat): (r: seq<uint8>)
    ensures |r| == k
    decreases k
  {
    if k == 0 then [] else LimbBytes(x / 256, k - 1) + [(x % 256) as uint8]
  }

  lemma {:induction false} LimbBytesVal(x: int, k: nat)
    ensures BytesVal(LimbBytes(x, k)) == x % Pow256(k)
    decreases k
  {
    if k > 0 {
      var r := LimbBytes(x, k);
      assert r[..k - 1] == LimbBytes(x / 256, k - 1);
      LimbBytesVal(x / 256, k - 1);
      ModProduct(x, 256, Pow256(k - 1));
    }
  }

  lemma {:induction false} BytesValBound(b: seq<uint8>)
    ensures 0 <= BytesVal(b) < Pow256(|b|)
  {
    if |b| > 0 {
      BytesValBound(b[..|b| - 1]);
    }
  }

  lemma {:induction false} BytesLimbBytes(b: seq<uint8>)
    ensures LimbBytes(BytesVal(b), |b|) == b
  {
    if |b| > 0 {
      var x := BytesVal(b);
      var init := b[..|b| - 1];
      DivModUnique(x, 256, BytesVal(init), b[|b| - 1] as int);
      BytesLimbBytes(init);
      assert b == init + [b[|b| - 1]];
    }
  }

  lemma BaseIsPow256()
    ensures BASE == Pow256(MODBYTES)
  {
    BaseFacts();
    Pow256IsPow2(MODBYTES);
  }
}
