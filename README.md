# Large finite field arithmetic (FF) in Dafny

This project models the `FF` class of the milagro-crypto Java library (`java/FF.java`). An `FF` is a fixed-length vector of `BIG` limbs, least significant first, standing for the integer `Σ v[i] · 2^(256·i)`. Limbs may hold values outside `[0, 2^256)`: the lazy adds and subtracts leave them that way until a normalisation pass. On top of the limb operations the class provides:

- Karatsuba multiplication, squaring and half products;
- shift-and-subtract reduction (`mod`, `dmod`);
- Montgomery arithmetic (`invmod2m`, `reduce`, `nres`, `redc`, `modmul`, `modsqr`);
- four exponentiations: the `skpow` ladders, `pow`, `power` and `pow2`;
- a binary extended Euclid inverse (`invmodp`);
- a small-factor filter (`cfactor`) and the Miller-Rabin test (`prime`).

**The model's form.** `FF` is a Dafny `class` whose limbs are an `array<int>` that the methods update in place. Each `BIG` limb is modelled by its integer value.

**Constants.** The ROM constants are fixed as in the BN254 build:

- `MODBYTES = 32`, `BASEBITS = 29`, `NLEN = 9`.
- So a limb's nominal width is 256 bits (`BASE = 2^256`), its words are `2^29` apart, and `P_FEXCESS = 2^(261-256) = 32`.
- The ROM class itself is not part of this model.

**Limb vectors.**

- `Val(s)` is the integer a vector stands for.
- `Digits(s)` says every limb is in `[0, BASE)`. `Normed(s)` says every limb but the top one is, as `norm` leaves them.
- `Radix(n) = 2^(256n)` is the Montgomery radix `R` of an `n`-limb modulus.
- `Mont(x, a, p, n)` says `x` is the Montgomery form of `a`, i.e. `x ≡ a·R (mod p)`.

**Specification functions and methods.** The Karatsuba routines are specified by pure functions on limb sequences that follow the Java steps (`KarMul`, `KarSqr`, `KarMulLower`, `KarMulUpper`). Montgomery reduction is specified by `Reduced`. Every method is proved against such a function, or against a modular statement about values.

**Modules.**

| module | what it holds |
|---|---|
| `Arith` | powers, `Exp`, congruences, `Gcd` |
| `Limbs` | the limb vectors, constants and byte strings |
| `Windows` | carries and window updates |
| `Karatsuba` | the Karatsuba functions |
| `Montgomery` | the reduction functions |
| `Inverse` | Hensel and Arazi-Qi lifting |
| `Powers` | exponent bits and ladder steps |
| `NumberTheory` | gcd facts, Java's remainder, the Miller-Rabin predicate |
| `FiniteField` | the `FF` class |

## Model

| member | source | states |
|---|---|---|
| FiniteField.FF.constructor | java/FF.java:39-45 | a new FF of n limbs, all zero |
| FiniteField.FF.FromWords | java/FF.java:47-53 | limb i is the BIG whose NLEN words are table row i |
| FiniteField.FF.Pexcess | java/FF.java:33-36 | on a normalised vector, the result is the part of the value above the nominal 256·n bits |
| FiniteField.FF.Set | java/FF.java:61-66 | the vector becomes m in limb 0 and zeros elsewhere, so its value is m |
| FiniteField.FF.Copy | java/FF.java:69-75 | the limbs become b's low limbs, read before any write, so copying an FF onto itself is harmless |
| FiniteField.FF.Dsucopy | java/FF.java:78-85 | the low 2n limbs become b shifted up n limbs, so their value is R·b; the rest is untouched |
| FiniteField.FF.Dscopy | java/FF.java:88-95 | the low 2n limbs become b followed by n zero limbs, so their value is b |
| FiniteField.FF.Sducopy | java/FF.java:98-104 | the limbs become the high half of the double-length b |
| FiniteField.FF.Zero | java/FF.java:107-113 | all limbs zero, value 0 |
| FiniteField.FF.One | java/FF.java:115-122 | limb 0 is 1 and the rest are zero, value 1 |
| FiniteField.FF.IsZilch | java/FF.java:125-132 | true exactly when every limb is zero; on a normalised vector, exactly when the value is 0 |
| FiniteField.FF.Shrw | java/FF.java:135-142 | limbs n..2n-1 move down to 0..n-1 and are cleared; limbs from 2n on are unchanged |
| FiniteField.FF.Shlw | java/FF.java:145-152 | limbs 0..n-1 move up to n..2n-1 and are cleared; limbs from 2n on are unchanged |
| FiniteField.FF.Parity | java/FF.java:155-158 | the result is the value mod 2 |
| FiniteField.FF.Lastbits | java/FF.java:160-163 | the result is the value mod 2^m, for m up to one word |
| FiniteField.Sign | java/FF.java:171 | the three-way sign that BIG.comp reports: positive, zero or negative with the argument |
| FiniteField.LexCompSign | java/FF.java:166-175 | on normalised vectors, the limb-by-limb comparison from the top equals the sign of the difference of the values |
| FiniteField.FF.Comp | java/FF.java:166-175 | the result is the lexicographic comparison from the top limb; on normalised inputs, the sign of a − b |
| Windows.Plus | java/FF.java:178-194 | the limb-wise sum, whose value is the sum of the values |
| Windows.Minus | java/FF.java:197-213 | the limb-wise difference, whose value is the difference of the values |
| FiniteField.FF.Radd | java/FF.java:178-185 | the window at vp becomes the limb-wise sum of x's and y's windows; its value is their sum and nothing outside it changes |
| FiniteField.FF.Rinc | java/FF.java:188-194 | y's window is added in place at vp; the window's value grows by y's and nothing outside it changes |
| FiniteField.FF.Rsub | java/FF.java:197-204 | the window at vp becomes x's window minus y's, in value and limb by limb, and nothing outside it changes |
| FiniteField.FF.Rdec | java/FF.java:207-213 | y's window is subtracted in place at vp; nothing outside the window changes |
| FiniteField.FF.Add | java/FF.java:216-220 | limb-wise sum; the value grows by b's, also when b is this FF |
| FiniteField.FF.Sub | java/FF.java:223-227 | limb-wise difference; the value drops by b's, also when b is this FF |
| FiniteField.FF.RevSub | java/FF.java:230-234 | each limb becomes b's limb minus its own, so the value becomes b − this |
| FiniteField.FF.Inc | java/FF.java:237-241 | the value grows by m and the vector is left normalised |
| FiniteField.FF.Dec | java/FF.java:243-247 | the value drops by m and the vector is left normalised |
| Windows.Carry | java/FF.java:259-265 | the carry pass leaves all limbs but the top one as digits and keeps the value |
| Windows.Trunc | java/FF.java:265-267 | dropping the top limb's overflow after the carry pass gives the value mod Radix(n), in digits |
| Windows.RNormed | java/FF.java:250-269 | for n > 0 the window is normalised with its value kept; for n < 0 it is reduced mod Radix(abs n) into digits |
| Windows.AddAt | java/FF.java:188-194 | adding a window at position p raises the value by Radix(p) times the window's value and leaves the limbs outside it alone |
| Windows.SubAt | java/FF.java:207-213 | subtracting a window at position p lowers the value by Radix(p) times the window's value and leaves the limbs outside it alone |
| Windows.NormAt | java/FF.java:250-264 | normalising a window keeps the whole vector's value and touches only that window |
| Windows.TruncAt | java/FF.java:250-269 | the window becomes its value mod Radix(n), in digits, and the limbs outside it are unchanged |
| FiniteField.FF.RNorm | java/FF.java:250-269 | the array becomes the old one with the window replaced by RNormed of it |
| FiniteField.FF.Carries | java/FF.java:259-264 | the window keeps its value, all but its top limb become digits, and nothing outside it changes |
| FiniteField.FF.Norm | java/FF.java:271-274 | the vector is normalised and keeps its value |
| FiniteField.FF.Shl | java/FF.java:277-289 | the value doubles, and a normalised vector stays normalised |
| FiniteField.FF.Shr | java/FF.java:293-302 | for a normalised vector, the value is halved rounding down and the vector stays normalised |
| FiniteField.Encode | java/FF.java:317-323 | MODBYTES big-endian bytes per limb, top limb first |
| FiniteField.Decode | java/FF.java:325-331 | n limbs read from n·MODBYTES big-endian bytes |
| FiniteField.DecodeEncode | java/FF.java:317-331 | reading back the bytes written from a digit vector gives the same limbs |
| FiniteField.EncodeDecode | java/FF.java:317-331 | writing out the limbs read from any byte string gives the same bytes |
| FiniteField.FF.ToBytes | java/FF.java:317-323 | the first MODBYTES·n bytes of b become the encoding of the limbs; later bytes are untouched |
| FiniteField.FF.FromBytes | java/FF.java:325-331 | x's limbs become the decoding of the first MODBYTES·n bytes |
| FiniteField.FF.CSwap | java/FF.java:334-341 | for d = 1 the two vectors are exchanged; for d = 0 both are unchanged |
| Karatsuba.Split | java/FF.java:349-351 | a double-width limb product becomes two limbs, the low one a digit, with the same value |
| Karatsuba.KarMul | java/FF.java:344-366 | the 2n-limb result is normalised and its value is x·y |
| Karatsuba.MulJoin | java/FF.java:354-365 | combining the half sums' product with x0·y0 and x1·y1 (the two rdec, the rinc, the final rnorm) gives x·y, normalised |
| Karatsuba.HalfSum | java/FF.java:355-358 | the normalised sum of the two halves of x |
| Karatsuba.KarSqr | java/FF.java:368-386 | the 2n-limb result has value x², its low half in digits |
| Karatsuba.SqrLeaf | java/FF.java:371-376 | the one-limb square split into two limbs, the low one a digit |
| Karatsuba.SqrJoin | java/FF.java:379-385 | the halves' squares plus twice the cross product added at limb n/2 give x², low half in digits |
| Karatsuba.SMul | java/FF.java:394 | BIG.smul: a digit congruent to a·b modulo BASE |
| Karatsuba.KarMulLower | java/FF.java:389-405 | the n-limb result is in digits and its value is x·y mod Radix(n) |
| Karatsuba.LowLeaf | java/FF.java:392-396 | the one-limb low product is x·y mod BASE |
| Karatsuba.LowJoin | java/FF.java:397-404 | x0·y0 plus the two truncated cross products at limb n/2, truncated, is x·y mod Radix(n) |
| Karatsuba.LowCombine | java/FF.java:397-404 | the arithmetic fact behind LowJoin: the low product plus the truncated high window is x·y mod Radix(n) |
| Karatsuba.KarMulUpper | java/FF.java:407-426 | given the low half of x·y in the buffer, the 2n-limb result has value x·y with its low half in digits |
| Karatsuba.UpperJoin | java/FF.java:411-425 | karmul_upper's sequence of window operations yields x·y, low half in digits |
| Karatsuba.UpperSound | java/FF.java:411-425 | the steps of karmul_upper, applied in order, have value x·y and leave the low half in digits |
| Karatsuba.UpperCombine | java/FF.java:418-425 | the arithmetic behind karmul_upper's last steps: the pieces sum to x·y |
| FiniteField.FF.Load | java/FF.java:434 | the limbs become the given sequence, the value its Val |
| FiniteField.FF.Mul | java/FF.java:429-436 | a fresh 2n-limb FF holding KarMul(x, y): normalised, with value x·y |
| FiniteField.FF.Sqr | java/FF.java:439-446 | a fresh 2n-limb FF holding KarSqr(x), value x², low half in digits |
| FiniteField.FF.Lmul | java/FF.java:449-455 | this becomes KarMulLower of itself and y: this·y mod Radix(n), in digits |
| FiniteField.FF.HalveAndSubtract | java/FF.java:471-480 | c is halved; this drops by the new c exactly when it was at least the new c |
| FiniteField.FF.Mod | java/FF.java:458-481 | the result is normalised, below c and congruent to the old value; it is the old value mod c for a non-negative old value and unchanged below c; c ends as it began |
| Montgomery.MontLow | java/FF.java:490-491 | with ND the inverse of N modulo R and m = T·ND mod R, N·m agrees with T modulo R |
| Montgomery.MontProduct | java/FF.java:490-493 | the 2n limbs that karmul_upper leaves in T's place |
| Montgomery.MontProductCorrect | java/FF.java:490-493 | that product is N·m, with m = low(T)·ND mod R, low half in digits and congruent to T modulo R |
| Montgomery.Reduced | java/FF.java:484-501 | reduce's result, normalised |
| Montgomery.ReducedCorrect | java/FF.java:484-501 | the result times R is congruent to T modulo N; for T ≥ 0 it is positive and at most (T + N·R)/R; for T < N·R it is below 2N |
| Montgomery.MontgomeryReduce | java/FF.java:495-497 | hi(T) + N − hi(N·m) times R is T − N·m + N·R: congruent to T modulo N and, in range, in (0, 2N) |
| FiniteField.FF.MontgomeryStep | java/FF.java:490-493 | this takes the product karmul_upper forms and m its top half, as sducopy does |
| FiniteField.FF.AddSubNorm | java/FF.java:495-497 | r becomes the carry-normalised r + N − m |
| FiniteField.FF.Reduce | java/FF.java:484-501 | the result equals Reduced of T, and T is overwritten by the product N·m (MontProduct) |
| FiniteField.FF.MontReduce | java/FF.java:484-501 | the result times R is congruent to T modulo N, and positive and at most (T + N·R)/R for T ≥ 0 |
| FiniteField.FF.Descend | java/FF.java:518-528 | k rounds of halve-and-subtract starting from B·2^k keep the value modulo B, and bring a value below B·2^k into [0, B) |
| FiniteField.DmodLow | java/FF.java:530-531 | after the loop the low half holds digits and, in range, the residue |
| FiniteField.FF.ShiftedCopy | java/FF.java:516 | the dsucopy into a fresh 2n-limb FF has value b·R, normalised when b is |
| FiniteField.FF.Descended | java/FF.java:509-528 | a normalised copy of this taken through the halve-and-subtract rounds stays congruent to this modulo b, and lands in [0, b) when 0 ≤ this < b·R |
| FiniteField.FF.Dmod | java/FF.java:507-535 | the result is in [0, b); it is this mod b whenever 0 ≤ this < b·R |
| Powers.NresMont | java/FF.java:612-618 | x·R mod p is the Montgomery form of x |
| FiniteField.FF.Nres | java/FF.java:612-618 | the result is in [0, m); for 0 ≤ this < m it is this·R mod m, the Montgomery form |
| FiniteField.FF.ReduceLow | java/FF.java:625-626 | this, extended by n zero limbs and reduced, is positive and its value times R is congruent to the old value |
| FiniteField.RedcChain | java/FF.java:624-627 | mod, reduce, mod compose into a result whose value times R is congruent to the input |
| FiniteField.FF.Redc | java/FF.java:620-628 | the result is below m; for a non-negative input it is in [0, m) and its value times R is congruent to the input modulo m |
| Powers.MontOut | java/FF.java:620-628 | redc of the Montgomery form of a is a mod p |
| FiniteField.FF.Mod2m | java/FF.java:630-634 | limbs from m on are cleared and the rest kept; on digits, the value becomes its residue mod Radix(m) |
| FiniteField.ClearedTop | java/FF.java:630-634 | clearing the limbs from m on reduces a digit vector modulo Radix(m) |
| Inverse.InvLift | java/FF.java:648-649 | the Hensel iterate r ↦ r(2 − a·r), reduced into [0, 2^(2^j)) |
| Inverse.HenselLift | java/FF.java:648-649 | an inverse modulo m lifts to one modulo m² |
| Inverse.InvLiftCorrect | java/FF.java:648-649 | for odd a, InvLift(a, j) is an inverse of a modulo 2^(2^j) |
| Inverse.LimbInv | java/FF.java:648-649 | the one-limb inverse BIG.invmod2m computes, a digit |
| Inverse.LimbInvCorrect | java/FF.java:648-649 | for odd a it is the inverse of a modulo BASE |
| Inverse.AraziQiStep | java/FF.java:651-664 | from the inverse u of a modulo r, the correction bp formed by the round makes u + r·bp the inverse modulo r² |
| Inverse.HighOfProduct | java/FF.java:653-654 | U·(a mod Radix(i)) = 1 + Radix(i)·h, with h the digits shrw(i) leaves |
| FiniteField.FF.HighHalf | java/FF.java:653-654 | b becomes h, the high half of U·(a mod Radix(i)) = 1 + Radix(i)·h |
| FiniteField.FF.SecondDigit | java/FF.java:655 | c becomes the second base-Radix(i) digit of a |
| FiniteField.FF.LowProduct | java/FF.java:656 | the value becomes (this·U) mod Radix(i), in digits |
| FiniteField.FF.CrossHalf | java/FF.java:655-656 | c becomes (U·a1) mod Radix(i), with a1 the second base-Radix(i) digit of a |
| FiniteField.FF.Complement | java/FF.java:661-662 | for w in [0, Radix(i)), b becomes Radix(i)·((Radix(i) − w) mod Radix(i)), held in limbs i..2i−1 |
| FiniteField.FF.Correction | java/FF.java:658-662 | b becomes Radix(i)·((Radix(i) − (b + c)·U mod Radix(i)) mod Radix(i)) |
| FiniteField.FF.InvRound | java/FF.java:651-664 | from an inverse of a modulo Radix(i) below Radix(i), U becomes an inverse modulo Radix(2i) below Radix(2i) |
| FiniteField.FF.Invmod2m | java/FF.java:637-667 | for an odd modulus in digits, U in digits with this·U ≡ 1 modulo R |
| FiniteField.ModmulValue | java/FF.java:694-701 | the optional mod before the product changes neither the congruence nor the bound |
| FiniteField.FF.MulReduce | java/FF.java:699-700 | this·y reduced: its value times R is congruent to this·y, and for a non-negative product it is positive and at most (this·y + p·R)/R |
| FiniteField.FF.Modmul | java/FF.java:694-701 | the result times R is congruent to this·y modulo p; for non-negative inputs it is positive and at most (this·y + p·R)/R |
| FiniteField.SquareValue | java/FF.java:704-710 | the optional mod before squaring changes neither the congruence nor the bound |
| FiniteField.FF.SqrReduce | java/FF.java:708-709 | the square reduced: times R congruent to this², positive, and at most (this² + p·R)/R |
| FiniteField.FF.Modsqr | java/FF.java:704-710 | the result times R is congruent to this² modulo p, positive, and at most (this² + p·R)/R for this ≥ 0 |
| Powers.MontMul | java/FF.java:694-701 | the Montgomery product of the forms of x and y is the form of x·y |
| Powers.LadderStep | java/FF.java:729-736 | one ladder rung takes the forms of x^k and x^(k+1) to those of x^(2k+b) and x^(2k+b+1) |
| Powers.BitStep | java/FF.java:726-728 | reading e from the top: the bits from i on are twice those from i+1 on, plus bit i |
| Limbs.BitOfVal | java/FF.java:728 | bit i of a digit vector's value is bit i mod 256 of limb i/256 |
| FiniteField.FF.BitAt | java/FF.java:728 | the result is bit i of the value, 0 or 1 |
| FiniteField.Repeat | java/FF.java:726-737 | k copies of a rung's calls in a row: the rung's length times k calls, and call j is call (j mod that length) of the rung, so every rung makes the same calls |
| FiniteField.FF.LadderRung | java/FF.java:729-736 | for b = 0, R0 becomes the form of R0² and R1 of R0·R1; for b = 1, R0 of R0·R1 and R1 of R1²; for either bit the calls made are RUNG: copy(R0), modmul(R1), cswap, R0.modsqr, R1.copy(this), cswap |
| FiniteField.FF.MontStart | java/FF.java:720-724 | this is reduced mod p to x, and R0, R1 become the forms of x^0 and x^1 |
| FiniteField.FF.LadderBit | java/FF.java:728-737 | one bit moves the pair from x^k, x^(k+1) to x^(2k+b), x^(2k+b+1), making the calls of RUNG |
| FiniteField.FF.Ladder | java/FF.java:726-738 | over all 8·MODBYTES·n bits of e, R0 ends as the form of x^e; the calls made are exactly 8·MODBYTES·n copies of RUNG, the same for every e |
| FiniteField.FF.MontFinish | java/FF.java:740-741 | from the form of a in R0, this becomes a mod p |
| FiniteField.FF.Finish | java/FF.java:741 | redc of the form of a is a mod p |
| FiniteField.FF.Skpow | java/FF.java:713-742 | this becomes this^e mod p, for odd p; its ladder makes 8·MODBYTES·n copies of RUNG whatever e is |
| FiniteField.FF.LadderBig | java/FF.java:758-769 | over the 8·MODBYTES bits of a short e, R0 ends as the form of x^e; the calls made are exactly 8·MODBYTES copies of RUNG, the same for every e |
| FiniteField.FF.SkpowBig | java/FF.java:745-772 | this becomes this^e mod p for a one-limb exponent e; its ladder makes 8·MODBYTES copies of RUNG whatever e is |
| Powers.SquareOnce | java/FF.java:785-789 | power's e = 2 case: one Montgomery squaring of the form of x is the form of x² |
| Powers.LowBitStep | java/FF.java:792-798 | reading e from the bottom: e >> (j+1) is (e >> j)/2, and the low j+1 bits add bit j at weight 2^j |
| Powers.SquareRunning | java/FF.java:800 | squaring the form of x^(2^j) gives that of x^(2^(j+1)) |
| Powers.AccumulateBit | java/FF.java:795 | multiplying the form of x^lo by that of x^(2^j) gives that of x^(lo + 2^j) |
| FiniteField.FF.Collect | java/FF.java:792-797 | for a set bit j, the first copies w and later ones multiply it in, so this becomes the form of x^(lo + 2^j) |
| FiniteField.FF.PowerLoop | java/FF.java:790-801 | no bit is collected exactly when e = 0, and then this is untouched; otherwise this ends as the form of x^e |
| FiniteField.FF.Power | java/FF.java:775-803 | for e > 0, this becomes this^e mod p; for e = 0, the result r is in [0, p) with r·R ≡ this, i.e. redc of the base |
| Powers.SquareMultiplyStep | java/FF.java:818-820 | squaring the form of x^k, then multiplying by the form of x when bit b is set, gives the form of x^(2k+b) |
| FiniteField.FF.SquareMultiply | java/FF.java:818-820 | one bit of pow takes the form of x^k to that of x^(2k+b) |
| FiniteField.FF.PowLoop | java/FF.java:816-821 | over all 8·MODBYTES·n bits of e, this goes from the form of 1 to that of x^e |
| FiniteField.FF.Pow | java/FF.java:806-823 | this becomes this^e mod p, for odd p and a base below p |
| Powers.DoubleStep | java/FF.java:846-855 | squaring the form of x^ke·y^kf and multiplying by that of x^eb·y^fb gives the form of x^(2ke+eb)·y^(2kf+fb) |
| FiniteField.FF.PairStart | java/FF.java:834-840 | xn, yn and xy become the forms of x, y and x·y, and this the form of 1 |
| FiniteField.FF.DoubleBit | java/FF.java:844-855 | one bit pair takes the form of x^ke·y^kf to that of x^(2ke+eb)·y^(2kf+fb) |
| FiniteField.FF.DoubleLoop | java/FF.java:842-856 | over the 8·MODBYTES bit pairs, this ends as the form of x^e·y^f |
| FiniteField.FF.DoublePow | java/FF.java:826-858 | this becomes x^e·y^f mod p for one-limb e and f and bases below p |
| NumberTheory.JavaRem | java/FF.java:864 | Java's int %: magnitude abs(a) mod abs(b), with the sign of a |
| FiniteField.FF.Igcd | java/FF.java:860-867 | the result is gcd(abs x, abs y) up to sign, and non-negative for non-negative arguments |
| FiniteField.FF.StripTwos | java/FF.java:886 | the value loses a power of two and ends zero or odd |
| NumberTheory.GcdSubtract | java/FF.java:884 | subtracting s from x ≥ s keeps the gcd with s |
| NumberTheory.GcdHalve | java/FF.java:886 | halving an even x keeps its gcd with an odd s |
| NumberTheory.GcdPow2 | java/FF.java:886 | removing any power of two keeps the gcd with an odd s |
| FiniteField.StripGcd | java/FF.java:884-886 | one pass of cfactor from x0 ≥ s keeps the gcd with odd s and lands in [0, x0 − s] |
| FiniteField.FF.SubtractStrip | java/FF.java:884-886 | x becomes (x − y)/2^k, zero or odd, for some k |
| FiniteField.FF.StripWhileAbove | java/FF.java:882-888 | x ends at most s; for odd s and a non-negative start, non-negative with the same gcd with s |
| FiniteField.FF.Cfactor | java/FF.java:870-894 | for odd s below 2^29 and this ≥ s, the answer is true exactly when gcd(this, s) > 1 |
| FiniteField.FF.HalveMod | java/FF.java:560-565 | x in [0, p) becomes x' in [0, p) with 2x' ≡ x modulo odd p |
| FiniteField.HalveStep | java/FF.java:557-566 | halving u with x halved modulo p keeps x·a ≡ u |
| NumberTheory.CoprimeHalve | java/FF.java:557-559 | halving the even one of a coprime pair keeps it coprime |
| FiniteField.FF.Halving | java/FF.java:557-566 | u ends odd and no larger, still coprime to w, with x·a ≡ u modulo p and x in [0, p) |
| FiniteField.FF.ModSub | java/FF.java:582-589 | for both in [0, p), the value becomes (this − x2) mod p |
| FiniteField.SubtractPairing | java/FF.java:577-589 | (x1 − x2 mod p)·a ≡ u − w when x1·a ≡ u and x2·a ≡ w |
| FiniteField.FF.SubtractStep | java/FF.java:577-590 | u drops by w, and x1 is kept in [0, p) with x1·a ≡ u |
| FiniteField.EuclidStart | java/FF.java:548-552 | the starting pairs 1·a ≡ a and 0·a ≡ p hold |
| FiniteField.EuclidRoundEnd | java/FF.java:577-603 | subtracting the smaller side keeps the pair coprime and shrinks their sum |
| FiniteField.FF.EuclidRound | java/FF.java:557-603 | a round keeps u, w coprime and non-negative with x1·a ≡ u and x2·a ≡ w, and strictly shrinks u + w |
| FiniteField.FF.EuclidLoop | java/FF.java:555-604 | the loop ends with u = 1 or w = 1, keeping x1·a ≡ u and x2·a ≡ w modulo p |
| FiniteField.FF.Invmodp | java/FF.java:537-609 | for odd p and 0 < this < p coprime to p, the result is in [0, p) and is an inverse of this modulo p |
| NumberTheory.InverseUnique | java/FF.java:605-608 | there is only one inverse in [0, p), so the one invmodp returns is the inverse |
| FiniteField.FF.Randomnum | java/FF.java:681-691 | the result is in [0, p); it is the 2n drawn limbs' value mod p whenever that value is below p·R |
| FiniteField.FF.Halvings | java/FF.java:916-920 | the old value is the new one times 2^s, and the new one is odd |
| FiniteField.ParityOfPredecessor | java/FF.java:916-921 | for p − 1 = d·2^s with d odd, s is 0 exactly when p is even |
| FiniteField.FF.OddPart | java/FF.java:910-920 | unity = 1, nm1 = p − 1 and p − 1 = d·2^s with d odd and positive |
| NumberTheory.TrivialBases | java/FF.java:926 | every odd p > 2 passes the round for bases 1 and p − 1 |
| NumberTheory.SquareExpMod | java/FF.java:930 | squaring x^m mod p gives x^(2m) mod p |
| NumberTheory.StaysOne | java/FF.java:931 | once x^m ≡ 1, every x^(m·2^k) ≡ 1 |
| NumberTheory.OneBeforeMinusOne | java/FF.java:931 | when the squares reach 1 before −1, the base fails the Miller-Rabin round |
| FiniteField.FF.Squarings | java/FF.java:927-934 | the squarings pass exactly when the base passes the Miller-Rabin round |
| FiniteField.FF.MillerRabinRound | java/FF.java:924-935 | the round passes exactly when its base w passes; w is in [0, p) and is the draw mod p when the draw is below p·R |
| FiniteField.FF.Witnesses | java/FF.java:922-937 | true means all ten bases pass; false means the last base tried fails |
| FiniteField.FF.Prime | java/FF.java:897-938 | keeps p; false on a small factor shared with 3·5·…·19 (for p ≥ 4849845) or an even p; true only when all ten bases pass the Miller-Rabin round for p − 1 = d·2^s, each base in [0, p) and equal to its draw mod p whenever that draw is below p·R; a false for an odd p with no small factor names a failing base |

## Left out

- `random` (java/FF.java:669-678) is not modelled. It fills the limbs from the generator until the top limb has its top bit set; that loop depends only on the generator. `RAND` is not part of this model, and the generator's output enters `randomnum` and `prime` as the parameter `draws`.
- `toString` (java/FF.java:305-314) and `main` (java/FF.java:945) produce text or run a demonstration and are not modelled. `getlen` is the array length.
- Timing is not modelled. The ladder's fixed sequence of calls is stated through a ghost trace (see `RUNG` and `Repeat`), but that `cswap` does the same work for d = 0 and d = 1 is not a contract. It holds by the shape of `CSwap`, which has no branch on the bit.
- Karatsuba (karmul, karsqr, karmul_lower, karmul_upper) is modelled on values, by functions on limb sequences that follow the Java steps. The shared scratch buffer `t`, the in-place writes into the destination and the aliasing between recursive calls are not modelled. `Mul`, `Sqr`, `Lmul` and `Reduce` load the function's result into the array. So `Radd`, `Rinc`, `Rsub` and `Rdec` stand alone as models of the window primitives: no other method calls them, and the Karatsuba functions use their value counterparts `Plus`, `Minus`, `AddAt` and `SubAt`.
- BIG is not part of this model. A limb is an unbounded integer; BIG's words, `norm`, `fshl`/`fshr`, `xortop` and `ortop` are modelled by their effect on the limb's value. `ortop` is addition, which is exact for a normalised vector.
- `Inverse.LimbInv`: BIG.invmod2m is modelled by eight Hensel lifts from 1 to 2^256, not by BIG's own bit-by-bit loop. Only its result, the inverse modulo 2^256, is stated.
- FiniteField.FF.Reduce: requires N > 0 with ND its inverse modulo R; callers always pass such a pair.
- FiniteField.FF.Dmod: the residue is exact only for 0 ≤ this < b·R, because the code makes one pass of subtractions from b·R/2 down. Above that the result is still in [0, b) but no congruence is stated.
- FiniteField.FF.Pow: the base must be below p (likewise for Power, DoublePow and their ladders), because pow, power and pow2 pass the base to `nres` unreduced, and nres is exact only below p. Skpow and SkpowBig reduce the base first and need no such bound.
- FiniteField.FF.Power: for e = 0 the code returns redc of the base, not 1; the contract states that value as the code computes it.
- FiniteField.FF.Power: the exponent is a `nat`. For a negative Java `int` e the loop at java/FF.java:792-799 never ends, because `e>>=1` stays at −1 and the `e==0` break is never taken.
- FiniteField.FF.Skpow: the exponent's limbs must be digits, which is how `bit` reads them. For SkpowBig and DoublePow the short exponents are integers in [0, 2^256), the range of a normalised BIG.
- Karatsuba.KarMulUpper: the even split needs n ≥ 2, so the Montgomery methods require a power-of-two length of at least 2.
- FiniteField.FF.Cfactor: the contract covers odd s < 2^29 (one word, as `get(0)` reads) and this ≥ s. Below s the first subtraction goes negative, and the model does not state what the code then answers. So the claim that small primes such as 7 and 13 are reported prime is not covered. Followed through the code by hand, the two differ. For 13, what is left of x is −606229, whose low word shares the factor 19 with s, so cfactor answers true and prime rejects 13. For 7, what is left is −2424919, whose low word is coprime to s, so 7 goes on to the Miller-Rabin rounds.
- FiniteField.FF.Invmodp: requires p odd and 0 < this < p coprime to p. The code's loop does not end otherwise, since with a shared factor neither side reaches 1.
- FiniteField.FF.Prime: requires 2 ≤ p < R. p ∈ {0, 1} is excluded; the code answers false there, and the contract does not cover it. For p = 1, cfactor finds the factor 3 in the low word of what is left (−1212461); for p = 0, the s = 0 exit is taken. p ≥ R exceeds the n limbs.
- FiniteField.FF.Prime: only the last base tried is stated to fail on a false answer. MillerRabinPass is the per-base test, not a proof of primality; the 4^−10 error bound is probabilistic and not modelled.
- FiniteField.FF.Randomnum: the drawn limbs are assumed to be digits, as BIG.random returns them.
- FiniteField.FF.Igcd: works on unbounded integers with Java's truncating remainder; 32-bit overflow cannot occur for the arguments cfactor passes.
