/** Windows of limb vectors: the state of a vector after an operation that
    writes one window of it, the limb-wise sum and difference of two
    windows, and the carry normaliser on a window's values. */
module Windows {
  import opened Arith
  import opened Limbs

  /** s with the window starting at p replaced by w: the state of a vector
      after an operation that writes only that window. */
  function Splice(s: seq<int>, p: nat, w: seq<int>): (r: seq<int>)
    requires p + |w| <= |s|
    ensures |r| == |s|
  {
    s[..p] + w + s[p + |w|..]
  }

  lemma SpliceAt(s: seq<int>, p: nat, w: seq<int>)
    requires p + |w| <= |s|
    ensures Splice(s, p, w)[p..p + |w|] == w
  {
    assert |s[..p]| == p;
  }

  lemma SpliceParts(s: seq<int>, p: nat, w: seq<int>)
    requires p + |w| <= |s|
    ensures Splice(s, p, w)[..p] == s[..p]
    ensures Splice(s, p, w)[p..p + |w|] == w
    ensures Splice(s, p, w)[p + |w|..] == s[p + |w|..]
  {
    SpliceAt(s, p, w);
    var r := Splice(s, p, w);
    assert r[..p] == s[..p];
    assert r[p + |w|..] == s[p + |w|..];
  }

  /** The value changes by the change d of the window, at the window's
      weight. */
  lemma ValSplice(s: seq<int>, p: nat, w: seq<int>, d: int)
    requires p + |w| <= |s| && Val(w) == Val(s[p..p + |w|]) + d
    ensures Val(Splice(s, p, w)) == Val(s) + Radix(p) * d
  {
    var a, m, t := s[..p], s[p..p + |w|], s[p + |w|..];
    assert s == a + m + t;
    ValPartChange(a, m, w, t, p, p + |w|, d);
  }

  /** The same for a window that decreased by d. */
  lemma ValSpliceDown(s: seq<int>, p: nat, w: seq<int>, d: int)
    requires p + |w| <= |s| && Val(w) == Val(s[p..p + |w|]) - d
    ensures Val(Splice(s, p, w)) == Val(s) - Radix(p) * d
  {
    ValSplice(s, p, w, -d);
    NegScale(Val(Splice(s, p, w)), Val(s), Radix(p), d);
  }

  lemma NegScale(v: int, u: int, r: int, d: int)
    requires v == u + r * -d
    ensures v == u - r * d
  {
  }

  /** Limb-wise sum and difference of two windows of equal length. */
  function Plus(a: seq<int>, b: seq<int>): (r: seq<int>)
    requires |a| == |b|
    ensures |r| == |a| && forall i | 0 <= i < |r| :: r[i] == a[i] + b[i]
    ensures Val(r) == Val(a) + Val(b)
  {
    var r := seq(|a|, i requires 0 <= i < |a| => a[i] + b[i]);
    ValAddElems(a, b, r);
    r
  }

  function Minus(a: seq<int>, b: seq<int>): (r: seq<int>)
    requires |a| == |b|
    ensures |r| == |a| && forall i | 0 <= i < |r| :: r[i] == a[i] - b[i]
    ensures Val(r) == Val(a) - Val(b)
  {
    var r := seq(|a|, i requires 0 <= i < |a| => a[i] - b[i]);
    ValSubElems(a, b, r);
    r
  }

  /** rinc on values: w added limb by limb into the window at p. */
  function AddAt(s: seq<int>, p: nat, w: seq<int>): (r: seq<int>)
    requires p + |w| <= |s|
    ensures |r| == |s| && Val(r) == Val(s) + Radix(p) * Val(w)
    ensures r[..p] == s[..p] && r[p + |w|..] == s[p + |w|..]
  {
    var r := Splice(s, p, Plus(s[p..p + |w|], w));
    ValSplice(s, p, Plus(s[p..p + |w|], w), Val(w));
    SpliceParts(s, p, Plus(s[p..p + |w|], w));
    r
  }

  /** rdec on values: w subtracted limb by limb from the window at p. */
  function SubAt(s: seq<int>, p: nat, w: seq<int>): (r: seq<int>)
    requires p + |w| <= |s|
    ensures |r| == |s| && Val(r) == Val(s) - Radix(p) * Val(w)
    ensures r[..p] == s[..p] && r[p + |w|..] == s[p + |w|..]
  {
    var r := Splice(s, p, Minus(s[p..p + |w|], w));
    ValSpliceDown(s, p, Minus(s[p..p + |w|], w), Val(w));
    SpliceParts(s, p, Minus(s[p..p + |w|], w));
    r
  }

  /** rnorm on values: the carry chain over the window [p, p+n); the value
      of the whole vector is kept and the window becomes normalised. */
  function NormAt(s: seq<int>, p: nat, n: nat): (r: seq<int>)
    requires 0 < n && p + n <= |s|
    ensures |r| == |s| && Val(r) == Val(s) && Normed(r[p..p + n])
    ensures r[..p] == s[..p] && r[p + n..] == s[p + n..]
  {
    var c := Carry(s[p..p + n]);
    var r := Splice(s, p, c);
    ValSplice(s, p, c, 0);
    SpliceParts(s, p, c);
    r
  }

  /** rnorm with a negative length on values: the carry chain over the
      window [p, p+n) with the overflow out of its top limb dropped. */
  function TruncAt(s: seq<int>, p: nat, n: nat): (r: seq<int>)
    requires 0 < n && p + n <= |s|
    ensures |r| == |s| && Digits(r[p..p + n]) && Val(r[p..p + n]) == Val(s[p..p + n]) % Radix(n)
    ensures r[..p] == s[..p] && r[p + n..] == s[p + n..]
  {
    var c := Trunc(s[p..p + n]);
    SpliceParts(s, p, c);
    Splice(s, p, c)
  }

  /** A vector that agrees with w on the window and with s elsewhere is
      the splice. */
  lemma SpliceOf(s: seq<int>, r: seq<int>, p: nat, w: seq<int>)
    requires p + |w| <= |s| && |r| == |s|
    requires forall j | p <= j < p + |w| :: r[j] == w[j - p]
    requires forall j | 0 <= j < |s| && !(p <= j < p + |w|) :: r[j] == s[j]
    ensures r == Splice(s, p, w) && r[p..p + |w|] == w
  {
    var t := Splice(s, p, w);
    forall j | 0 <= j < |s|
      ensures r[j] == t[j]
    {
      if p <= j < p + |w| {
        assert r[j] == w[j - p];
      }
    }
  }

  /** The carry chain of rnorm on a window's values: each limb but the top
      one keeps its value modulo BASE and passes the quotient up; the top
      limb keeps any overflow. */
  function Carry(s: seq<int>): (r: seq<int>)
    requires |s| > 0
    ensures |r| == |s| && Normed(r) && Val(r) == Val(s)
    decreases |s|
  {
    if |s| == 1 then s
    else
      var c := s[0] / BASE;
      var rest := Carry([s[1] + c] + s[2..]);
      var r := [s[0] % BASE] + rest;
      assert r[1..] == rest && ([s[1] + c] + s[2..])[1..] == s[2..];
      CarryVal(s[0], s[1], Val(s[2..]), c);
      r
  }

  lemma CarryVal(s0: int, s1: int, v2: int, c: int)
    requires c == s0 / BASE
    ensures s0 % BASE + BASE * (s1 + c + BASE * v2) == s0 + BASE * (s1 + BASE * v2)
  {
    assert s0 == c * BASE + s0 % BASE;
  }

  /** rnorm with a negative length: the carry chain, then the overflow out
      of the top limb dropped. */
  function Trunc(s: seq<int>): (r: seq<int>)
    requires |s| > 0
    ensures |r| == |s| && Digits(r) && Val(r) == Val(s) % Radix(|s|)
  {
    var w := Carry(s);
    var k := |s| - 1;
    var c := w[k] / BASE;
    assert w[k := w[k] - c * BASE] == w[k := w[k] % BASE];
    ValTruncate(w, c);
    w[k := w[k] % BASE]
  }

  /** The window rnorm leaves: carried when n > 0, truncated when n < 0. */
  function RNormed(w: seq<int>, n: int): (r: seq<int>)
    requires |w| > 0
    ensures |r| == |w| && Normed(r)
    ensures n > 0 ==> Val(r) == Val(w)
    ensures n < 0 ==> Digits(r) && Val(r) == Val(w) % Radix(|w|)
  {
    if n < 0 then Trunc(w) else Carry(w)
  }

  /** Truncation is the carried window with the top limb's overflow dropped. */
  lemma TruncOfCarry(s: seq<int>, w: seq<int>, c: int)
    requires |s| > 0 && w == Carry(s) && c == w[|w| - 1] / BASE
    ensures w[|w| - 1 := w[|w| - 1] - c * BASE] == Trunc(s)
  {
    var k := |w| - 1;
    BaseFacts();
    DivModParts(w[k], BASE);
    var m := w[k] % BASE;
    assert w[k] - c * BASE == m;
    assert Trunc(s) == w[k := m];
    assert w[|w| - 1 := w[|w| - 1] - c * BASE] == w[k := m];
  }
}
