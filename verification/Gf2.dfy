/** Polynomials over GF(2) as sequences of coefficients, the highest first, and the shift register
    that divides by x^d + p(x), where `p` holds the d lower coefficients. */
module Gf2 {

  type Poly = seq<bool>

  function Zeros(n: nat): (r: Poly)
    ensures |r| == n
  {
    seq(n, _ => false)
  }

  predicate IsZero(a: Poly) {
    forall i :: 0 <= i < |a| ==> !a[i]
  }

  /** Sum, which is also difference. */
  function Xor(a: Poly, b: Poly): (r: Poly)
    requires |a| == |b|
    ensures |r| == |a|
  {
    seq(|a|, i requires 0 <= i < |a| => a[i] != b[i])
  }

  function Select(c: bool, p: Poly): (r: Poly)
    ensures |r| == |p|
  {
    if c then p else Zeros(|p|)
  }

  lemma ConcatInjective(a: Poly, b: Poly, c: Poly, d: Poly)
    requires |a| == |c| && a + b == c + d
    ensures a == c && b == d
  {
    assert a == (a + b)[..|a|] && c == (c + d)[..|a|];
    assert b == (a + b)[|a|..] && d == (c + d)[|a|..];
  }

  lemma XorConcat(a: Poly, b: Poly, c: Poly, d: Poly)
    requires |a| == |c| && |b| == |d|
    ensures Xor(a + b, c + d) == Xor(a, c) + Xor(b, d)
  {}

  // ----- the shift register -----

  /** Multiplication by x, reduced: the coefficient that leaves selects the polynomial. */
  function Step(p: Poly, c: Poly): (r: Poly)
    requires |p| == |c| > 0
    ensures |r| == |p|
  {
    Xor(c[1..] + [false], Select(c[0], p))
  }

  function Steps(p: Poly, c: Poly, n: nat): (r: Poly)
    requires |p| == |c| > 0
    ensures |r| == |p|
  {
    if n == 0 then c else Step(p, Steps(p, c, n - 1))
  }

  /** One message bit enters at the top. */
  function Feed(p: Poly, c: Poly, bit: bool): (r: Poly)
    requires |p| == |c| > 0
    ensures |r| == |p|
  {
    Step(p, [c[0] != bit] + c[1..])
  }

  /** Bit-at-a-time division: the register after the message bits `m`. */
  function Serial(p: Poly, c: Poly, m: Poly): (r: Poly)
    requires |p| == |c| > 0
    ensures |r| == |p|
  {
    if m == [] then c else Feed(p, Serial(p, c, m[..|m| - 1]), m[|m| - 1])
  }

  // ----- linearity -----

  lemma StepLinear(p: Poly, x: Poly, y: Poly)
    requires |p| == |x| == |y| > 0
    ensures Step(p, Xor(x, y)) == Xor(Step(p, x), Step(p, y))
  {}

  lemma {:induction false} StepsLinear(p: Poly, x: Poly, y: Poly, n: nat)
    requires |p| == |x| == |y| > 0
    ensures Steps(p, Xor(x, y), n) == Xor(Steps(p, x, n), Steps(p, y, n))
  {
    if n == 0 {
    } else {
      StepsLinear(p, x, y, n - 1);
      StepLinear(p, Steps(p, x, n - 1), Steps(p, y, n - 1));
    }
  }

  lemma FeedLinear(p: Poly, x: Poly, y: Poly, a: bool, b: bool)
    requires |p| == |x| == |y| > 0
    ensures Feed(p, Xor(x, y), a != b) == Xor(Feed(p, x, a), Feed(p, y, b))
  {
    var x', y' := [x[0] != a] + x[1..], [y[0] != b] + y[1..];
    assert [Xor(x, y)[0] != (a != b)] + Xor(x, y)[1..] == Xor(x', y');
    StepLinear(p, x', y');
  }

  /** The register is linear in its start value and the message together. */
  lemma {:induction false} SerialLinear(p: Poly, x: Poly, y: Poly, a: Poly, b: Poly)
    requires |p| == |x| == |y| > 0 && |a| == |b|
    ensures Serial(p, Xor(x, y), Xor(a, b)) == Xor(Serial(p, x, a), Serial(p, y, b))
  {
    if a == [] {
    } else {
      var n := |a| - 1;
      SerialLinear(p, x, y, a[..n], b[..n]);
      assert Xor(a, b)[..n] == Xor(a[..n], b[..n]);
      FeedLinear(p, Serial(p, x, a[..n]), Serial(p, y, b[..n]), a[n], b[n]);
    }
  }

  lemma {:induction false} SerialConcat(p: Poly, c: Poly, a: Poly, b: Poly)
    requires |p| == |c| > 0
    ensures Serial(p, c, a + b) == Serial(p, Serial(p, c, a), b)
  {
    if b == [] {
      assert a + b == a;
    } else {
      var n := |b| - 1;
      SerialConcat(p, c, a, b[..n]);
      assert (a + b)[..|a| + n] == a + b[..n];
      assert (a + b)[|a| + n] == b[n] && |a + b| == |a| + n + 1;
    }
  }

  lemma {:induction false} SerialZeros(p: Poly, c: Poly, n: nat)
    requires |p| == |c| > 0
    ensures Serial(p, c, Zeros(n)) == Steps(p, c, n)
  {
    if n == 0 {
    } else {
      SerialZeros(p, c, n - 1);
      assert Zeros(n)[..n - 1] == Zeros(n - 1);
      var s := Steps(p, c, n - 1);
      assert [s[0] != false] + s[1..] == s;
    }
  }

  // ----- a whole register of message bits at once -----

  /** Feeding the first `n` of d bits is adding all of them, stepping, and taking the rest off. */
  lemma {:induction false} SerialPrefix(p: Poly, c: Poly, w: Poly, n: nat)
    requires |p| == |c| == |w| > 0 && n <= |w|
    ensures Serial(p, c, w[..n]) == Xor(Steps(p, Xor(c, w), n), w[n..] + Zeros(n))
  {
    var x := Steps(p, Xor(c, w), n);
    if n == 0 {
      assert w[0..] + Zeros(0) == w;
      assert Xor(Xor(c, w), w) == c;
    } else {
      var k := n - 1;
      SerialPrefix(p, c, w, k);
      var before, rest := Steps(p, Xor(c, w), k), w[k..] + Zeros(k);
      assert w[..n][..k] == w[..k];
      var s := Xor(before, rest);
      var y := [false] + rest[1..];
      assert [s[0] != w[k]] + s[1..] == Xor(before, y);
      StepLinear(p, before, y);
      assert Step(p, y) == w[n..] + Zeros(n);
    }
  }

  lemma SerialBlock(p: Poly, c: Poly, w: Poly)
    requires |p| == |c| == |w| > 0
    ensures Serial(p, c, w) == Steps(p, Xor(c, w), |p|)
  {
    SerialPrefix(p, c, w, |p|);
    assert w[..|p|] == w;
    assert w[|p|..] + Zeros(|p|) == Zeros(|p|);
    XorZeros(Steps(p, Xor(c, w), |p|));
  }

  // ----- bursts -----

  /** With a non-zero constant term a step loses nothing. */
  lemma StepNonZero(p: Poly, c: Poly)
    requires |p| == |c| > 0 && p[|p| - 1]
    ensures IsZero(Step(p, c)) <==> IsZero(c)
  {
    var r, d := Step(p, c), |p|;
    assert r[d - 1] == c[0];
    if IsZero(r) {
      forall i | 0 <= i < d
        ensures !c[i]
      {
        if i > 0 {
          assert r[i - 1] == ((c[1..] + [false])[i - 1] != Select(c[0], p)[i - 1]);
        }
      }
    }
  }

  lemma {:induction false} StepsNonZero(p: Poly, c: Poly, n: nat)
    requires |p| == |c| > 0 && p[|p| - 1]
    ensures IsZero(Steps(p, c, n)) <==> IsZero(c)
  {
    if n == 0 {
    } else {
      StepsNonZero(p, c, n - 1);
      StepNonZero(p, Steps(p, c, n - 1));
    }
  }

  lemma ZeroIsZeros(c: Poly)
    ensures IsZero(c) <==> c == Zeros(|c|)
  {}

  /** Only a zero register stays zero while zeros follow. */
  lemma ZerosFollow(p: Poly, c: Poly, n: nat)
    requires |p| == |c| > 0 && p[|p| - 1]
    ensures IsZero(Serial(p, c, Zeros(n))) <==> IsZero(c)
  {
    SerialZeros(p, c, n);
    StepsNonZero(p, c, n);
  }

  lemma XorOfEquals(x: Poly, y: Poly)
    requires |x| == |y|
    ensures x == y ==> IsZero(Xor(x, y))
  {}

  lemma XorZeros(w: Poly)
    ensures Xor(Zeros(|w|), w) == w && Xor(w, Zeros(|w|)) == w
  {}

  /** A full register of message bits, not all zero, leaves a zero register non-zero. */
  lemma BlockShows(p: Poly, w: Poly)
    requires |p| == |w| > 0 && p[|p| - 1] && !IsZero(w)
    ensures !IsZero(Serial(p, Zeros(|p|), w))
  {
    SerialBlock(p, Zeros(|p|), w);
    XorZeros(w);
    StepsNonZero(p, w, |p|);
  }

  /** So does a burst of fewer bits. */
  lemma BurstShows(p: Poly, w: Poly)
    requires |p| > 0 && p[|p| - 1] && |w| <= |p| && !IsZero(w)
    ensures !IsZero(Serial(p, Zeros(|p|), w))
  {
    var k := |p| - |w|;
    var full := w + Zeros(k);
    assert !IsZero(full) by {
      var i :| 0 <= i < |w| && w[i];
      assert full[i];
    }
    BlockShows(p, full);
    SerialConcat(p, Zeros(|p|), w, Zeros(k));
    ZerosFollow(p, Serial(p, Zeros(|p|), w), k);
  }

  /** A zero register does not notice leading zeros. */
  lemma LeadingZeros(p: Poly, n: nat, m: Poly)
    requires |p| > 0 && p[|p| - 1]
    ensures Serial(p, Zeros(|p|), Zeros(n) + m) == Serial(p, Zeros(|p|), m)
  {
    var zero := Zeros(|p|);
    SerialConcat(p, zero, Zeros(n), m);
    ZerosFollow(p, zero, n);
    ZeroIsZeros(Serial(p, zero, Zeros(n)));
  }

  /** And a burst with zeros before and behind it. */
  lemma BurstAmongZeros(p: Poly, before: nat, w: Poly, behind: nat)
    requires |p| > 0 && p[|p| - 1] && |w| <= |p| && !IsZero(w)
    ensures !IsZero(Serial(p, Zeros(|p|), Zeros(before) + w + Zeros(behind)))
  {
    SerialConcat(p, Zeros(|p|), Zeros(before) + w, Zeros(behind));
    LeadingZeros(p, before, w);
    BurstShows(p, w);
    ZerosFollow(p, Serial(p, Zeros(|p|), w), behind);
  }

  /** All differences between `a` and `b` lie in the `d` bits from position `s`. */
  ghost predicate DifferWithin(a: Poly, b: Poly, s: nat, d: nat)
    requires |a| == |b|
  {
    forall i :: 0 <= i < |a| && a[i] != b[i] ==> s <= i < s + d
  }

  lemma DifferenceIsBurst(a: Poly, b: Poly, s: nat, d: nat) returns (w: Poly, behind: nat)
    requires |a| == |b| && a != b && DifferWithin(a, b, s, d)
    ensures |w| <= d && !IsZero(w)
    ensures Xor(a, b) == Zeros(s) + w + Zeros(behind)
  {
    var i :| 0 <= i < |a| && a[i] != b[i];
    var e := if s + d <= |a| then s + d else |a|;
    w, behind := Xor(a, b)[s..e], |a| - e;
    assert w[i - s];
  }

  /** Two messages that differ in one burst of at most d bits leave different registers. */
  lemma BurstDetected(p: Poly, c: Poly, a: Poly, b: Poly, s: nat)
    requires |p| == |c| > 0 && p[|p| - 1] && |a| == |b| && a != b
    requires DifferWithin(a, b, s, |p|)
    ensures Serial(p, c, a) != Serial(p, c, b)
  {
    var w, behind := DifferenceIsBurst(a, b, s, |p|);
    BurstAmongZeros(p, s, w, behind);
    SerialLinear(p, c, c, a, b);
    assert Xor(c, c) == Zeros(|p|);
    XorOfEquals(Serial(p, c, a), Serial(p, c, b));
  }

  // ----- division -----

  /** The product of `q` and x^d + p, by shifting and adding. */
  function TimesDivisor(p: Poly, q: Poly): (r: Poly)
    ensures |r| == |q| + |p|
  {
    if q == [] then Zeros(|p|) else
      var n := |q| - 1;
      Xor(TimesDivisor(p, q[..n]) + [false], Zeros(n) + Select(q[n], [true] + p))
  }

  /** The message times x^d, with the start value added to its first d coefficients. */
  function Dividend(c: Poly, m: Poly): (r: Poly)
    ensures |r| == |m| + |c|
  {
    Xor(m + Zeros(|c|), c + Zeros(|m|))
  }

  /** `q` and `r` are quotient and remainder of the dividend by x^d + p. */
  ghost predicate IsDivision(p: Poly, c: Poly, m: Poly, q: Poly, r: Poly) {
    && |c| == |p| && |q| == |m| && |r| == |p|
    && Dividend(c, m) == Xor(TimesDivisor(p, q), Zeros(|m|) + r)
  }

  /** The bits that left the register and selected the divisor. */
  function Quotient(p: Poly, c: Poly, m: Poly): (q: Poly)
    requires |p| == |c| > 0
    ensures |q| == |m|
  {
    if m == [] then [] else
      var n := |m| - 1;
      Quotient(p, c, m[..n]) + [Serial(p, c, m[..n])[0] != m[n]]
  }

  /** One more message bit, seen from the dividend. */
  lemma DividendSnoc(c: Poly, m: Poly, b: bool)
    requires |c| > 0
    ensures Dividend(c, m + [b]) == Xor(Dividend(c, m) + [false], Zeros(|m|) + [b] + Zeros(|c|))
  {}

  /** One more message bit, seen from the register. */
  lemma FeedIsReduction(p: Poly, r: Poly, b: bool)
    requires |p| == |r| > 0
    ensures var q := r[0] != b;
            Xor(r + [false], [b] + Zeros(|p|)) == Xor(Select(q, [true] + p), [false] + Feed(p, r, b))
  {}

  /** Feeding one bit extends a division by one coefficient. */
  lemma DivisionExtends(p: Poly, c: Poly, m: Poly, q: Poly, r: Poly, b: bool)
    requires |p| > 0 && IsDivision(p, c, m, q, r)
    ensures IsDivision(p, c, m + [b], q + [r[0] != b], Feed(p, r, b))
  {
    var n, f := |m|, r[0] != b;
    var t := TimesDivisor(p, q);
    DividendSnoc(c, m, b);
    FeedIsReduction(p, r, b);
    DivisionStep(t, Zeros(n), r, b, Select(f, [true] + p), Feed(p, r, b));
    assert (q + [f])[..n] == q;
    assert TimesDivisor(p, q + [f]) == Xor(t + [false], Zeros(n) + Select(f, [true] + p));
    assert Zeros(n) + [false] == Zeros(n + 1);
  }

  /** The register holds the remainder. */
  lemma {:induction false} SerialDivides(p: Poly, c: Poly, m: Poly)
    requires |p| == |c| > 0
    ensures IsDivision(p, c, m, Quotient(p, c, m), Serial(p, c, m))
  {
    if m == [] {
      assert Dividend(c, []) == c;
      XorZeros(c);
    } else {
      var m', b := m[..|m| - 1], m[|m| - 1];
      SerialDivides(p, c, m');
      DivisionExtends(p, c, m', Quotient(p, c, m'), Serial(p, c, m'), b);
      assert m' + [b] == m;
    }
  }

  lemma DivisionStep(t: Poly, z: Poly, r: Poly, b: bool, sel: Poly, f: Poly)
    requires |t| == |z| + |r| && |sel| == |r| + 1 == |f| + 1
    requires Xor(r + [false], [b] + Zeros(|r|)) == Xor(sel, [false] + f)
    ensures Xor(Xor(t, z + r) + [false], z + [b] + Zeros(|r|)) == Xor(Xor(t + [false], z + sel), z + [false] + f)
  {
    var n := |z|;
    var x, y := Xor(r + [false], [b] + Zeros(|r|)), Xor(sel, [false] + f);
    var lhs, rhs := Xor(Xor(t, z + r) + [false], z + [b] + Zeros(|r|)), Xor(Xor(t + [false], z + sel), z + [false] + f);
    forall i | 0 <= i < |lhs|
      ensures lhs[i] == rhs[i]
    {
      if i >= n {
        assert x[i - n] == y[i - n];
      }
    }
  }

  // ----- the remainder is unique -----

  /** The leading coefficients of a multiple of the divisor determine the factor. */
  lemma {:induction false} FactorUnique(p: Poly, a: Poly, b: Poly)
    requires |a| == |b|
    requires TimesDivisor(p, a)[..|a|] == TimesDivisor(p, b)[..|b|]
    ensures a == b
  {
    hide TimesDivisor;
    if a == [] {
    } else {
      var n := |a| - 1;
      LeadingPart(p, a);
      LeadingPart(p, b);
      var ta, tb := TimesDivisor(p, a), TimesDivisor(p, b);
      assert ta[..n] == ta[..n + 1][..n] && tb[..n] == tb[..n + 1][..n];
      FactorUnique(p, a[..n], b[..n]);
      assert ta[..n + 1][n] == tb[..n + 1][n];
      assert a == a[..n] + [a[n]] && b == b[..n] + [b[n]];
    }
  }

  lemma LeadingPart(p: Poly, q: Poly)
    requires q != []
    ensures var n := |q| - 1;
            && TimesDivisor(p, q)[..n] == TimesDivisor(p, q[..n])[..n]
            && TimesDivisor(p, q)[n] == ((TimesDivisor(p, q[..n]) + [false])[n] != q[n])
  {}

  /** Whatever divides with remainder has the register's quotient and remainder. */
  lemma DivisionUnique(p: Poly, c: Poly, m: Poly, q: Poly, r: Poly)
    requires |p| > 0 && IsDivision(p, c, m, q, r)
    ensures q == Quotient(p, c, m) && r == Serial(p, c, m)
  {
    SerialDivides(p, c, m);
    var n, q', r' := |m|, Quotient(p, c, m), Serial(p, c, m);
    SameParts(TimesDivisor(p, q), Zeros(n) + r, TimesDivisor(p, q'), Zeros(n) + r', n);
    FactorUnique(p, q, q');
    assert Xor(TimesDivisor(p, q), Zeros(n) + r) == Xor(TimesDivisor(p, q), Zeros(n) + r');
    SameRest(TimesDivisor(p, q), Zeros(n) + r, Zeros(n) + r');
    assert r == (Zeros(n) + r)[n..] && r' == (Zeros(n) + r')[n..];
  }

  lemma SameParts(t: Poly, x: Poly, t': Poly, x': Poly, n: nat)
    requires |t| == |x| == |t'| == |x'| && n <= |t|
    requires Xor(t, x) == Xor(t', x') && x[..n] == x'[..n]
    ensures t[..n] == t'[..n]
  {
    forall i | 0 <= i < n
      ensures t[..n][i] == t'[..n][i]
    {
      assert Xor(t, x)[i] == Xor(t', x')[i] && x[..n][i] == x'[..n][i];
    }
  }

  lemma SameRest(t: Poly, x: Poly, y: Poly)
    requires |t| == |x| == |y| && Xor(t, x) == Xor(t, y)
    ensures x == y
  {
    forall i | 0 <= i < |x|
      ensures x[i] == y[i]
    {
      assert Xor(t, x)[i] == Xor(t, y)[i];
    }
  }
}
