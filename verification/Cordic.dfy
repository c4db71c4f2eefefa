/** The CORDIC rotation of compat-wireless/compat/cordic.c: how close the accumulated angle comes to
    the requested one, and how close the integer vector stays to the exact rotation. */
module Cordic {
  import opened Words

  const CORDIC_ANGLE_GEN := 39797
  const CORDIC_NUM_ITER := 18
  const FIXED_ONE := 65536

  const ARCTAN_TABLE: seq<int> := [
    2949120, 1740967, 919879, 466945, 234379, 117304, 58666, 29335, 14668,
    7334, 3667, 1833, 917, 458, 229, 115, 57, 29]

  // ----- the angle -----

  function Sum(t: seq<int>): int {
    if t == [] then 0 else t[0] + Sum(t[1..])
  }

  /** How far angles may lie from the target when the entries `t` are left. */
  function Reach(t: seq<int>, last: int): int {
    Sum(t) + last
  }

  /** Each entry is at most what the later ones can make up for. */
  predicate Converging(t: seq<int>, last: int) {
    t == [] || (0 <= t[0] <= Reach(t[1..], last) && Converging(t[1..], last))
  }

  /** The angle after `k` rotations towards `theta`. */
  function AngleAfter(t: seq<int>, theta: int, k: nat): int
    requires k <= |t|
  {
    if k == 0 then 0 else
      var a := AngleAfter(t, theta, k - 1);
      if theta > a then a + t[k - 1] else a - t[k - 1]
  }

  lemma {:induction false} ConvergingFrom(t: seq<int>, last: int, k: nat)
    requires Converging(t, last) && k < |t|
    ensures 0 <= t[k] <= Reach(t[k + 1..], last)
    ensures Reach(t[k..], last) == t[k] + Reach(t[k + 1..], last)
  {
    if k > 0 {
      ConvergingFrom(t[1..], last, k - 1);
      assert t[1..][k..] == t[k + 1..] && t[1..][k - 1..] == t[k..];
    } else {
      assert t[0..] == t;
    }
  }

  /** For any converging table and any angle within its reach, the distance after `k` rotations is
      within the reach of what is left of the table. */
  lemma {:induction false} StaysWithinReach(t: seq<int>, last: int, theta: int, k: nat)
    requires Converging(t, last) && k <= |t| && -Reach(t, last) <= theta <= Reach(t, last)
    ensures -Reach(t[k..], last) <= theta - AngleAfter(t, theta, k) <= Reach(t[k..], last)
  {
    if k == 0 {
      assert t[0..] == t;
    } else {
      StaysWithinReach(t, last, theta, k - 1);
      ConvergingFrom(t, last, k - 1);
    }
  }

  /** So the final error is at most the smallest entry. */
  lemma Converges(t: seq<int>, theta: int)
    requires t != [] && Converging(t, t[|t| - 1]) && -Reach(t, t[|t| - 1]) <= theta <= Reach(t, t[|t| - 1])
    ensures -t[|t| - 1] <= theta - AngleAfter(t, theta, |t|) <= t[|t| - 1]
  {
    StaysWithinReach(t, t[|t| - 1], theta, |t|);
    assert t[|t|..] == [];
  }

  /** Sums of the last entries of the table. */
  const TAIL_SUMS: seq<int> := [
    6545902, 3596782, 1855815, 935936, 468991, 234612, 117308, 58642, 29307,
    14639, 7305, 3638, 1805, 888, 430, 201, 86, 29, 0]

  lemma EntryFits(k: nat)
    requires k < CORDIC_NUM_ITER
    ensures TAIL_SUMS[k] == ARCTAN_TABLE[k] + TAIL_SUMS[k + 1] && 0 <= ARCTAN_TABLE[k] <= TAIL_SUMS[k + 1] + 29
  {}

  lemma ConvergingCons(t: seq<int>, last: int, k: nat)
    requires k < |t| && Converging(t[k + 1..], last) && 0 <= t[k] <= Sum(t[k + 1..]) + last
    ensures Converging(t[k..], last) && Sum(t[k..]) == t[k] + Sum(t[k + 1..])
  {}

  lemma {:induction false} TableFrom(t: seq<int>, sums: seq<int>, k: nat)
    requires |t| == CORDIC_NUM_ITER == |sums| - 1 && k <= |t| && sums[|t|] == 0
    requires forall i :: 0 <= i < |t| ==> sums[i] == t[i] + sums[i + 1] && 0 <= t[i] <= sums[i + 1] + 29
    ensures Sum(t[k..]) == sums[k] && Converging(t[k..], 29)
    decreases |t| - k
  {
    if k == |t| {
    } else {
      TableFrom(t, sums, k + 1);
      ConvergingCons(t, 29, k);
    }
  }

  /** This table converges, and reaches 90 degrees. */
  lemma TableConverges()
    ensures Converging(ARCTAN_TABLE, 29) && Reach(ARCTAN_TABLE, 29) >= 90 * FIXED_ONE
  {
    forall i | 0 <= i < CORDIC_NUM_ITER
      ensures TAIL_SUMS[i] == ARCTAN_TABLE[i] + TAIL_SUMS[i + 1] && 0 <= ARCTAN_TABLE[i] <= TAIL_SUMS[i + 1] + 29
    {
      EntryFits(i);
    }
    TableFrom(ARCTAN_TABLE, TAIL_SUMS, 0);
    assert ARCTAN_TABLE[0..] == ARCTAN_TABLE;
  }

  // ----- the table is the arctangent -----

  function Power(x: real, n: nat): real {
    if n == 0 then 1.0 else x * Power(x, n - 1)
  }

  /** The size of term `i` of the power series of the arctangent. */
  function Term(x: real, i: nat): real {
    Power(x, 2 * i + 1) / (2 * i + 1) as real
  }

  /** The first `n` terms of the series, with their alternating signs. */
  function Series(x: real, n: nat): real {
    if n == 0 then 0.0 else if n % 2 == 1 then Series(x, n - 1) + Term(x, n - 1) else Series(x, n - 1) - Term(x, n - 1)
  }

  lemma {:induction false} PowerSmall(x: real, n: nat)
    requires 0.0 <= x <= 1.0
    ensures 0.0 <= Power(x, n + 1) <= Power(x, n)
  {
    if n == 0 {
    } else {
      PowerSmall(x, n - 1);
      var p, q := Power(x, n), Power(x, n - 1);
      assert 0.0 <= x * p <= x * q;
    }
  }

  lemma TermsShrink(x: real, i: nat)
    requires 0.0 <= x <= 1.0
    ensures 0.0 <= Term(x, i + 1) <= Term(x, i)
  {
    PowerSmall(x, 2 * i + 1);
    PowerSmall(x, 2 * i + 2);
    Quotients(Power(x, 2 * i + 1), Power(x, 2 * i + 3), (2 * i + 1) as real, (2 * i + 3) as real);
  }

  lemma Quotients(a: real, b: real, m: real, n: real)
    requires 0.0 <= b <= a && 0.0 < m <= n
    ensures 0.0 <= b / n <= a / m
  {
    var u, v := a / m, b / n;
    assert u * m == a && v * n == b;
    if v > u {
      assert v * n >= v * m > u * m;
    }
  }

  /** An even and the next odd number of terms enclose every longer sum, and so the arctangent, which is
      their limit. */
  lemma {:induction false} SeriesEncloses(x: real, m: nat, n: nat)
    requires 0.0 <= x <= 1.0 && 2 * m <= n
    ensures Series(x, 2 * m) <= Series(x, n) <= Series(x, 2 * m + 1)
    ensures n % 2 == 0 ==> Series(x, n) + Term(x, n) <= Series(x, 2 * m + 1)
    ensures n % 2 == 1 ==> Series(x, n) - Term(x, n) >= Series(x, 2 * m)
  {
    hide Term;
    TermsShrink(x, n);
    if n == 2 * m {
    } else {
      SeriesEncloses(x, m, n - 1);
      TermsShrink(x, n - 1);
    }
  }

  const PI_LOW := 3.14159265
  const PI_HIGH := 3.14159266

  /** Machin's formula for a quarter of pi, four arctan 1/5 minus arctan 1/239, lies between the bounds. */
  lemma PiBounds()
    ensures PI_LOW < 16.0 * Series(0.2, 6) - 4.0 * Series(1.0 / 239.0, 3)
    ensures 16.0 * Series(0.2, 7) - 4.0 * Series(1.0 / 239.0, 2) < PI_HIGH
  {}

  /** `entry` is the nearest integer to the arctangent of `x` in units of 1/65536 degree, of which pi has
      180 times 65536; shown by an even and an odd sum. */
  predicate Rounds(entry: int, x: real, m: nat) {
    && (entry as real - 0.5) * PI_HIGH < 11_796_480.0 * Series(x, 2 * m)
    && 11_796_480.0 * Series(x, 2 * m + 1) < (entry as real + 0.5) * PI_LOW
  }

  /** How many pairs of terms it takes. */
  const TERMS: seq<nat> := [0, 5, 3, 2, 2, 1, 1, 1, 1, 1, 1, 1, 1, 1, 1, 1, 1, 1]

  lemma HalfIsQuotient(k: nat)
    ensures Half(k) == 1.0 / Pow2(k) as real
  {
    HalfIs(k);
    var h, p := Half(k), Pow2(k) as real;
    assert h == h * p / p;
  }

  /** Every entry of the table is the arctangent of 2^-k, rounded to the nearest. */
  lemma TableRounds(k: nat)
    requires 1 <= k < CORDIC_NUM_ITER
    ensures ARCTAN_TABLE[0] == 45 * FIXED_ONE && Rounds(ARCTAN_TABLE[k], Half(k), TERMS[k])
  {
    hide Rounds;
    HalfIsQuotient(k);
    EntryRounds(k);
  }

  lemma EntryRounds(k: nat)
    requires 1 <= k < CORDIC_NUM_ITER
    ensures Rounds(ARCTAN_TABLE[k], 1.0 / Pow2(k) as real, TERMS[k])
  {
    hide Rounds;
    Powers();
    Entry1();
    Entries2To4();
    Entries5To11();
    Entries12To17();
  }

  lemma Powers()
    ensures Pow2(1) == 2
    ensures Pow2(2) == 4
    ensures Pow2(3) == 8
    ensures Pow2(4) == 16
    ensures Pow2(5) == 32
    ensures Pow2(6) == 64
    ensures Pow2(7) == 128
    ensures Pow2(8) == 256
    ensures Pow2(9) == 512
    ensures Pow2(10) == 1024
    ensures Pow2(11) == 2048
    ensures Pow2(12) == 4096
    ensures Pow2(13) == 8192
    ensures Pow2(14) == 16384
    ensures Pow2(15) == 32768
    ensures Pow2(16) == 65536
    ensures Pow2(17) == 131072
  {}

  lemma Entry1()
    ensures Rounds(1740967, 1.0 / 2.0, 5)
  {
    HalfPowers();
    SeriesOfHalf();
  }

  lemma HalfPowers()
    ensures Power(0.5, 1) == 1.0 / 2.0
    ensures Power(0.5, 3) == 1.0 / 8.0
    ensures Power(0.5, 5) == 1.0 / 32.0
    ensures Power(0.5, 7) == 1.0 / 128.0
    ensures Power(0.5, 9) == 1.0 / 512.0
    ensures Power(0.5, 11) == 1.0 / 2048.0
    ensures Power(0.5, 13) == 1.0 / 8192.0
    ensures Power(0.5, 15) == 1.0 / 32768.0
    ensures Power(0.5, 17) == 1.0 / 131072.0
    ensures Power(0.5, 19) == 1.0 / 524288.0
    ensures Power(0.5, 21) == 1.0 / 2097152.0
  {}

  lemma SeriesOfHalf()
    ensures 0.463647590505 <= Series(0.5, 10) && Series(0.5, 11) <= 0.463647613220
  {
    hide Power;
    HalfPowers();
    assert 0.500000000000 <= Series(0.5, 1) <= 0.500000000000;
    assert 0.458333333333 <= Series(0.5, 2) <= 0.458333333334;
    assert 0.464583333333 <= Series(0.5, 3) <= 0.464583333334;
    assert 0.463467261904 <= Series(0.5, 4) <= 0.463467261906;
    assert 0.463684275792 <= Series(0.5, 5) <= 0.463684275795;
    assert 0.463639886587 <= Series(0.5, 6) <= 0.463639886591;
    assert 0.463649276611 <= Series(0.5, 7) <= 0.463649276616;
    assert 0.463647242105 <= Series(0.5, 8) <= 0.463647242111;
    assert 0.463647690892 <= Series(0.5, 9) <= 0.463647690899;
    assert 0.463647590505 <= Series(0.5, 10) <= 0.463647590513;
    assert 0.463647613211 <= Series(0.5, 11) <= 0.463647613220;
  }

  lemma Entries2To4()
    ensures Rounds(919879, 1.0 / 4.0, 3)
    ensures Rounds(466945, 1.0 / 8.0, 2)
    ensures Rounds(234379, 1.0 / 16.0, 2)
  {}

  lemma Entries5To11()
    ensures Rounds(117304, 1.0 / 32.0, 1)
    ensures Rounds(58666, 1.0 / 64.0, 1)
    ensures Rounds(29335, 1.0 / 128.0, 1)
    ensures Rounds(14668, 1.0 / 256.0, 1)
    ensures Rounds(7334, 1.0 / 512.0, 1)
    ensures Rounds(3667, 1.0 / 1024.0, 1)
    ensures Rounds(1833, 1.0 / 2048.0, 1)
  {}

  lemma Entries12To17()
    ensures Rounds(917, 1.0 / 4096.0, 1)
    ensures Rounds(458, 1.0 / 8192.0, 1)
    ensures Rounds(229, 1.0 / 16384.0, 1)
    ensures Rounds(115, 1.0 / 32768.0, 1)
    ensures Rounds(57, 1.0 / 65536.0, 1)
    ensures Rounds(29, 1.0 / 131072.0, 1)
  {}

  // ----- the exact rotation -----

  datatype Vec = Vec(x: real, y: real)

  /** Two to the minus `k`. */
  function Half(k: nat): (h: real)
    ensures 0.0 < h <= 1.0
  {
    if k == 0 then 1.0 else Half(k - 1) / 2.0
  }

  function Times(a: real, b: real): real {
    a * b
  }

  /** One rotation: multiplication by 1 + h j or 1 - h j in the complex plane. */
  function Turn(v: Vec, h: real, forward: bool): Vec {
    if forward then Vec(v.x - Times(v.y, h), v.y + Times(v.x, h)) else Vec(v.x + Times(v.y, h), v.y - Times(v.x, h))
  }

  /** The start vector after `k` exact rotations in the directions that the angles take. */
  function TurnedAfter(t: seq<int>, theta: int, k: nat): Vec
    requires k <= |t|
  {
    if k == 0 then Vec(CORDIC_ANGLE_GEN as real, 0.0)
    else Turn(TurnedAfter(t, theta, k - 1), Half(k - 1), theta > AngleAfter(t, theta, k - 1))
  }

  function Norm2(v: Vec): real {
    v.x * v.x + v.y * v.y
  }

  /** The product of the factors by which the rotations stretch. */
  function Gain(k: nat): real {
    if k == 0 then 1.0 else Gain(k - 1) * (1.0 + Half(k - 1) * Half(k - 1))
  }

  lemma NormTurn(v: Vec, h: real, forward: bool)
    ensures Norm2(Turn(v, h, forward)) == Norm2(v) * (1.0 + h * h)
  {}

  lemma NormStart()
    ensures Norm2(Vec(CORDIC_ANGLE_GEN as real, 0.0)) == START_NORM
  {}

  lemma Associate(a: real, b: real, c: real)
    ensures a * b * c == a * (b * c)
  {}

  const START_NORM: real := (CORDIC_ANGLE_GEN * CORDIC_ANGLE_GEN) as real

  /** Whatever the directions, `k` rotations stretch by the same factor. */
  lemma {:induction false} NormAfter(t: seq<int>, theta: int, k: nat)
    requires k <= |t|
    ensures Norm2(TurnedAfter(t, theta, k)) == START_NORM * Gain(k)
  {
    hide Norm2, Turn, Half;
    if k == 0 {
      NormStart();
    } else {
      NormAfter(t, theta, k - 1);
      NormTurn(TurnedAfter(t, theta, k - 1), Half(k - 1), theta > AngleAfter(t, theta, k - 1));
      Associate(START_NORM, Gain(k - 1), 1.0 + Half(k - 1) * Half(k - 1));
    }
  }

  // ----- how much that is -----

  const SCALE := 10_000_000

  function Pow4(k: nat): (p: nat)
    ensures p > 0
  {
    if k == 0 then 1 else 4 * Pow4(k - 1)
  }

  lemma {:induction false} QuarterIs(k: nat)
    ensures Half(k) * Half(k) * Pow4(k) as real == 1.0
  {
    if k == 0 {
    } else {
      QuarterIs(k - 1);
      var h, p := Half(k - 1), Pow4(k - 1) as real;
      assert (h / 2.0) * (h / 2.0) == (h * h) / 4.0;
      assert Pow4(k) as real == 4.0 * p;
      assert (h * h) / 4.0 * (4.0 * p) == h * h * p;
    }
  }

  /** `lo` and `hi` bound the gain of `k` rotations in fixed point. */
  ghost predicate GainBetween(k: nat, p: nat, lo: int, hi: int) {
    && p == Pow4(k) && 0 <= lo
    && lo as real <= SCALE as real * Gain(k) <= hi as real
  }

  /** With `q` the inverse of `p`: `d` is at most `n * q` exactly when `d * p` is at most `n`. */
  lemma Divided(d: int, p: nat, n: int, q: real)
    requires p > 0 && q * p as real == 1.0
    ensures d * p <= n ==> d as real <= n as real * q
    ensures d * p >= n ==> d as real >= n as real * q
  {}

  lemma Grown(g: real, q: real, p: nat, lo: int, hi: int, lo2: int, hi2: int)
    requires p > 0 && q * p as real == 1.0 && 0 <= lo && lo as real <= g <= hi as real
    requires (lo2 - lo) * p <= lo && (hi2 - hi) * p >= hi
    ensures lo2 as real <= g * (1.0 + q) <= hi2 as real
  {}

  lemma GainGrows(k: nat)
    ensures SCALE as real * Gain(k + 1) == SCALE as real * Gain(k) * (1.0 + Half(k) * Half(k))
  {}

  lemma GainNext(k: nat, p: nat, lo: int, hi: int, lo2: int, hi2: int)
    requires GainBetween(k, p, lo, hi)
    requires lo <= lo2 && (lo2 - lo) * p <= lo && (hi2 - hi) * p >= hi
    ensures GainBetween(k + 1, 4 * p, lo2, hi2)
  {
    hide Half, Gain;
    QuarterIs(k);
    Grown(SCALE as real * Gain(k), Half(k) * Half(k), p, lo, hi, lo2, hi2);
    GainGrows(k);
  }

  lemma GainOfNine()
    ensures GainBetween(9, 262144, 27118054, 27118060)
  {}

  lemma GainOfAll()
    ensures GainBetween(18, 68719476736, 27118189, 27118204)
  {
    hide Half, Pow4, Gain;
    GainOfNine();
    GainNext(9, 262144, 27118054, 27118060, 27118157, 27118164);
    GainNext(10, 1048576, 27118157, 27118164, 27118182, 27118190);
    GainNext(11, 4194304, 27118182, 27118190, 27118188, 27118197);
    GainNext(12, 16777216, 27118188, 27118197, 27118189, 27118199);
    GainNext(13, 67108864, 27118189, 27118199, 27118189, 27118200);
    GainNext(14, 268435456, 27118189, 27118200, 27118189, 27118201);
    GainNext(15, 1073741824, 27118189, 27118201, 27118189, 27118202);
    GainNext(16, 4294967296, 27118189, 27118202, 27118189, 27118203);
    GainNext(17, 17179869184, 27118189, 27118203, 27118189, 27118204);
  }

  /** The exact vector always ends between radius 65536 and radius 65537. */
  lemma RadiusOfAll(theta: int)
    ensures 65536.0 * 65536.0 < Norm2(TurnedAfter(ARCTAN_TABLE, theta, 18)) < 65537.0 * 65537.0
  {
    hide Norm2, TurnedAfter, Gain, Pow4;
    NormAfter(ARCTAN_TABLE, theta, 18);
    GainOfAll();
  }

  // ----- the integer rotation -----

  /** The vector of the program stays near the exact one: `2k - 1` after `k` rotations. */
  function Slack(k: nat): int {
    if k == 0 then 0 else 2 * k - 1
  }

  ghost predicate Near(i: int, x: real, e: int) {
    -(e as real) <= i as real - x <= e as real
  }

  lemma {:induction false} SlackHalf(k: nat)
    ensures Times(Slack(k) as real, Half(k)) <= 1.0
  {
    if k <= 1 {
    } else {
      SlackHalf(k - 1);
      var s, h := Slack(k - 1) as real, Half(k - 1);
      assert Slack(k) as real == s + 2.0;
      assert h <= 0.5 by { assert Half(k - 1) == Half(k - 2) / 2.0; }
      assert (s + 2.0) * (h / 2.0) == (s * h) / 2.0 + h;
    }
  }

  lemma {:induction false} HalfIs(k: nat)
    ensures Half(k) * Pow2(k) as real == 1.0
  {
    if k == 0 {
    } else {
      HalfIs(k - 1);
      var h, p := Half(k - 1), Pow2(k - 1) as real;
      assert Pow2(k) as real == 2.0 * p;
      assert (h / 2.0) * (2.0 * p) == h * p;
    }
  }

  /** An arithmetic shift right is within one below the exact quotient. */
  lemma ShiftNear(q: int, k: nat)
    ensures Times(q as real, Half(k)) - 1.0 <= (q / Pow2(k)) as real <= Times(q as real, Half(k))
  {
    HalfIs(k);
    var p, h, d := Pow2(k), Half(k), q / Pow2(k);
    DivMod(q, p);
    assert d * p <= q < (d + 1) * p by { assert (d + 1) * p == d * p + p; }
    Divided(d, p, q, h);
    Divided(d + 1, p, q, h);
  }

  lemma ScaledNear(q: int, y: real, e: int, h: real)
    requires Near(q, y, e) && 0.0 <= h
    ensures -Times(e as real, h) <= Times(q as real, h) - Times(y, h) <= Times(e as real, h)
  {}

  /** The part that one rotation adds is off by at most two. */
  lemma ShiftedNear(q: int, y: real, k: nat)
    requires Near(q, y, Slack(k))
    ensures -2.0 <= (q / Pow2(k)) as real - Times(y, Half(k)) <= 1.0
  {
    hide Half, Slack, Near, Pow2, Times;
    var h := Half(k);
    ShiftNear(q, k);
    ScaledNear(q, y, Slack(k), h);
    SlackHalf(k);
  }

  lemma ExactFirst(q: int, y: real)
    requires Near(q, y, 0)
    ensures (q / Pow2(0)) as real == y * Half(0)
  {}

  lemma SlackGrows(i: int, x: real, k: nat, s: int, y: real)
    requires Near(i, x, Slack(k)) && -2.0 <= s as real - y <= 2.0 && (k == 0 ==> s as real == y)
    ensures Near(i - s, x - y, Slack(k + 1)) && Near(i + s, x + y, Slack(k + 1))
  {}

  /** One rotation in integers next to the exact one. */
  lemma RotationNear(i: int, q: int, v: Vec, k: nat)
    requires Near(i, v.x, Slack(k)) && Near(q, v.y, Slack(k))
    ensures var f := Turn(v, Half(k), true);
            Near(i - q / Pow2(k), f.x, Slack(k + 1)) && Near(q + i / Pow2(k), f.y, Slack(k + 1))
    ensures var b := Turn(v, Half(k), false);
            Near(i + q / Pow2(k), b.x, Slack(k + 1)) && Near(q - i / Pow2(k), b.y, Slack(k + 1))
  {
    if k == 0 {
      ExactFirst(q, v.y);
      ExactFirst(i, v.x);
    }
    hide Times, Half, Pow2, Slack, Near;
    ShiftedNear(q, v.y, k);
    ShiftedNear(i, v.x, k);
    SlackGrows(i, v.x, k, q / Pow2(k), Times(v.y, Half(k)));
    SlackGrows(q, v.y, k, i / Pow2(k), Times(v.x, Half(k)));
  }

  // ----- the program -----

  /** Rounded to whole degrees, halves away from zero. */
  function Degrees(x: int): int {
    if x >= 0 then (x / 32768 + 1) / 2 else -((-x / 32768 + 1) / 2)
  }

  /** `d` is the angle, up to whole turns and, if the sign is negative, half a turn; it lies in the
      right half plane. */
  predicate IsReduced(theta: int, d: int, sign: int) {
    && -90 <= d <= 90
    && ((sign == 1 && (theta - d) % 360 == 0) || (sign == -1 && (theta - d - 180) % 360 == 0))
  }

  /** The first half of `cordic_calc_iq`, for the angles whose fixed-point form and its shift by half
      a turn fit in 32 bits. */
  method Reduce(theta0: int) returns (theta: int, signx: int)
    requires -32588 <= theta0 <= 32587
    ensures theta % FIXED_ONE == 0 && IsReduced(theta0, theta / FIXED_ONE, signx)
  {
    hide CMod, Degrees;
    signx := 1;
    theta := theta0 * FIXED_ONE;
    var signtheta := if theta < 0 then -1 else 1;
    theta := CMod(theta + 180 * FIXED_ONE * signtheta, 360 * FIXED_ONE) - 180 * FIXED_ONE * signtheta;
    ghost var d := CMod(theta0 + 180 * signtheta, 360) - 180 * signtheta;
    TurnsInDegrees(theta0, signtheta);
    WithinHalfTurn(theta0, d, signtheta);
    DegreesExact(d);
    if Degrees(theta) > 90 {
      theta, signx := theta - 180 * FIXED_ONE, -1;
    } else if Degrees(theta) < -90 {
      theta, signx := theta + 180 * FIXED_ONE, -1;
    }
  }

  lemma WithinHalfTurn(theta: int, d: int, sign: int)
    requires sign == (if theta < 0 then -1 else 1) && d == CMod(theta + 180 * sign, 360) - 180 * sign
    ensures -180 <= d <= 180 && (theta - d) % 360 == 0
    ensures d > 90 ==> IsReduced(theta, d - 180, -1)
    ensures d < -90 ==> IsReduced(theta, d + 180, -1)
  {}

  lemma DegreesExact(d: int)
    ensures Degrees(d * FIXED_ONE) == d
  {}

  lemma TurnsInDegrees(theta: int, sign: int)
    requires sign == if theta < 0 then -1 else 1
    ensures var r := CMod(theta * FIXED_ONE + 180 * FIXED_ONE * sign, 360 * FIXED_ONE) - 180 * FIXED_ONE * sign;
            r == (CMod(theta + 180 * sign, 360) - 180 * sign) * FIXED_ONE
  {
    var a := theta + 180 * sign;
    if a >= 0 {
      ModScale(a, 360, FIXED_ONE);
    } else {
      ModScale(-a, 360, FIXED_ONE);
    }
  }

  /** The rotation loop of `cordic_calc_iq`. */
  method Rotate(theta: int) returns (i: int, q: int, angle: int)
    ensures angle == AngleAfter(ARCTAN_TABLE, theta, 18)
    ensures var v := TurnedAfter(ARCTAN_TABLE, theta, 18);
            Near(i, v.x, 35) && Near(q, v.y, 35)
  {
    hide Near, Half, Turn, Pow2;
    i, q, angle := CORDIC_ANGLE_GEN, 0, 0;
    StartNear();
    for iter := 0 to CORDIC_NUM_ITER
      invariant angle == AngleAfter(ARCTAN_TABLE, theta, iter)
      invariant var v := TurnedAfter(ARCTAN_TABLE, theta, iter);
                Near(i, v.x, Slack(iter)) && Near(q, v.y, Slack(iter))
    {
      RotationNear(i, q, TurnedAfter(ARCTAN_TABLE, theta, iter), iter);
      var valtmp;
      if theta > angle {
        valtmp := i - q / Pow2(iter);
        q := q + i / Pow2(iter);
        angle := angle + ARCTAN_TABLE[iter];
      } else {
        valtmp := i + q / Pow2(iter);
        q := q - i / Pow2(iter);
        angle := angle - ARCTAN_TABLE[iter];
      }
      i := valtmp;
    }
  }

  lemma StartNear()
    ensures Near(CORDIC_ANGLE_GEN, CORDIC_ANGLE_GEN as real, 0) && Near(0, 0.0, 0)
  {}

  lemma ProductBound(d: real, s: real, a: real, b: real)
    requires -a <= d <= a && -b <= s <= b
    ensures -(a * b) <= d * s <= a * b
  {}

  /** The coordinates of a vector are at most its radius. */
  lemma CoordinateBound(x: real, y: real, r: real)
    requires x * x + y * y < r * r && r >= 0.0
    ensures -r < x < r
  {}

  lemma SquareNear(i: int, x: real)
    requires Near(i, x, 35) && -65537.0 < x < 65537.0
    ensures -4_600_000.0 <= (i * i) as real - x * x <= 4_600_000.0
  {
    var r := i as real;
    assert (i * i) as real == r * r;
    ProductBound(r - x, r + x, 35.0, 131_200.0);
    assert r * r - x * x == (r - x) * (r + x);
  }

  /** A vector near the exact one has nearly its radius. */
  lemma RadiusNear(i: int, q: int, v: Vec)
    requires Near(i, v.x, 35) && Near(q, v.y, 35)
    requires 65536.0 * 65536.0 < Norm2(v) < 65537.0 * 65537.0
    ensures -9_400_000 <= i * i + q * q - 65536 * 65536 <= 9_400_000
  {
    hide Near;
    CoordinateBound(v.x, v.y, 65537.0);
    CoordinateBound(v.y, v.x, 65537.0);
    SquareNear(i, v.x);
    SquareNear(q, v.y);
    TotalNear(i * i, q * q, v.x * v.x, v.y * v.y);
  }

  lemma TotalNear(ii: int, qq: int, xx: real, yy: real)
    requires 4_294_967_296.0 < xx + yy < 4_295_098_369.0
    requires -4_600_000.0 <= ii as real - xx <= 4_600_000.0 && -4_600_000.0 <= qq as real - yy <= 4_600_000.0
    ensures -9_400_000 <= ii + qq - 65536 * 65536 <= 9_400_000
  {}

  /** `cordic_calc_iq`. The angle that the vector is turned by is within 29/65536 degree of the
      requested one, each coordinate is within 35 of the exactly turned vector, and the radius is
      about 65536. */
  method CalcIq(theta0: int) returns (i: int, q: int, ghost d: int, ghost sign: int)
    requires -32588 <= theta0 <= 32587
    ensures IsReduced(theta0, d, sign)
    ensures -29 <= d * FIXED_ONE - AngleAfter(ARCTAN_TABLE, d * FIXED_ONE, 18) <= 29
    ensures var v := TurnedAfter(ARCTAN_TABLE, d * FIXED_ONE, 18);
            Near(sign * i, v.x, 35) && Near(sign * q, v.y, 35)
    ensures -9_400_000 <= i * i + q * q - 65536 * 65536 <= 9_400_000
  {
    hide Near, AngleAfter, TurnedAfter, Norm2, Converging, Reach;
    var theta, signx := Reduce(theta0);
    d, sign := theta / FIXED_ONE, signx;
    TableConverges();
    Converges(ARCTAN_TABLE, theta);
    var angle;
    i, q, angle := Rotate(theta);
    RadiusOfAll(theta);
    RadiusNear(i, q, TurnedAfter(ARCTAN_TABLE, theta, 18));
    i := i * signx;
    q := q * signx;
  }
}
