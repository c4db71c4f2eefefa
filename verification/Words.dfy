/** Machine words: bytes, 32-bit unsigned wrap-around and the power-of-two masks that
    the kernel code uses in place of a remainder. */
module Words {

  type byte = b: int | 0 <= b < 256

  const TWO32: int := 0x1_0000_0000

  /** The value an `unsigned int` holds after an operation whose exact result is `x`. */
  function Wrap32(x: int): (r: nat)
    ensures r < TWO32
    decreases if x < 0 then TWO32 - x else x
  {
    if x < 0 then Wrap32(x + TWO32) else if x < TWO32 then x else Wrap32(x - TWO32)
  }

  lemma {:induction false} WrapIsMod(x: int)
    ensures Wrap32(x) == x % TWO32
    decreases if x < 0 then TWO32 - x else x
  {
    if x < 0 {
      WrapIsMod(x + TWO32);
    } else if x >= TWO32 {
      WrapIsMod(x - TWO32);
    }
  }

  function Min(a: int, b: int): int {
    if a <= b then a else b
  }

  function Pow2(k: nat): (p: nat)
    ensures p >= 1
  {
    if k == 0 then 1 else 2 * Pow2(k - 1)
  }

  /** Bitwise conjunction of two natural numbers, bit by bit. */
  function And(x: nat, y: nat): nat {
    if x == 0 || y == 0 then 0 else (x % 2) * (y % 2) + 2 * And(x / 2, y / 2)
  }

  lemma AndOdd(x: nat, m: nat)
    ensures And(x, 2 * m + 1) == x % 2 + 2 * And(x / 2, m)
  {
    if x != 0 {
      assert (2 * m + 1) % 2 == 1 && (2 * m + 1) / 2 == m;
    }
  }

  /** The remainder by 2 * p, from the lowest bit and the remainder of the rest by p. */
  lemma ModHalf(x: nat, p: nat)
    requires p > 0
    ensures x % (2 * p) == x % 2 + 2 * ((x / 2) % p)
  {
    var r := (x / 2) % p;
    DivMod(x / 2, p);
    DivMod(x, 2);
    var q := (x / 2) / p;
    assert x == 2 * (q * p + r) + x % 2;
    assert q * (2 * p) == 2 * (q * p);
    ModUnique(x, 2 * p, q, x % 2 + 2 * r);
  }

  lemma AndZero(x: nat)
    ensures And(x, 0) == 0
  {}

  /** Masking with 2^k - 1 is the remainder by 2^k. */
  lemma {:induction false} AndMask(x: nat, k: nat)
    ensures And(x, Pow2(k) - 1) == x % Pow2(k)
  {
    hide And;
    if k == 0 {
      AndZero(x);
    } else {
      var p := Pow2(k - 1);
      AndMask(x / 2, k - 1);
      AndOdd(x, p - 1);
      ModHalf(x, p);
      assert Pow2(k) - 1 == 2 * (p - 1) + 1;
    }
  }

  /** C division and remainder by a positive divisor: both truncate toward zero. */
  function CDiv(a: int, b: int): int
    requires b > 0
  {
    if a >= 0 then a / b else -((-a) / b)
  }

  function CMod(a: int, b: int): int
    requires b > 0
  {
    if a >= 0 then a % b else -((-a) % b)
  }

  lemma DivMod(x: int, m: int)
    requires m > 0
    ensures x == (x / m) * m + x % m && 0 <= x % m < m
  {}

  lemma MulAtLeast(d: int, m: int)
    requires m > 0
    ensures d >= 1 ==> d * m >= m
    ensures d <= -1 ==> d * m <= -m
  {}

  /** The remainder is determined by any decomposition of `x`. */
  lemma ModUnique(x: int, m: int, q: int, r: int)
    requires m > 0 && x == q * m + r && 0 <= r < m
    ensures x % m == r
  {
    DivMod(x, m);
    var d := x / m - q;
    assert d * m == r - x % m by {
      assert d * m == (x / m) * m - q * m;
    }
    MulAtLeast(d, m);
  }

  /** Adding a multiple of the modulus changes no remainder. */
  lemma ModShift(x: int, m: int, k: int)
    requires m > 0
    ensures (x + k * m) % m == x % m
  {
    DivMod(x, m);
    assert x + k * m == (x / m + k) * m + x % m;
    ModUnique(x + k * m, m, x / m + k, x % m);
  }

  /** Reducing by a multiple of the modulus first changes nothing. */
  lemma ModOfMod(x: int, a: int, b: int)
    requires a > 0 && b > 0
    ensures a * b > 0
    ensures (x % (a * b)) % a == x % a
  {
    assert a * b > 0;
    DivMod(x, a * b);
    var k := -(x / (a * b)) * b;
    assert x % (a * b) == x + k * a;
    ModShift(x, a, k);
  }

  /** A common factor moves out of a remainder. */
  lemma ModScale(x: int, m: int, e: int)
    requires m > 0 && e > 0
    ensures m * e > 0
    ensures (x * e) % (m * e) == (x % m) * e
  {
    assert m * e > 0;
    DivMod(x, m);
    var q, r := x / m, x % m;
    assert x * e == q * (m * e) + r * e by {
      assert x * e == (q * m + r) * e;
    }
    assert r * e < m * e && 0 <= r * e;
    ModUnique(x * e, m * e, q, r * e);
  }

  /** The product `n * e`, by repeated addition: a batch of `n` elements of `e` bytes. */
  function Scale(n: nat, e: nat): nat {
    if n == 0 then 0 else e + Scale(n - 1, e)
  }

  lemma {:induction false} ScaleIsProduct(n: nat, e: nat)
    ensures Scale(n, e) == n * e
  {
    if n == 0 {
    } else {
      ScaleIsProduct(n - 1, e);
      assert n * e == e + (n - 1) * e;
    }
  }

  lemma ScaleStep(n: nat, e: nat)
    ensures Scale(n, e) == if n == 0 then 0 else e + Scale(n - 1, e)
  {}

  lemma {:induction false} ScaleOne(n: nat)
    ensures Scale(n, 1) == n
  {
    if n == 0 {
    } else {
      ScaleOne(n - 1);
    }
  }

  lemma {:induction false} ScaleAdd(a: nat, b: nat, e: nat)
    ensures Scale(a + b, e) == Scale(a, e) + Scale(b, e)
  {
    if a == 0 {
    } else {
      ScaleAdd(a - 1, b, e);
    }
  }

  lemma ScaleMono(a: nat, b: nat, e: nat)
    requires a <= b
    ensures Scale(b, e) == Scale(a, e) + Scale(b - a, e)
  {
    ScaleAdd(a, b - a, e);
  }

  /** Scaling commutes with remainders. */
  lemma ScaleMod(x: nat, m: nat, e: nat)
    requires m > 0 && e > 0
    ensures Scale(m, e) > 0
    ensures Scale(x, e) % Scale(m, e) == Scale(x % m, e)
  {
    ModScale(x, m, e);
    ScaleIsProduct(x, e);
    ScaleIsProduct(m, e);
    ScaleIsProduct(x % m, e);
  }

  lemma ModAddLeft(x: int, y: int, m: int)
    requires m > 0
    ensures (x % m + y) % m == (x + y) % m
  {
    DivMod(x, m);
    assert x + y == (x % m + y) + (x / m) * m;
    ModShift(x % m + y, m, x / m);
  }

  /** Values below 2^32 are unchanged, and sums and differences may be wrapped at any point. */
  lemma WrapSmall(x: int)
    requires 0 <= x < TWO32
    ensures Wrap32(x) == x
  {}

  lemma WrapSum(x: int, y: int)
    ensures Wrap32(Wrap32(x) + y) == Wrap32(x + y)
  {
    WrapIsMod(x);
    WrapIsMod(x + y);
    WrapIsMod(Wrap32(x) + y);
    ModAddLeft(x, y, TWO32);
  }

  lemma WrapDifference(x: int, y: int)
    ensures Wrap32(x - Wrap32(y)) == Wrap32(x - y)
    ensures Wrap32(Wrap32(x) - Wrap32(y)) == Wrap32(x - y)
  {
    WrapIsMod(y);
    WrapIsMod(x - y);
    WrapIsMod(x - Wrap32(y));
    DivMod(y, TWO32);
    ModShift(x - y, TWO32, y / TWO32);
    assert x - Wrap32(y) == x - y + (y / TWO32) * TWO32;
    WrapSum(x, 0 - Wrap32(y));
  }

  lemma {:induction false} Pow2Add(a: nat, b: nat)
    ensures Pow2(a + b) == Pow2(a) * Pow2(b)
  {
    if a == 0 {
    } else {
      Pow2Add(a - 1, b);
    }
  }

  lemma Pow2Mono(a: nat, b: nat)
    requires a <= b
    ensures Pow2(a) <= Pow2(b)
  {}

  lemma Pow2At32()
    ensures Pow2(32) == TWO32
    ensures Pow2(31) == 0x8000_0000
  {
    assert Pow2(8) == 256;
    Pow2Add(8, 8);
    Pow2Add(16, 16);
  }

  /** Wrapping to 32 bits does not disturb a remainder by a power of two up to 2^32:
      the fact the free-running indices of the fifo rest on. */
  lemma WrapMod(x: int, k: nat)
    requires k <= 32
    ensures Wrap32(x) % Pow2(k) == x % Pow2(k)
  {
    Pow2At32();
    Pow2Add(k, 32 - k);
    ModOfMod(x, Pow2(k), Pow2(32 - k));
    WrapIsMod(x);
  }
}
