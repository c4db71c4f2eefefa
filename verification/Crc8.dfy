/** compat-wireless/compat/crc8.c: two table generators and a table-driven checksum, each related to
    the division of polynomials over GF(2). Both bit orders share the theory of Gf2: a byte is read
    as eight coefficients, the most significant bit first or the least significant bit first. */
module Crc8 {
  import opened Words
  import opened Gf2

  datatype Order = Msb | Lsb

  // ----- numbers and their bits -----

  function BitsMsb(v: nat, n: nat): (r: Poly)
    ensures |r| == n
  {
    if n == 0 then [] else BitsMsb(v / 2, n - 1) + [v % 2 == 1]
  }

  function BitsLsb(v: nat, n: nat): (r: Poly)
    ensures |r| == n
  {
    if n == 0 then [] else [v % 2 == 1] + BitsLsb(v / 2, n - 1)
  }

  function ValueMsb(w: Poly): (v: nat)
    ensures v < Pow2(|w|)
  {
    if w == [] then 0 else 2 * ValueMsb(w[..|w| - 1]) + (if w[|w| - 1] then 1 else 0)
  }

  function ValueLsb(w: Poly): (v: nat)
    ensures v < Pow2(|w|)
  {
    if w == [] then 0 else 2 * ValueLsb(w[1..]) + (if w[0] then 1 else 0)
  }

  lemma {:induction false} BitsOfValue(w: Poly)
    ensures BitsMsb(ValueMsb(w), |w|) == w
    ensures BitsLsb(ValueLsb(w), |w|) == w
  {
    if w == [] {
    } else {
      var n := |w| - 1;
      BitsOfValue(w[..n]);
      BitsOfValue(w[1..]);
      assert w[..n] + [w[n]] == w && [w[0]] + w[1..] == w;
      var m, l := ValueMsb(w), ValueLsb(w);
      assert m / 2 == ValueMsb(w[..n]) && m % 2 == (if w[n] then 1 else 0);
      assert l / 2 == ValueLsb(w[1..]) && l % 2 == (if w[0] then 1 else 0);
    }
  }

  lemma {:induction false} ValueOfBits(v: nat, n: nat)
    requires v < Pow2(n)
    ensures ValueMsb(BitsMsb(v, n)) == v
    ensures ValueLsb(BitsLsb(v, n)) == v
  {
    if n == 0 {
    } else {
      ValueOfBits(v / 2, n - 1);
      assert BitsMsb(v, n)[..n - 1] == BitsMsb(v / 2, n - 1);
      assert BitsLsb(v, n)[1..] == BitsLsb(v / 2, n - 1);
    }
  }

  function Reversed(w: Poly): (r: Poly)
    ensures |r| == |w|
  {
    seq(|w|, i requires 0 <= i < |w| => w[|w| - 1 - i])
  }

  lemma {:induction false} BitsReversed(v: nat, n: nat)
    ensures BitsLsb(v, n) == Reversed(BitsMsb(v, n))
  {
    if n == 0 {
    } else {
      BitsReversed(v / 2, n - 1);
    }
  }

  /** The coefficients of a byte in the order the checksum takes them. */
  function Bits(o: Order, b: byte): (r: Poly)
    ensures |r| == 8
  {
    match o case Msb => BitsMsb(b, 8) case Lsb => BitsLsb(b, 8)
  }

  /** The byte with given coefficients. */
  function Number(o: Order, w: Poly): (b: byte)
    requires |w| == 8
  {
    Pow2At8();
    match o case Msb => ValueMsb(w) case Lsb => ValueLsb(w)
  }

  lemma Pow2At8()
    ensures Pow2(8) == 256 && Pow2(7) == 128
  {}

  lemma BitsOfNumber(o: Order, w: Poly)
    requires |w| == 8
    ensures Bits(o, Number(o, w)) == w
  {
    BitsOfValue(w);
  }

  lemma NumberOfBits(o: Order, b: byte)
    ensures Number(o, Bits(o, b)) == b
  {
    Pow2At8();
    ValueOfBits(b, 8);
  }

  lemma BitsInjective(o: Order, x: byte, y: byte)
    requires Bits(o, x) == Bits(o, y)
    ensures x == y
  {
    NumberOfBits(o, x);
    NumberOfBits(o, y);
  }

  /** A byte with its bits in the opposite order. */
  function ReverseByte(b: byte): byte {
    Number(Lsb, Bits(Msb, b))
  }

  /** Exclusive or of two bytes. */
  function XorByte(x: byte, y: byte): byte {
    Number(Msb, Xor(Bits(Msb, x), Bits(Msb, y)))
  }

  lemma BitsXor(o: Order, x: byte, y: byte)
    ensures Bits(o, XorByte(x, y)) == Xor(Bits(o, x), Bits(o, y))
  {
    BitsOfNumber(Msb, Xor(Bits(Msb, x), Bits(Msb, y)));
    if o.Lsb? {
      BitsReversed(x, 8);
      BitsReversed(y, 8);
      BitsReversed(XorByte(x, y), 8);
    }
  }

  lemma {:induction false} BitsZero(n: nat)
    ensures BitsMsb(0, n) == Zeros(n)
    ensures BitsLsb(0, n) == Zeros(n)
  {
    if n == 0 {
    } else {
      BitsZero(n - 1);
    }
  }

  // ----- one step of the shift register, on bytes -----

  /** `(t << 1) ^ (t & 0x80 ? polynomial : 0)` and `(t >> 1) ^ (t & 1 ? polynomial : 0)`, with the
      shifts and the tests of a bit as arithmetic. */
  function StepByte(o: Order, p: byte, t: byte): byte {
    match o
    case Msb => XorByte((2 * t) % 256, if t >= 128 then p else 0)
    case Lsb => XorByte(t / 2, if t % 2 == 1 then p else 0)
  }

  lemma {:induction false} TopBit(t: nat, n: nat)
    requires n > 0 && t < Pow2(n)
    ensures BitsMsb(t, n)[0] == (t >= Pow2(n - 1))
  {
    if n <= 1 {
    } else {
      TopBit(t / 2, n - 1);
    }
  }

  /** Shifting left drops the first coefficient and appends a zero. */
  lemma {:induction false} DropTop(t: nat, n: nat)
    requires n > 0 && t < Pow2(n)
    ensures BitsMsb(if t >= Pow2(n - 1) then t - Pow2(n - 1) else t, n - 1) == BitsMsb(t, n)[1..]
  {
    if n <= 1 {
    } else {
      DropTop(t / 2, n - 1);
      var u := if t >= Pow2(n - 1) then t - Pow2(n - 1) else t;
      assert u % 2 == t % 2 && u / 2 == if t / 2 >= Pow2(n - 2) then t / 2 - Pow2(n - 2) else t / 2;
      assert BitsMsb(t, n)[1..] == BitsMsb(t / 2, n - 1)[1..] + [t % 2 == 1];
    }
  }

  lemma BitsShiftMsb(t: byte)
    ensures Bits(Msb, (2 * t) % 256) == Bits(Msb, t)[1..] + [false]
    ensures Bits(Msb, t)[0] == (t >= 128)
  {
    hide Pow2;
    Pow2At8();
    TopBit(t, 8);
    DropTop(t, 8);
    var u := (2 * t) % 256;
    assert u % 2 == 0 && u / 2 == if t >= 128 then t - 128 else t;
  }

  lemma {:induction false} ZeroOnTop(t: nat, n: nat)
    requires t < Pow2(n)
    ensures BitsLsb(t, n + 1) == BitsLsb(t, n) + [false]
  {
    if n == 0 {
    } else {
      ZeroOnTop(t / 2, n - 1);
    }
  }

  lemma BitsShiftLsb(t: byte)
    ensures Bits(Lsb, t / 2) == Bits(Lsb, t)[1..] + [false]
    ensures Bits(Lsb, t)[0] == (t % 2 == 1)
  {
    Pow2At8();
    ZeroOnTop(t / 2, 7);
  }

  /** A step on the byte is a step of the shift register. */
  lemma BitsStep(o: Order, p: byte, t: byte)
    ensures Bits(o, StepByte(o, p, t)) == Step(Bits(o, p), Bits(o, t))
  {
    BitsZero(8);
    match o
    case Msb =>
      BitsShiftMsb(t);
      BitsXor(Msb, (2 * t) % 256, if t >= 128 then p else 0);
    case Lsb =>
      BitsShiftLsb(t);
      BitsXor(Lsb, t / 2, if t % 2 == 1 then p else 0);
  }

  /** The register after `n` bitwise steps from `t`. */
  function StepBytes(o: Order, p: byte, t: byte, n: nat): byte {
    if n == 0 then t else StepByte(o, p, StepBytes(o, p, t, n - 1))
  }

  lemma {:induction false} BitsSteps(o: Order, p: byte, t: byte, n: nat)
    ensures Bits(o, StepBytes(o, p, t, n)) == Steps(Bits(o, p), Bits(o, t), n)
  {
    if n == 0 {
    } else {
      BitsSteps(o, p, t, n - 1);
      BitsStep(o, p, StepBytes(o, p, t, n - 1));
    }
  }

  lemma {:induction false} StepBytesAdd(o: Order, p: byte, t: byte, m: nat, n: nat)
    ensures StepBytes(o, p, t, m + n) == StepBytes(o, p, StepBytes(o, p, t, m), n)
  {
    if n == 0 {
    } else {
      StepBytesAdd(o, p, t, m, n - 1);
    }
  }

  lemma StepBytesXor(o: Order, p: byte, x: byte, y: byte, n: nat)
    ensures StepBytes(o, p, XorByte(x, y), n) == XorByte(StepBytes(o, p, x, n), StepBytes(o, p, y, n))
  {
    BitsSteps(o, p, x, n);
    BitsSteps(o, p, y, n);
    BitsSteps(o, p, XorByte(x, y), n);
    BitsXor(o, x, y);
    BitsXor(o, StepBytes(o, p, x, n), StepBytes(o, p, y, n));
    StepsLinear(Bits(o, p), Bits(o, x), Bits(o, y), n);
    BitsInjective(o, StepBytes(o, p, XorByte(x, y), n), XorByte(StepBytes(o, p, x, n), StepBytes(o, p, y, n)));
  }

  /** The table both generators are meant to fill: entry `b` is the eight-step remainder of `b`. */
  ghost predicate IsTable(o: Order, p: byte, t: seq<byte>) {
    && |t| == 256
    && forall b: byte :: t[b] == StepBytes(o, p, b, 8)
  }

  // ----- powers of two among the indices -----

  lemma XorZero(x: byte)
    ensures XorByte(x, 0) == x && XorByte(0, x) == x
  {
    BitsXor(Msb, x, 0);
    BitsXor(Msb, 0, x);
    BitsZero(8);
    XorZeros(Bits(Msb, x));
    BitsInjective(Msb, XorByte(x, 0), x);
    BitsInjective(Msb, XorByte(0, x), x);
  }

  lemma Pow2Byte(k: nat)
    requires k < 8
    ensures Pow2(k) <= 128
  {
    Pow2At8();
    Pow2Mono(k, 7);
  }

  /** `v` is a multiple of 2^k. */
  predicate Multiple(v: nat, k: nat) {
    k == 0 || (v % 2 == 0 && Multiple(v / 2, k - 1))
  }

  lemma {:induction false} MultipleWeaker(v: nat, k: nat)
    requires Multiple(v, k + 1)
    ensures Multiple(v, k)
  {
    if k == 0 {
    } else {
      MultipleWeaker(v / 2, k - 1);
    }
  }

  lemma {:induction false} MultipleNext(j: nat, k: nat)
    requires Multiple(j, k)
    ensures Multiple(j + Pow2(k), k)
  {
    if k == 0 {
    } else {
      MultipleNext(j / 2, k - 1);
      assert (j + Pow2(k)) / 2 == j / 2 + Pow2(k - 1) && (j + Pow2(k)) % 2 == 0;
    }
  }

  /** Of the multiples of 2^k, only two lie between successive multiples of 2^(k+1). */
  lemma {:induction false} MultiplesBetween(b: nat, j: nat, k: nat)
    requires Multiple(b, k) && Multiple(j, k + 1) && j <= b < j + 2 * Pow2(k)
    ensures b == j || b == j + Pow2(k)
    ensures Multiple(b, k + 1) ==> b == j
  {
    if k == 0 {
    } else {
      MultiplesBetween(b / 2, j / 2, k - 1);
    }
  }

  /** Below and above the bit of a power of two, addition is exclusive or. */
  lemma {:induction false} BitsOfSum(k: nat, j: nat, n: nat)
    requires j < Pow2(k) || Multiple(j, k + 1)
    ensures BitsMsb(Pow2(k) + j, n) == Xor(BitsMsb(Pow2(k), n), BitsMsb(j, n))
  {
    if n == 0 {
    } else {
      if k == 0 {
        assert j % 2 == 0 && (1 + j) / 2 == j / 2 && (1 + j) % 2 == 1;
        BitsZero(n - 1);
        XorZeros(BitsMsb(j / 2, n - 1));
      } else {
        BitsOfSum(k - 1, j / 2, n - 1);
        assert Pow2(k) % 2 == 0 && Pow2(k) / 2 == Pow2(k - 1);
        assert (Pow2(k) + j) / 2 == Pow2(k - 1) + j / 2 && (Pow2(k) + j) % 2 == j % 2;
      }
      XorSnoc(BitsMsb(Pow2(k) / 2, n - 1), BitsMsb(j / 2, n - 1), Pow2(k) % 2 == 1, j % 2 == 1);
    }
  }

  lemma XorSnoc(a: Poly, b: Poly, x: bool, y: bool)
    requires |a| == |b|
    ensures Xor(a + [x], b + [y]) == Xor(a, b) + [x != y]
  {}

  lemma SumIsXor(k: nat, j: nat)
    requires k < 8 && Pow2(k) + j < 256
    requires j < Pow2(k) || Multiple(j, k + 1)
    ensures Pow2(k) + j == XorByte(Pow2(k), j)
  {
    BitsOfSum(k, j, 8);
    BitsXor(Msb, Pow2(k), j);
    BitsInjective(Msb, Pow2(k) + j, XorByte(Pow2(k), j));
  }

  /** A power of two travels to the end of the register untouched by the polynomial. */
  lemma {:induction false} UnitMsb(p: byte, k: nat, n: nat)
    requires k + n <= 7
    ensures Pow2(k) < 256 && Pow2(k + n) < 256
    ensures StepBytes(Msb, p, Pow2(k), n) == Pow2(k + n)
  {
    Pow2Byte(k);
    Pow2Byte(k + n);
    if n == 0 {
    } else {
      UnitMsb(p, k, n - 1);
      DoubleStep(p, k + n - 1);
    }
  }

  lemma DoubleStep(p: byte, m: nat)
    requires m < 7
    ensures Pow2(m) < 256 && Pow2(m + 1) < 256
    ensures StepByte(Msb, p, Pow2(m)) == Pow2(m + 1)
  {
    Pow2Byte(m);
    Pow2Byte(m + 1);
    XorZero(Pow2(m + 1));
  }

  lemma {:induction false} UnitLsb(p: byte, k: nat, n: nat)
    requires n <= k <= 7
    ensures Pow2(k) < 256 && Pow2(k - n) < 256
    ensures StepBytes(Lsb, p, Pow2(k), n) == Pow2(k - n)
  {
    Pow2Byte(k);
    Pow2Byte(k - n);
    if n == 0 {
    } else {
      UnitLsb(p, k, n - 1);
      HalfStep(p, k - n);
    }
  }

  lemma HalfStep(p: byte, m: nat)
    requires m < 7
    ensures Pow2(m) < 256 && Pow2(m + 1) < 256
    ensures StepByte(Lsb, p, Pow2(m + 1)) == Pow2(m)
  {
    Pow2Byte(m);
    Pow2Byte(m + 1);
    assert Pow2(m + 1) / 2 == Pow2(m) && Pow2(m + 1) % 2 == 0;
    XorZero(Pow2(m));
  }

  /** Entry 2^k of either table, as the generator reaches it. */
  lemma UnitEntryMsb(p: byte, k: nat)
    requires k < 8
    ensures Pow2(k) < 256
    ensures StepBytes(Msb, p, Pow2(k), 8) == StepBytes(Msb, p, 128, k + 1)
  {
    Pow2At8();
    UnitMsb(p, k, 7 - k);
    StepBytesAdd(Msb, p, Pow2(k), 7 - k, k + 1);
  }

  lemma UnitEntryLsb(p: byte, k: nat)
    requires k < 8
    ensures Pow2(k) < 256
    ensures StepBytes(Lsb, p, Pow2(k), 8) == StepBytes(Lsb, p, 1, 8 - k)
  {
    UnitLsb(p, k, k);
    StepBytesAdd(Lsb, p, Pow2(k), k, 8 - k);
  }

  /** One doubling: the entry at `2^k + j` from those at `2^k` and `j`. */
  lemma SumEntry(o: Order, p: byte, k: nat, j: nat)
    requires k < 8 && Pow2(k) + j < 256
    requires j < Pow2(k) || Multiple(j, k + 1)
    ensures StepBytes(o, p, Pow2(k) + j, 8)
         == XorByte(StepBytes(o, p, j, 8), StepBytes(o, p, Pow2(k), 8))
  {
    SumIsXor(k, j);
    XorCommutes(Pow2(k), j);
    StepBytesXor(o, p, j, Pow2(k), 8);
  }

  lemma XorCommutes(x: byte, y: byte)
    ensures XorByte(x, y) == XorByte(y, x)
  {
    assert Xor(Bits(Msb, x), Bits(Msb, y)) == Xor(Bits(Msb, y), Bits(Msb, x));
  }

  lemma {:induction false} ZeroEntry(o: Order, p: byte, n: nat)
    ensures StepBytes(o, p, 0, n) == 0
  {
    if n == 0 {
    } else {
      ZeroEntry(o, p, n - 1);
      XorZero(0);
    }
  }

  // ----- the generators -----

  /** The entries below `end` are right. */
  ghost predicate Started(t: seq<byte>, p: byte, end: nat)
    requires |t| == 256
  {
    forall b: byte :: b < end ==> t[b] == StepBytes(Msb, p, b, 8)
  }

  /** One store of the inner loop. */
  lemma DoublingStep(t: seq<byte>, p: byte, k: nat, j: nat)
    requires |t| == 256 && k < 8 && j < Pow2(k) && Pow2(k) + j < 256
    requires Started(t, p, Pow2(k) + j)
    ensures Started(t[Pow2(k) + j := XorByte(t[j], StepBytes(Msb, p, Pow2(k), 8))], p, Pow2(k) + j + 1)
  {
    SumEntry(Msb, p, k, j);
  }

  /** `crc8_populate_msb`: doubling upwards. */
  method PopulateMsb(table: array<byte>, polynomial: byte)
    requires table.Length == 256
    modifies table
    ensures IsTable(Msb, polynomial, table[..])
  {
    var t: byte := 128;
    table[0] := 0;
    ZeroEntry(Msb, polynomial, 8);
    var i := 1;
    ghost var k: nat := 0;
    while i < 256
      invariant k <= 8 && i == Pow2(k) <= 256 && t == StepBytes(Msb, polynomial, 128, k)
      invariant Started(table[..], polynomial, i)
      decreases 8 - k
    {
      DoublingFits(k);
      t := StepByte(Msb, polynomial, t);
      UnitEntryMsb(polynomial, k);
      FillDouble(table, polynomial, k, i, t);
      i := i * 2;
      k := k + 1;
    }
  }

  /** The inner loop: from the entries below 2^k to those below 2^(k+1). */
  method FillDouble(table: array<byte>, polynomial: byte, ghost k: nat, i: nat, t: byte)
    requires table.Length == 256 && k < 8 && i == Pow2(k) && 2 * i <= 256
    requires t == StepBytes(Msb, polynomial, i, 8) && Started(table[..], polynomial, i)
    modifies table
    ensures Started(table[..], polynomial, 2 * i)
  {
    var j := 0;
    while j < i
      invariant 0 <= j <= i
      invariant Started(table[..], polynomial, i + j)
    {
      DoublingStep(table[..], polynomial, k, j);
      table[i + j] := XorByte(table[j], t);
      j := j + 1;
    }
  }

  lemma DoublingFits(k: nat)
    requires k <= 8 && Pow2(k) < 256
    ensures k < 8 && 2 * Pow2(k) <= 256
  {
    Pow2At8();
    if k < 8 {
      Pow2Byte(k);
    }
  }

  /** `crc8_populate_lsb`: halving strides downwards. */
  method PopulateLsb(table: array<byte>, polynomial: byte)
    requires table.Length == 256
    modifies table
    ensures IsTable(Lsb, polynomial, table[..])
  {
    var t: byte := 1;
    table[0] := 0;
    ZeroEntry(Lsb, polynomial, 8);
    OnlyZero();
    Pow2At8();
    var i := 128;
    ghost var k: nat := 8;
    while i != 0
      invariant k <= 8 && i == Stride(k) && t == StepBytes(Lsb, polynomial, 1, 8 - k)
      invariant Filled(table[..], polynomial, k, 256)
      decreases k
    {
      t := StepByte(Lsb, polynomial, t);
      UnitEntryLsb(polynomial, k - 1);
      FillStride(table, polynomial, k - 1, i, t);
      i := i / 2;
      k := k - 1;
    }
  }

  /** The stride at each round of the outer loop, ending in zero. */
  function Stride(k: nat): nat {
    if k == 0 then 0 else Pow2(k - 1)
  }

  /** Among bytes, only zero is a multiple of 2^8. */
  lemma OnlyZero()
    ensures forall b: byte :: Multiple(b, 8) ==> b == 0
  {
    forall b: byte | Multiple(b, 8)
      ensures b == 0
    {
      MultipleSmall(b, 8);
    }
  }

  lemma {:induction false} MultipleSmall(b: nat, k: nat)
    requires Multiple(b, k) && b < Pow2(k)
    ensures b == 0
  {
    if k == 0 {
    } else {
      MultipleSmall(b / 2, k - 1);
    }
  }

  /** The entries at multiples of 2^k below `end` are right. */
  ghost predicate Filled(t: seq<byte>, p: byte, k: nat, end: nat)
    requires |t| == 256
  {
    forall b: byte :: b < end && Multiple(b, k) ==> t[b] == StepBytes(Lsb, p, b, 8)
  }

  /** One store of the inner loop. */
  lemma StrideStep(t: seq<byte>, p: byte, k: nat, j: nat)
    requires |t| == 256 && k < 8 && Multiple(j, k + 1) && j + Pow2(k) < 256
    requires Filled(t, p, k + 1, 256) && Filled(t, p, k, j)
    ensures var t' := t[Pow2(k) + j := XorByte(t[j], StepBytes(Lsb, p, Pow2(k), 8))];
            Filled(t', p, k + 1, 256) && Filled(t', p, k, j + 2 * Pow2(k))
  {
    var i := Pow2(k);
    SumEntry(Lsb, p, k, j);
    var t' := t[i + j := XorByte(t[j], StepBytes(Lsb, p, i, 8))];
    assert t'[i + j] == StepBytes(Lsb, p, i + j, 8);
    forall b: byte | b < j + 2 * i && Multiple(b, k)
      ensures t'[b] == StepBytes(Lsb, p, b, 8)
    {
      if b >= j {
        MultiplesBetween(b, j, k);
      }
    }
    forall b: byte | Multiple(b, k + 1)
      ensures t'[b] == StepBytes(Lsb, p, b, 8)
    {
      MultipleWeaker(b, k);
    }
  }

  /** The inner loop: from the multiples of 2^(k+1) to those of 2^k. */
  method FillStride(table: array<byte>, polynomial: byte, ghost k: nat, i: nat, t: byte)
    requires table.Length == 256 && k < 8 && i == Pow2(k) < 256 && t == StepBytes(Lsb, polynomial, i, 8)
    requires Filled(table[..], polynomial, k + 1, 256)
    modifies table
    ensures Filled(table[..], polynomial, k, 256)
  {
    hide Multiple, StepBytes, XorByte;
    var j := 0;
    MultipleZero(k + 1);
    while j < 256
      invariant 0 <= j && Multiple(j, k + 1) && (j < 256 ==> j + i < 256)
      invariant Filled(table[..], polynomial, k + 1, 256) && Filled(table[..], polynomial, k, j)
    {
      StrideStep(table[..], polynomial, k, j);
      table[i + j] := XorByte(table[j], t);
      StrideNext(j, k);
      j := j + 2 * i;
    }
  }

  lemma {:induction false} MultipleZero(k: nat)
    ensures Multiple(0, k)
  {
    if k == 0 {
    } else {
      MultipleZero(k - 1);
    }
  }

  /** A multiple of 2^(k+1) below 256 leaves room for 2^k more. */
  lemma StrideFits(j: nat, k: nat)
    requires k < 8 && Multiple(j, k + 1)
    ensures j < 256 ==> j + Pow2(k) < 256
  {
    Pow2At8();
    if j < 256 {
      StrideFitsIn(j, k, 8);
    }
  }

  lemma StrideNext(j: nat, k: nat)
    requires k < 8 && Multiple(j, k + 1)
    ensures var j' := j + 2 * Pow2(k);
            Multiple(j', k + 1) && (j' < 256 ==> j' + Pow2(k) < 256)
  {
    MultipleNext(j, k + 1);
    StrideFits(j + 2 * Pow2(k), k);
  }

  lemma {:induction false} StrideFitsIn(j: nat, k: nat, n: nat)
    requires k < n && Multiple(j, k + 1) && j < Pow2(n)
    ensures j + Pow2(k) < Pow2(n)
  {
    if k == 0 {
    } else {
      StrideFitsIn(j / 2, k - 1, n - 1);
    }
  }

  // ----- the checksum -----

  /** The checksum loop as a fold over the bytes. */
  function Fold(t: seq<byte>, data: seq<byte>, crc: byte): byte
    requires |t| == 256
  {
    if data == [] then crc else
      var n := |data| - 1;
      t[XorByte(Fold(t, data[..n], crc), data[n])]
  }

  /** `crc8`. */
  method Crc8(table: array<byte>, pdata: seq<byte>, start: byte) returns (crc: byte)
    requires table.Length == 256
    ensures crc == Fold(table[..], pdata, start)
  {
    crc := start;
    var i := 0;
    assert pdata[..0] == [];
    while i < |pdata|
      invariant 0 <= i <= |pdata|
      invariant crc == Fold(table[..], pdata[..i], start)
    {
      crc := table[XorByte(crc, pdata[i])];
      assert pdata[..i + 1][..i] == pdata[..i];
      i := i + 1;
    }
    assert pdata[..|pdata|] == pdata;
  }

  /** The message in the order the checksum takes its bits. */
  function MessageBits(o: Order, data: seq<byte>): (r: Poly)
    ensures |r| == 8 * |data|
  {
    if data == [] then [] else MessageBits(o, data[..|data| - 1]) + Bits(o, data[|data| - 1])
  }

  /** The table-driven checksum is the shift register run over the message bit by bit. */
  lemma {:induction false} CrcIsSerial(o: Order, p: byte, t: seq<byte>, data: seq<byte>, crc: byte)
    requires IsTable(o, p, t)
    ensures Bits(o, Fold(t, data, crc)) == Serial(Bits(o, p), Bits(o, crc), MessageBits(o, data))
  {
    if data == [] {
    } else {
      var n := |data| - 1;
      CrcIsSerial(o, p, t, data[..n], crc);
      var c, b := Fold(t, data[..n], crc), data[n];
      SerialConcat(Bits(o, p), Bits(o, crc), MessageBits(o, data[..n]), Bits(o, b));
      SerialBlock(Bits(o, p), Bits(o, c), Bits(o, b));
      BitsXor(o, c, b);
      BitsSteps(o, p, XorByte(c, b), 8);
    }
  }

  /** The checksum is the remainder of the message polynomial, with the start value added to its
      first byte, divided by x^8 plus the polynomial; and nothing else is. */
  lemma CrcIsRemainder(o: Order, p: byte, t: seq<byte>, data: seq<byte>, crc: byte, r: byte)
    requires IsTable(o, p, t)
    ensures r == Fold(t, data, crc) <==>
            exists q :: IsDivision(Bits(o, p), Bits(o, crc), MessageBits(o, data), q, Bits(o, r))
  {
    var bp, bc, m := Bits(o, p), Bits(o, crc), MessageBits(o, data);
    CrcIsSerial(o, p, t, data, crc);
    SerialDivides(bp, bc, m);
    if q :| IsDivision(bp, bc, m, q, Bits(o, r)) {
      DivisionUnique(bp, bc, m, q, Bits(o, r));
      BitsInjective(o, r, Fold(t, data, crc));
    }
  }

  /** A polynomial with a constant term: bit 0 in msb order, bit 7 in lsb order. */
  predicate HasConstantTerm(o: Order, p: byte) {
    match o case Msb => p % 2 == 1 case Lsb => p >= 128
  }

  lemma ConstantTerm(o: Order, p: byte)
    ensures Bits(o, p)[7] == HasConstantTerm(o, p)
  {
    Pow2At8();
    TopBit(p, 8);
    BitsReversed(p, 8);
  }

  lemma {:induction false} MessageBitsInjective(o: Order, a: seq<byte>, b: seq<byte>)
    requires |a| == |b| && MessageBits(o, a) == MessageBits(o, b)
    ensures a == b
  {
    if a == [] {
    } else {
      var n := |a| - 1;
      ConcatInjective(MessageBits(o, a[..n]), Bits(o, a[n]), MessageBits(o, b[..n]), Bits(o, b[n]));
      MessageBitsInjective(o, a[..n], b[..n]);
      BitsInjective(o, a[n], b[n]);
      assert a == a[..n] + [a[n]] && b == b[..n] + [b[n]];
    }
  }

  /** Every burst of at most eight bits is detected, also across byte boundaries, whatever the
      length of the messages and the start value. */
  lemma BurstsDetected(o: Order, p: byte, t: seq<byte>, a: seq<byte>, b: seq<byte>, crc: byte, s: nat)
    requires IsTable(o, p, t) && HasConstantTerm(o, p)
    requires |a| == |b| && a != b && DifferWithin(MessageBits(o, a), MessageBits(o, b), s, 8)
    ensures Fold(t, a, crc) != Fold(t, b, crc)
  {
    CrcIsSerial(o, p, t, a, crc);
    CrcIsSerial(o, p, t, b, crc);
    ConstantTerm(o, p);
    if MessageBits(o, a) == MessageBits(o, b) {
      MessageBitsInjective(o, a, b);
    }
    BurstDetected(Bits(o, p), Bits(o, crc), MessageBits(o, a), MessageBits(o, b), s);
  }

  function XorBytes(a: seq<byte>, b: seq<byte>): (r: seq<byte>)
    requires |a| == |b|
    ensures |r| == |a|
  {
    seq(|a|, i requires 0 <= i < |a| => XorByte(a[i], b[i]))
  }

  lemma {:induction false} MessageBitsXor(o: Order, a: seq<byte>, b: seq<byte>)
    requires |a| == |b|
    ensures MessageBits(o, XorBytes(a, b)) == Xor(MessageBits(o, a), MessageBits(o, b))
  {
    if a == [] {
    } else {
      var n := |a| - 1;
      MessageBitsXor(o, a[..n], b[..n]);
      assert XorBytes(a, b)[..n] == XorBytes(a[..n], b[..n]);
      BitsXor(o, a[n], b[n]);
      XorConcat(MessageBits(o, a[..n]), Bits(o, a[n]), MessageBits(o, b[..n]), Bits(o, b[n]));
    }
  }

  /** The checksum of an exclusive or is the exclusive or of the checksums. */
  lemma CrcLinear(o: Order, p: byte, t: seq<byte>, a: seq<byte>, b: seq<byte>, x: byte, y: byte)
    requires IsTable(o, p, t) && |a| == |b|
    ensures Fold(t, XorBytes(a, b), XorByte(x, y)) == XorByte(Fold(t, a, x), Fold(t, b, y))
  {
    CrcIsSerial(o, p, t, a, x);
    CrcIsSerial(o, p, t, b, y);
    CrcIsSerial(o, p, t, XorBytes(a, b), XorByte(x, y));
    MessageBitsXor(o, a, b);
    BitsXor(o, x, y);
    BitsXor(o, Fold(t, a, x), Fold(t, b, y));
    SerialLinear(Bits(o, p), Bits(o, x), Bits(o, y), MessageBits(o, a), MessageBits(o, b));
    BitsInjective(o, Fold(t, XorBytes(a, b), XorByte(x, y)), XorByte(Fold(t, a, x), Fold(t, b, y)));
  }

  /** The lsb table of the bit-reversed polynomial is the bit-reversal of the msb table. */
  lemma TablesMirror(p: byte, t: seq<byte>, u: seq<byte>, b: byte)
    requires IsTable(Msb, p, t) && IsTable(Lsb, ReverseByte(p), u)
    ensures u[ReverseByte(b)] == ReverseByte(t[b])
  {
    BitsOfNumber(Lsb, Bits(Msb, p));
    BitsOfNumber(Lsb, Bits(Msb, b));
    BitsOfNumber(Lsb, Bits(Msb, t[b]));
    BitsSteps(Msb, p, b, 8);
    BitsSteps(Lsb, ReverseByte(p), ReverseByte(b), 8);
    BitsInjective(Lsb, u[ReverseByte(b)], ReverseByte(t[b]));
  }
}
