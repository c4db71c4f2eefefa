/** Strict string-to-integer conversion, compat-wireless/compat/kstrtox.c, against a description by
    value: the longest run of digits, what follows it, and the number it denotes. */
module Kstrtox {
  import opened Words

  const ULL: nat := 0x1_0000_0000_0000_0000
  const LLONG: nat := 0x8000_0000_0000_0000
  const NEWLINE := 10

  datatype Outcome = Ok(value: int) | Einval | Erange

  // ----- characters of a C string -----

  /** Character `i`; behind the last one there is the terminator. */
  function At(s: seq<byte>, i: nat): byte {
    if i < |s| then s[i] else 0
  }

  /** Bit 5 set. */
  function ToLower(c: byte): byte {
    if (c as int / 32) % 2 == 1 then c else c as int + 32
  }

  /** The value of a digit character, or 16. */
  function Digit(c: byte): (r: nat)
    ensures r <= 16
  {
    if 48 <= c <= 57 then c - 48
    else if 65 <= c <= 70 then c - 55
    else if 97 <= c <= 102 then c - 87
    else 16
  }

  lemma LowerCaseDigit(c: byte)
    ensures 97 <= ToLower(c) <= 102 <==> 65 <= c <= 70 || 97 <= c <= 102
    ensures 97 <= ToLower(c) <= 102 ==> ToLower(c) - 87 == Digit(c)
  {}

  // ----- meaning -----

  /** The longest run of digits below `base` from position `i`. */
  function Digits(s: seq<byte>, i: nat, base: nat): (d: seq<nat>)
    ensures i + |d| <= |s| || d == []
    ensures forall j :: 0 <= j < |d| ==> d[j] < base && d[j] < 16
    decreases |s| - i
  {
    if i < |s| && Digit(s[i]) < 16 && Digit(s[i]) < base then [Digit(s[i])] + Digits(s, i + 1, base) else []
  }

  /** The number that digits denote, most significant first. */
  function Value(d: seq<nat>, base: nat): nat {
    if d == [] then 0 else Value(d[..|d| - 1], base) * base + d[|d| - 1]
  }

  /** The end of the string, or a newline and then the end. */
  predicate Ends(s: seq<byte>, i: nat) {
    At(s, i) == 0 || (At(s, i) == NEWLINE && At(s, i + 1) == 0)
  }

  predicate HexPrefix(s: seq<byte>, i: nat) {
    At(s, i) == 48 && (At(s, i + 1) == 120 || At(s, i + 1) == 88)
  }

  /** Base 0 stands for the base that the string itself announces. */
  function Radix(s: seq<byte>, i: nat, base: nat): (b: nat)
    ensures b > 0
  {
    if base > 0 then base
    else if At(s, i) != 48 then 10
    else if HexPrefix(s, i) && Digit(At(s, i + 2)) < 16 then 16
    else 8
  }

  /** The digits from position `start`: first whether they denote a number that fits, then whether there
      are any and nothing else follows. */
  function Scan(s: seq<byte>, start: nat, base: nat): Outcome {
    var d := Digits(s, start, base);
    if Value(d, base) >= ULL then Erange
    else if d == [] || !Ends(s, start + |d|) then Einval
    else Ok(Value(d, base))
  }

  /** The unsigned number at position `i`, in the given or announced base. */
  function Number(s: seq<byte>, i: nat, base: nat): Outcome {
    var b := Radix(s, i, base);
    Scan(s, if b == 16 && HexPrefix(s, i) then i + 2 else i, b)
  }

  /** An optional plus sign and a number. */
  function Unsigned(s: seq<byte>, base: nat): Outcome {
    Number(s, if At(s, 0) == 43 then 1 else 0, base)
  }

  /** A signed number in the range of 64 bits. Minus zero is not one. */
  function Signed(s: seq<byte>, base: nat): Outcome {
    if At(s, 0) == 45 then
      match Number(s, 1, base)
      case Ok(v) => if 1 <= v <= LLONG then Ok(-v) else Erange
      case e => e
    else
      match Unsigned(s, base)
      case Ok(v) => if v < LLONG then Ok(v) else Erange
      case e => e
  }

  function Within(o: Outcome, lo: int, hi: int): Outcome {
    match o
    case Ok(v) => if lo <= v < hi then o else Erange
    case _ => o
  }

  // ----- the conversion loop -----

  lemma ProductMono(a: nat, b: nat, c: nat)
    requires a >= b
    ensures a * c >= b * c
  {}

  lemma OverflowTest(acc: nat, base: nat, val: nat)
    requires base > 0 && val < 16
    ensures acc > (ULL - 1 - val) / base <==> acc * base + val >= ULL
  {
    var m := ULL - 1 - val;
    var q := m / base;
    assert m == q * base + m % base;
    if acc > q {
      ProductMono(acc, q + 1, base);
      assert (q + 1) * base == q * base + base;
    } else {
      ProductMono(q, acc, base);
    }
  }

  lemma {:induction false} ValueMono(d: seq<nat>, e: seq<nat>, base: nat)
    requires base > 0
    ensures Value(d, base) <= Value(d + e, base)
  {
    if e == [] {
      assert d + e == d;
    } else {
      var n := |e| - 1;
      ValueMono(d, e[..n], base);
      assert (d + e)[..|d + e| - 1] == d + e[..n];
      var v := Value(d + e[..n], base);
      ProductMono(base, 1, v);
      assert v * base == base * v;
    }
  }

  lemma ValueSnoc(d: seq<nat>, x: nat, base: nat)
    ensures Value(d + [x], base) == Value(d, base) * base + x
  {}

  /** The character test: a decimal digit, or a letter whose lower case is a hexadecimal digit. */
  method DigitValue(c: byte) returns (val: nat)
    ensures val == Digit(c)
  {
    LowerCaseDigit(c);
    if 48 <= c <= 57 {
      val := c - 48;
    } else if 97 <= ToLower(c) <= 102 {
      val := ToLower(c) - 97 + 10;
    } else {
      val := 16;
    }
  }

  /** One more digit, unless that would not fit. */
  method Accumulate(acc: nat, base: nat, val: nat, ghost seen: seq<nat>, ghost rest: seq<nat>) returns (fits: bool, r: nat)
    requires base > 0 && val < 16 && acc == Value(seen, base)
    ensures fits ==> r == Value(seen + [val], base) < ULL
    ensures !fits ==> Value(seen + ([val] + rest), base) >= ULL
  {
    OverflowTest(acc, base, val);
    ValueSnoc(seen, val, base);
    if acc > (ULL - 1 - val) / base {
      ValueMono(seen + [val], rest, base);
      assert seen + [val] + rest == seen + ([val] + rest);
      return false, acc;
    }
    return true, acc * base + val;
  }

  /** The loop of `_kstrtoull`. */
  method ParseDigits(s: seq<byte>, start: nat, base: nat) returns (rv: Outcome)
    requires base > 0
    ensures rv == Scan(s, start, base)
  {
    hide Value;
    var i, acc, ok := start, 0, false;
    ghost var d := Digits(s, start, base);
    ghost var seen: seq<nat> := [];
    ValueNone(base);
    while At(s, i) != 0
      invariant i == start + |seen| && d == seen + Digits(s, i, base)
      invariant acc == Value(seen, base) < ULL && ok == (seen != [])
      decreases |s| - i
    {
      var val := DigitValue(s[i]);
      assert val == 16 || val >= base ==> Digits(s, i, base) == [] && d == seen;
      if val == 16 {
        if s[i] == NEWLINE && At(s, i + 1) == 0 {
          break;
        }
        return Einval;
      }
      if val >= base {
        return Einval;
      }
      var fits;
      fits, acc := Accumulate(acc, base, val, seen, Digits(s, i + 1, base));
      if !fits {
        return Erange;
      }
      ok, i, seen := true, i + 1, seen + [val];
    }
    assert Digits(s, i, base) == [] && d == seen;
    if !ok {
      return Einval;
    }
    return Ok(acc);
  }

  lemma ValueNone(base: nat)
    ensures Value([], base) == 0
  {}

  /** `_kstrtoull` on the string from position `i0`. */
  method ParseNumber(s: seq<byte>, i0: nat, base0: nat, res0: int) returns (rv: Outcome, res: int)
    ensures rv == Number(s, i0, base0)
    ensures res == if rv.Ok? then rv.value else res0
  {
    hide Digit, Scan;
    res := res0;
    var i, base := i0, base0;
    if base == 0 {
      if At(s, i) == 48 {
        if ToLower(At(s, i + 1)) == 120 && Digit(At(s, i + 2)) < 16 {
          base := 16;
        } else {
          base := 8;
        }
      } else {
        base := 10;
      }
    }
    if base == 16 && At(s, i) == 48 && ToLower(At(s, i + 1)) == 120 {
      i := i + 2;
    }
    rv := ParseDigits(s, i, base);
    if rv.Ok? {
      res := rv.value;
    }
  }

  // ----- the exported conversions -----

  /** `kstrtoull` */
  method Kstrtoull(s: seq<byte>, base: nat, res0: int) returns (rv: Outcome, res: int)
    ensures rv == Unsigned(s, base)
    ensures res == if rv.Ok? then rv.value else res0
  {
    var i := 0;
    if At(s, 0) == 43 {
      i := 1;
    }
    rv, res := ParseNumber(s, i, base, res0);
  }

  /** The value of a 64-bit word read as a two's complement number. */
  function AsSigned(w: nat): int {
    if w < LLONG then w else w - ULL
  }

  /** `kstrtoll`, with its tests on the sign of 64-bit words. */
  method Kstrtoll(s: seq<byte>, base: nat, res0: int) returns (rv: Outcome, res: int)
    ensures rv == Signed(s, base)
    ensures res == if rv.Ok? then rv.value else res0
  {
    hide Scan;
    NumberFits(s, 1, base);
    NumberFits(s, if At(s, 0) == 43 then 1 else 0, base);
    res := res0;
    var tmp;
    if At(s, 0) == 45 {
      rv, tmp := ParseNumber(s, 1, base, 0);
      if !rv.Ok? {
        return;
      }
      var negated := (ULL - tmp) % ULL;
      if AsSigned(negated) >= 0 {
        return Erange, res;
      }
      res := AsSigned(negated);
    } else {
      rv, tmp := Kstrtoull(s, base, 0);
      if !rv.Ok? {
        return;
      }
      if AsSigned(tmp) < 0 {
        return Erange, res;
      }
      res := tmp;
    }
    rv := Ok(res);
  }

  lemma NumberFits(s: seq<byte>, i: nat, base: nat)
    ensures Number(s, i, base).Ok? ==> 0 <= Number(s, i, base).value < ULL
  {}

  /** `kstrtouint`, `kstrtou16`, `kstrtou8` and `_kstrtoul`: the cast to `bits` bits must lose nothing. */
  method KstrtoNarrowUnsigned(s: seq<byte>, base: nat, bits: nat, res0: int) returns (rv: Outcome, res: int)
    requires bits <= 64
    ensures rv == Within(Unsigned(s, base), 0, Pow2(bits))
    ensures rv.Ok? <==> Unsigned(s, base).Ok? && Unsigned(s, base).value < Pow2(bits)
    ensures rv.Ok? ==> rv == Unsigned(s, base) && 0 <= rv.value < Pow2(bits)
    ensures !rv.Ok? ==> rv == if Unsigned(s, base).Ok? then Erange else Unsigned(s, base)
    ensures res == if rv.Ok? then rv.value else res0
  {
    hide Scan;
    NumberFits(s, if At(s, 0) == 43 then 1 else 0, base);
    var tmp;
    rv, tmp := Kstrtoull(s, base, 0);
    res := res0;
    if !rv.Ok? {
      return;
    }
    CastKeeps(tmp, Pow2(bits));
    if tmp != tmp % Pow2(bits) {
      return Erange, res;
    }
    res := tmp;
  }

  lemma CastKeeps(x: int, m: nat)
    requires m > 0
    ensures x == x % m <==> 0 <= x < m
  {}

  /** Two's complement narrowing: the number congruent to `x` in the signed range of the width. */
  function SignedCast(x: int, half: nat): int
    requires half > 0
  {
    (x + half) % (2 * half) - half
  }

  lemma SignedCastKeeps(x: int, half: nat)
    requires half > 0
    ensures x == SignedCast(x, half) <==> 0 - half <= x < half
  {
    var y, m := x + half, 2 * half;
    CastKeeps(y, m);
    assert SignedCast(x, half) == y % m - half;
  }

  /** `kstrtoint`, `kstrtos16`, `kstrtos8` and `_kstrtol` */
  method KstrtoNarrowSigned(s: seq<byte>, base: nat, bits: nat, res0: int) returns (rv: Outcome, res: int)
    requires 1 <= bits <= 64
    ensures rv == Within(Signed(s, base), 0 - Pow2(bits - 1), Pow2(bits - 1))
    ensures rv.Ok? <==> Signed(s, base).Ok? && 0 - Pow2(bits - 1) <= Signed(s, base).value < Pow2(bits - 1)
    ensures rv.Ok? ==> rv == Signed(s, base)
    ensures !rv.Ok? ==> rv == if Signed(s, base).Ok? then Erange else Signed(s, base)
    ensures res == if rv.Ok? then rv.value else res0
  {
    var tmp;
    rv, tmp := Kstrtoll(s, base, 0);
    res := res0;
    if !rv.Ok? {
      return;
    }
    SignedCastKeeps(tmp, Pow2(bits - 1));
    if tmp != SignedCast(tmp, Pow2(bits - 1)) {
      return Erange, res;
    }
    res := tmp;
  }

  // ----- what is accepted -----

  /** A nonempty run of `n` digits, none of them too large for the base. */
  predicate Numeral(s: seq<byte>, start: nat, n: nat, base: nat) {
    && 0 < n && start + n <= |s|
    && forall i :: start <= i < start + n ==> Digit(s[i]) < 16 && Digit(s[i]) < base
  }

  function DigitValues(s: seq<byte>, start: nat, n: nat): (d: seq<nat>)
    requires start + n <= |s|
    ensures |d| == n
    decreases n
  {
    if n == 0 then [] else [Digit(s[start])] + DigitValues(s, start + 1, n - 1)
  }

  lemma {:induction false} DigitsOfNumeral(s: seq<byte>, start: nat, n: nat, base: nat)
    requires start + n <= |s| && Digit(At(s, start + n)) == 16
    requires forall i :: start <= i < start + n ==> Digit(s[i]) < 16 && Digit(s[i]) < base
    ensures Digits(s, start, base) == DigitValues(s, start, n)
    decreases n
  {
    if n == 0 {
    } else {
      DigitsOfNumeral(s, start + 1, n - 1, base);
    }
  }

  lemma {:induction false} DigitsAreNumeral(s: seq<byte>, start: nat, base: nat)
    ensures var d := Digits(s, start, base);
            d != [] ==> Numeral(s, start, |d|, base) && DigitValues(s, start, |d|) == d
    decreases |s| - start
  {
    if Digits(s, start, base) == [] {
    } else {
      DigitsAreNumeral(s, start + 1, base);
    }
  }

  /** A string is accepted if and only if it is a numeral, at most one newline after it, and of a value
      that fits; and then that value is the result. */
  lemma AcceptedExactly(s: seq<byte>, start: nat, base: nat, v: int)
    ensures Scan(s, start, base) == Ok(v) <==>
            exists n :: Numeral(s, start, n, base) && Ends(s, start + n) && Value(DigitValues(s, start, n), base) == v < ULL
  {
    hide Value;
    DigitsAreNumeral(s, start, base);
    forall n | Numeral(s, start, n, base) && Ends(s, start + n)
      ensures Digits(s, start, base) == DigitValues(s, start, n)
    {
      DigitsOfNumeral(s, start, n, base);
    }
    if Scan(s, start, base) == Ok(v) {
      var n := |Digits(s, start, base)|;
      assert Numeral(s, start, n, base);
    }
  }

  lemma {:induction false} DigitValuesPrefix(s: seq<byte>, start: nat, n: nat, base: nat)
    requires start + n <= |s|
    requires forall i :: start <= i < start + n ==> Digit(s[i]) < 16 && Digit(s[i]) < base
    ensures DigitValues(s, start, n) <= Digits(s, start, base)
    decreases n
  {
    if n == 0 {
    } else {
      DigitValuesPrefix(s, start + 1, n - 1, base);
    }
  }

  /** A range error if and only if the string starts with a numeral that does not fit, whatever follows. */
  lemma RangeErrorExactly(s: seq<byte>, start: nat, base: nat)
    requires base > 0
    ensures Scan(s, start, base) == Erange <==>
            exists n :: Numeral(s, start, n, base) && Value(DigitValues(s, start, n), base) >= ULL
  {
    hide Value;
    var d := Digits(s, start, base);
    ValueNone(base);
    DigitsAreNumeral(s, start, base);
    forall n | Numeral(s, start, n, base)
      ensures Value(DigitValues(s, start, n), base) <= Value(d, base)
    {
      DigitValuesPrefix(s, start, n, base);
      var v := DigitValues(s, start, n);
      ValueMono(v, d[|v|..], base);
      assert v + d[|v|..] == d;
    }
    if Value(d, base) >= ULL {
      assert Numeral(s, start, |d|, base) && DigitValues(s, start, |d|) == d;
    }
  }

  /** Where a number must start, a sign is refused: there is at most one, and none may be a minus in the
      unsigned conversions. */
  lemma SignRefused(s: seq<byte>, i: nat, base: nat)
    requires At(s, i) == 43 || At(s, i) == 45
    ensures Number(s, i, base) == Einval
    ensures i == 0 && At(s, 0) == 45 ==> Unsigned(s, base) == Einval
  {
    ValueNone(Radix(s, i, base));
  }

  // ----- printed numbers read back -----

  /** The digits of a number, most significant first, without leading zeros. */
  function DigitsOf(v: nat, base: nat): (d: seq<nat>)
    requires 2 <= base
    ensures |d| > 0 && forall i :: 0 <= i < |d| ==> d[i] < base
    decreases v
  {
    if v < base then [v] else QuotientSmaller(v, base); DigitsOf(v / base, base) + [v % base]
  }

  lemma QuotientSmaller(v: nat, base: nat)
    requires 2 <= base <= v
    ensures v / base < v && v % base < base
  {}

  lemma {:induction false} ValueOfDigits(v: nat, base: nat)
    requires 2 <= base
    ensures Value(DigitsOf(v, base), base) == v
    decreases v
  {
    hide Value;
    if v < base {
      ValueSnoc([], v, base);
      assert [] + [v] == [v];
      ValueNone(base);
    } else {
      QuotientSmaller(v, base);
      ValueOfDigits(v / base, base);
      ValueSnoc(DigitsOf(v / base, base), v % base, base);
      DivMod(v, base);
    }
  }

  lemma {:induction false} LeadingDigit(v: nat, base: nat)
    requires 2 <= base
    ensures DigitsOf(v, base)[0] == 0 <==> v == 0
    decreases v
  {
    if v < base {
    } else {
      QuotientSmaller(v, base);
      LeadingDigit(v / base, base);
      DivMod(v, base);
    }
  }

  lemma {:induction false} LeadingZero(d: seq<nat>, base: nat)
    ensures Value([0] + d, base) == Value(d, base)
  {
    if d == [] {
      ValueNone(base);
      ValueSnoc([], 0, base);
      assert [] + [0] == [0] + d;
    } else {
      var front, x := d[..|d| - 1], d[|d| - 1];
      LeadingZero(front, base);
      ValueSnoc([0] + front, x, base);
      assert [0] + front + [x] == [0] + d;
    }
  }

  function Glyph(x: nat, upper: bool): (c: byte)
    requires x < 16
    ensures Digit(c) == x && c != 0
  {
    if x < 10 then x + 48 else if upper then x + 55 else x + 87
  }

  function Text(d: seq<nat>, upper: bool): (t: seq<byte>)
    requires forall i :: 0 <= i < |d| ==> d[i] < 16
    ensures |t| == |d|
    ensures forall i :: 0 <= i < |d| ==> t[i] == Glyph(d[i], upper)
  {
    seq(|d|, i requires 0 <= i < |d| => Glyph(d[i], upper))
  }

  /** Digits in the middle of a string are found again, if no further digit follows them. */
  lemma {:induction false} DigitsFound(s: seq<byte>, i: nat, d: seq<nat>, base: nat, upper: bool)
    requires forall j :: 0 <= j < |d| ==> d[j] < 16 && d[j] < base
    requires i + |d| <= |s| && s[i..i + |d|] == Text(d, upper)
    requires Digit(At(s, i + |d|)) == 16
    ensures Digits(s, i, base) == d
    decreases |d|
  {
    if d == [] {
    } else {
      assert s[i] == s[i..i + |d|][0];
      assert s[i + 1..i + |d|] == s[i..i + |d|][1..] == Text(d[1..], upper);
      DigitsFound(s, i + 1, d[1..], base, upper);
      assert d == [d[0]] + d[1..];
    }
  }

  function Line(newline: bool): seq<byte> {
    if newline then [NEWLINE] else []
  }

  /** A number printed behind any prefix, with or without a newline after it. */
  lemma ScanFinds(pre: seq<byte>, d: seq<nat>, base: nat, upper: bool, newline: bool)
    requires d != [] && forall j :: 0 <= j < |d| ==> d[j] < 16 && d[j] < base
    requires Value(d, base) < ULL
    ensures Scan(pre + Text(d, upper) + Line(newline), |pre|, base) == Ok(Value(d, base))
  {
    hide Value;
    var s := pre + Text(d, upper) + Line(newline);
    assert s[|pre|..|pre| + |d|] == Text(d, upper);
    DigitsFound(s, |pre|, d, base, upper);
  }

  lemma ScanFindsFirst(d: seq<nat>, base: nat, upper: bool, newline: bool)
    requires d != [] && forall j :: 0 <= j < |d| ==> d[j] < 16 && d[j] < base
    requires Value(d, base) < ULL
    ensures Scan(Text(d, upper) + Line(newline), 0, base) == Ok(Value(d, base))
  {
    hide Value, Scan;
    ScanFinds([], d, base, upper, newline);
    assert [] + Text(d, upper) == Text(d, upper);
  }

  /** Reading inverts printing in every base from 2 to 16, whatever the case of the letters, with or
      without a plus sign and a newline. */
  lemma UnsignedRoundTrip(v: nat, base: nat, upper: bool, plus: bool, newline: bool)
    requires 2 <= base <= 16 && v < ULL
    ensures Unsigned((if plus then [43] else []) + Text(DigitsOf(v, base), upper) + Line(newline), base) == Ok(v)
  {
    hide Scan, DigitsOf;
    var pre: seq<byte> := if plus then [43] else [];
    var d := DigitsOf(v, base);
    var s := pre + Text(d, upper) + Line(newline);
    ValueOfDigits(v, base);
    ScanFinds(pre, d, base, upper, newline);
    assert s[|pre|] == Glyph(d[0], upper);
    assert |d| > 1 ==> s[|pre| + 1] == Glyph(d[1], upper);
  }

  /** Base 0: decimal text, hexadecimal text behind 0x or 0X and octal text behind 0 announce
      themselves. With base 16 the prefix is optional. */
  lemma AnnouncedRoundTrip(v: nat, upper: bool, newline: bool)
    requires v < ULL
    ensures Unsigned(Text(DigitsOf(v, 10), upper) + Line(newline), 0) == Ok(v)
    ensures Unsigned([48] + Text(DigitsOf(v, 8), upper) + Line(newline), 0) == Ok(v)
    ensures forall x, base :: x in {88, 120} && base in {0, 16} ==>
              Unsigned([48, x] + Text(DigitsOf(v, 16), upper) + Line(newline), base) == Ok(v)
  {
    DecimalAnnounced(v, upper, newline);
    OctalAnnounced(v, upper, newline);
    forall x, base | x in {88, 120} && base in {0, 16}
      ensures Unsigned([48, x] + Text(DigitsOf(v, 16), upper) + Line(newline), base) == Ok(v)
    {
      HexAnnounced(v, upper, newline, x, base);
    }
  }

  lemma DecimalAnnounced(v: nat, upper: bool, newline: bool)
    requires v < ULL
    ensures Unsigned(Text(DigitsOf(v, 10), upper) + Line(newline), 0) == Ok(v)
  {
    hide Scan;
    var d := DigitsOf(v, 10);
    var s := Text(d, upper) + Line(newline);
    LeadingDigit(v, 10);
    ValueOfDigits(v, 10);
    if v == 0 {
      ValueOfDigits(0, 8);
      ScanFindsFirst([0], 8, upper, newline);
    } else {
      ScanFindsFirst(d, 10, upper, newline);
      assert s[0] == Glyph(d[0], upper) && s[0] != 48;
    }
  }

  lemma OctalAnnounced(v: nat, upper: bool, newline: bool)
    requires v < ULL
    ensures Unsigned([48] + Text(DigitsOf(v, 8), upper) + Line(newline), 0) == Ok(v)
  {
    hide Scan, DigitsOf;
    var d := DigitsOf(v, 8);
    var z := [0] + d;
    var s := [48] + Text(d, upper) + Line(newline);
    ValueOfDigits(v, 8);
    LeadingZero(d, 8);
    ScanFindsFirst(z, 8, upper, newline);
    assert Text(z, upper) == [48] + Text(d, upper);
    assert s[0] == 48 && s[1] == Glyph(d[0], upper);
  }

  lemma HexAnnounced(v: nat, upper: bool, newline: bool, x: byte, base: nat)
    requires v < ULL && (x == 88 || x == 120) && (base == 0 || base == 16)
    ensures Unsigned([48, x] + Text(DigitsOf(v, 16), upper) + Line(newline), base) == Ok(v)
  {
    hide Scan, DigitsOf;
    var d := DigitsOf(v, 16);
    var s := [48, x] + Text(d, upper) + Line(newline);
    ValueOfDigits(v, 16);
    ScanFinds([48, x], d, 16, upper, newline);
    assert s[0] == 48 && s[1] == x && s[2] == Glyph(d[0], upper);
  }

  /** A number without a minus sign reads back exactly when it is below half of the unsigned range. */
  lemma PositiveRoundTrip(v: nat, base: nat, upper: bool, plus: bool, newline: bool)
    requires 2 <= base <= 16 && v < ULL
    ensures Signed((if plus then [43] else []) + Text(DigitsOf(v, base), upper) + Line(newline), base)
            == if v < LLONG then Ok(v) else Erange
  {
    hide Number, DigitsOf;
    UnsignedRoundTrip(v, base, upper, plus, newline);
    var d := DigitsOf(v, base);
    var s := (if plus then [43] else []) + Text(d, upper) + Line(newline);
    assert s[0] == if plus then 43 else Glyph(d[0], upper);
  }

  /** A negative number reads back exactly when it is in range and not zero: minus zero is refused. */
  lemma NegativeRoundTrip(v: nat, base: nat, upper: bool, newline: bool)
    requires 2 <= base <= 16
    ensures Signed([45] + Text(DigitsOf(v, base), upper) + Line(newline), base) == Ok(0 - v) <==> 1 <= v <= LLONG
  {
    hide Scan, DigitsOf;
    var d := DigitsOf(v, base);
    var s := [45] + Text(d, upper) + Line(newline);
    ValueOfDigits(v, base);
    assert s[1] == Glyph(d[0], upper);
    assert |d| > 1 ==> s[2] == Glyph(d[1], upper);
    if v < ULL {
      ScanFinds([45], d, base, upper, newline);
    } else {
      NumberFits(s, 1, base);
    }
  }

  function SignedText(v: int, base: nat, upper: bool): seq<byte>
    requires 2 <= base <= 16
  {
    if v < 0 then [45] + Text(DigitsOf(-v, base), upper) else Text(DigitsOf(v, base), upper)
  }

  lemma Pow2At63()
    ensures Pow2(63) == LLONG && Pow2(64) == ULL
  {
    Pow2At32();
    Pow2Add(31, 32);
  }

  /** Every conversion to a narrower type reads back every number of that type. */
  lemma NarrowRoundTrip(v: int, bits: nat, base: nat, upper: bool, newline: bool)
    requires 2 <= base <= 16 && 1 <= bits <= 64
    ensures 0 <= v < Pow2(bits) ==>
              Within(Unsigned(SignedText(v, base, upper) + Line(newline), base), 0, Pow2(bits)) == Ok(v)
    ensures 0 - Pow2(bits - 1) <= v < Pow2(bits - 1) ==>
              Within(Signed(SignedText(v, base, upper) + Line(newline), base), 0 - Pow2(bits - 1), Pow2(bits - 1)) == Ok(v)
  {
    hide Number, DigitsOf, Unsigned, Signed, Pow2;
    Pow2At63();
    Pow2Mono(bits, 64);
    Pow2Mono(bits - 1, 63);
    if 0 <= v < ULL {
      var t := Text(DigitsOf(v, base), upper);
      assert [] + t + Line(newline) == t + Line(newline);
      UnsignedRoundTrip(v, base, upper, false, newline);
      PositiveRoundTrip(v, base, upper, false, newline);
    } else if v < 0 {
      NegativeRoundTrip(-v, base, upper, newline);
    }
  }

  lemma MinusZero()
    ensures Signed([45, 48], 10) == Erange
  {}
}
