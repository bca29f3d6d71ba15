/** Variable length numbers (section 7.6 of DWARF 3) and how they are decoded with int-wide shifts. */
module Leb128 {
  import opened Sequences

  function Pow2(n: nat): nat
    ensures Pow2(n) >= 1
  {
    if n == 0 then 1 else 2 * Pow2(n - 1)
  }

  /** The value of 7 * k bits. */
  function Pow128(k: nat): nat
    ensures Pow128(k) >= 1
  {
    if k == 0 then 1 else 128 * Pow128(k - 1)
  }

  lemma Pow2Of7(k: nat)
    ensures Pow2(7 * k) == Pow128(k)
  {
    if k == 0 {
    } else {
      var n := 7 * k;
      Pow2Of7(k - 1);
      assert Pow2(n) == 2 * Pow2(n - 1) == 4 * Pow2(n - 2) == 8 * Pow2(n - 3);
      assert Pow2(n - 3) == 2 * Pow2(n - 4) == 4 * Pow2(n - 5) == 8 * Pow2(n - 6) == 16 * Pow2(n - 7);
    }
  }

  lemma Pow2Is64()
    ensures Pow2(64) == TWO64
  {
    SmallPowers();
    hide Pow2;
    Pow2Add(8, 8);
    Pow2Add(16, 16);
    Pow2Add(32, 32);
  }

  lemma {:induction false} Pow2Add(m: nat, n: nat)
    ensures Pow2(m + n) == Pow2(m) * Pow2(n)
  {
    if m == 0 {
    } else {
      Pow2Add(m - 1, n);
      assert Pow2(m + n) == 2 * Pow2(m - 1 + n);
      DoubleProduct(Pow2(m - 1), Pow2(n));
    }
  }

  lemma DoubleProduct(a: int, b: int)
    ensures (2 * a) * b == 2 * (a * b)
  {
  }

  lemma PowZero()
    ensures Pow2(0) == 1
  {
  }

  lemma PowBelow64(n: nat)
    requires n <= 64
    ensures Pow2(n) <= 0x1_0000_0000_0000_0000
  {
    Pow2Is64();
    Pow2Grows(n, 64);
  }

  lemma Pow2Grows(m: nat, n: nat)
    requires m <= n
    ensures Pow2(m) <= Pow2(n)
  {
    if n <= m {
    } else {
      Pow2Grows(m, n - 1);
    }
  }

  lemma SmallPowers()
    ensures Pow2(7) == 128 && Pow2(8) == 256
  {
    assert Pow2(4) == 16;
  }

  // ----- bitwise or -----

  function BitOr(a: nat, b: nat): nat
    decreases a + b
  {
    if a == 0 && b == 0 then 0
    else (if a % 2 == 1 || b % 2 == 1 then 1 else 0) + 2 * BitOr(a / 2, b / 2)
  }

  lemma BitOrZero(b: nat)
    ensures BitOr(0, b) == b
  {
  }

  /** Numbers without a common bit are added by `|`. */
  lemma {:induction false} BitOrDisjoint(a: nat, c: nat, n: nat)
    requires a < Pow2(n)
    ensures BitOr(a, c * Pow2(n)) == a + c * Pow2(n)
    decreases n
  {
    if n == 0 {
      BitOrZero(c);
    } else {
      var b := c * Pow2(n);
      assert b == 2 * (c * Pow2(n - 1));
      BitOrDisjoint(a / 2, c, n - 1);
    }
  }

  // ----- reading -----

  /** A read is defined with a value and the position after it, or the program has left the
      defined: the bytes end too early, or a shift does not fit its type. */
  datatype Reading = Defined(value: nat, next: nat) | Undefined

  const TWO31: nat := 0x8000_0000
  const TWO64: nat := 0x1_0000_0000_0000_0000

  /** `(byte & 0x7f) << shift`. */
  function Shifted(byte: Byte, shift: nat): nat {
    (byte % 128) * Pow2(shift)
  }

  /** The shift is computed in a 32-bit int. */
  predicate FitsInt(digit: nat, shift: nat) {
    shift < 32 && digit * Pow2(shift) < TWO31
  }

  /** The digits of a number from position p on, the first one worth 128^k. */
  function DigitsFrom(mem: seq<Byte>, p: nat, k: nat): Reading
    decreases |mem| - p
  {
    if p >= |mem| || !FitsInt(mem[p] % 128, 7 * k) then Undefined
    else
      var x := Shifted(mem[p], 7 * k);
      if mem[p] < 128 then Defined(x, p + 1)
      else
        match DigitsFrom(mem, p + 1, k + 1)
        case Undefined => Undefined
        case Defined(y, q) => Defined(x + y, q)
  }

  /** A signed number: the digits, and the sign extension of the last one if its bit 6 is set. */
  function SignedFrom(mem: seq<Byte>, p: nat, k: nat): Reading
    decreases |mem| - p
  {
    if p >= |mem| || !FitsInt(mem[p] % 128, 7 * k) then Undefined
    else
      var x := Shifted(mem[p], 7 * k);
      if mem[p] < 128 then
        var shift := 7 * k + 7;
        if mem[p] < 64 then Defined(x, p + 1)
        else if shift < 32 then
          PowBelow64(shift);
          Defined(x + (TWO64 - Pow2(shift)), p + 1)
        else Undefined
      else
        match SignedFrom(mem, p + 1, k + 1)
        case Undefined => Undefined
        case Defined(y, q) => Defined(x + y, q)
  }

  /** Adds digits that have already been read. */
  function Plus(sum: nat, r: Reading): Reading {
    if r.Defined? then Defined(sum + r.value, r.next) else Undefined
  }

  /** One more digit, put above the bits read so far. */
  lemma NextDigit(result: nat, byte: Byte, shift: nat)
    requires result < Pow2(shift)
    ensures BitOr(result, Shifted(byte, shift)) == result + Shifted(byte, shift) < Pow2(shift + 7)
  {
    var digit := byte % 128;
    BitOrDisjoint(result, digit, shift);
    Pow2Add(7, shift);
    SmallPowers();
    hide Pow2, BitOr;
    ScaledDigit(result, digit, Pow2(shift));
  }

  lemma ScaledDigit(result: nat, digit: nat, unit: nat)
    requires result < unit && digit < 128
    ensures result + digit * unit < 128 * unit
  {
    assert (digit + 1) * unit <= 128 * unit;
    assert (digit + 1) * unit == digit * unit + unit;
  }

  method ReadULEB128(mem: seq<Byte>, data: nat) returns (r: Reading)
    ensures r == DigitsFrom(mem, data, 0)
  {
    hide Pow2, BitOr, FitsInt, Shifted;
    var result: nat, shift: nat, p := 0, 0, data;
    ghost var k := 0;
    assert Pow2(0) == 1 by { PowZero(); }
    while true
      invariant shift == 7 * k && result < Pow2(shift)
      invariant DigitsFrom(mem, data, 0) == Plus(result, DigitsFrom(mem, p, k))
      decreases |mem| - p
    {
      if p >= |mem| || !FitsInt(mem[p] % 128, shift) {
        return Undefined;
      }
      var byte := mem[p];
      p := p + 1;
      NextDigit(result, byte, shift);
      result := BitOr(result, Shifted(byte, shift));
      shift := shift + 7;
      k := k + 1;
      if byte < 128 {
        return Defined(result, p);
      }
    }
  }

  lemma FitsBelow32(digit: nat, shift: nat)
    ensures FitsInt(digit, shift) ==> shift < 32
  {
  }

  method ReadSLEB128(mem: seq<Byte>, data: nat) returns (r: Reading)
    ensures r == SignedFrom(mem, data, 0)
  {
    hide Pow2, BitOr, FitsInt, Shifted;
    var result: nat, shift: nat, p := 0, 0, data;
    ghost var k := 0;
    assert Pow2(0) == 1 by { PowZero(); }
    while true
      invariant shift == 7 * k && result < Pow2(shift)
      invariant SignedFrom(mem, data, 0) == Plus(result, SignedFrom(mem, p, k))
      decreases |mem| - p
    {
      if p >= |mem| || !FitsInt(mem[p] % 128, shift) {
        return Undefined;
      }
      var byte := mem[p];
      p := p + 1;
      FitsBelow32(byte % 128, shift);
      NextDigit(result, byte, shift);
      result := BitOr(result, Shifted(byte, shift));
      shift := shift + 7;
      k := k + 1;
      if byte < 128 {
        if byte >= 64 && shift < 64 {
          if shift >= 32 {
            return Undefined;
          }
          SignBits(result, shift);
          result := BitOr(result, TWO64 - Pow2(shift));
        }
        return Defined(result, p);
      }
    }
  }

  /** All bits from `shift` up to 63. */
  lemma SignBits(result: nat, shift: nat)
    requires result < Pow2(shift) && shift <= 64
    ensures Pow2(shift) <= TWO64 && BitOr(result, TWO64 - Pow2(shift)) == result + (TWO64 - Pow2(shift))
  {
    hide Pow2, BitOr;
    Pow2Is64();
    Pow2Add(64 - shift, shift);
    var c := Pow2(64 - shift) - 1;
    OneLess(Pow2(64 - shift), Pow2(shift));
    PowBelow64(shift);
    BitOrDisjoint(result, c, shift);
  }

  lemma OneLess(a: int, b: int)
    ensures (a - 1) * b == a * b - b
  {
  }

  // ----- encoding, and reading back -----

  /** The unsigned encoding: seven bits a byte, low ones first, bit 7 set on all but the last. */
  function EncodeU(v: nat): (r: seq<Byte>)
    ensures |r| >= 1
  {
    if v < 128 then [v] else [v % 128 + 128] + EncodeU(v / 128)
  }

  /** The signed encoding, ending with a byte whose bit 6 is the sign. */
  function EncodeS(n: int): (r: seq<Byte>)
    ensures |r| >= 1
    decreases if n < 0 then -n else n
  {
    if -64 <= n < 64 then [n % 128] else [n % 128 + 128] + EncodeS(n / 128)
  }

  /** `code` stands in mem at p. */
  ghost predicate CodeAt(mem: seq<Byte>, p: nat, code: seq<Byte>) {
    p + |code| <= |mem| && mem[p..p + |code|] == code
  }

  lemma Placed(before: seq<Byte>, code: seq<Byte>, after: seq<Byte>)
    ensures CodeAt(before + code + after, |before|, code)
  {
  }

  lemma CodeTail(mem: seq<Byte>, p: nat, first: Byte, rest: seq<Byte>)
    requires CodeAt(mem, p, [first] + rest)
    ensures p < |mem| && mem[p] == first && CodeAt(mem, p + 1, rest)
  {
    var code := [first] + rest;
    assert mem[p] == mem[p..p + |code|][0];
    assert mem[p + 1..p + 1 + |rest|] == mem[p..p + |code|][1..];
  }

  /** Digits that fit, for the positions that can fit: a number shifted by 7 * k fits in an int. */
  predicate UnsignedFits(v: nat, k: nat) {
    k <= 4 && v * Pow128(k) < TWO31
  }

  lemma UnitValues()
    ensures Pow128(0) == 1 && Pow128(1) == 128 && Pow128(2) == 16384 && Pow128(3) == 2097152
    ensures Pow128(4) == 268435456 && Pow128(5) == 34359738368
  {
    assert Pow128(2) == 128 * Pow128(1);
    assert Pow128(4) == 128 * Pow128(3);
  }

  lemma FitsIntAt(digit: nat, k: nat)
    requires digit < 128
    ensures FitsInt(digit, 7 * k) <==> UnsignedFits(digit, k)
    ensures digit * Pow2(7 * k) == digit * Pow128(k)
  {
    Pow2Of7(k);
  }

  lemma SplitFits(v: nat, k: nat)
    requires v >= 128
    ensures UnsignedFits(v, k) <==> UnsignedFits(v % 128, k) && UnsignedFits(v / 128, k + 1)
    ensures v * Pow128(k) == (v % 128) * Pow128(k) + (v / 128) * Pow128(k + 1)
  {
    SplitProduct(v, 128, Pow128(k));
    UnitValues();
    hide Pow128;
    if k == 0 { } else if k == 1 { } else if k == 2 { } else if k == 3 { } else if k == 4 { }
  }

  lemma SplitProduct(v: int, base: nat, unit: nat)
    requires base > 0
    ensures v * unit == (v % base) * unit + (v / base) * (base * unit)
  {
    assert v == v % base + base * (v / base);
    assert (v % base + base * (v / base)) * unit == (v % base) * unit + (v / base) * (base * unit);
  }

  lemma LowBits(digit: nat)
    requires digit < 128
    ensures (digit + 128) % 128 == digit
  {
  }

  lemma LastDigit(mem: seq<Byte>, p: nat, k: nat)
    requires p < |mem| && mem[p] < 128
    ensures DigitsFrom(mem, p, k) == if UnsignedFits(mem[p], k) then Defined(mem[p] * Pow128(k), p + 1) else Undefined
  {
    FitsIntAt(mem[p], k);
  }

  lemma MoreDigits(mem: seq<Byte>, p: nat, k: nat)
    requires p < |mem| && mem[p] >= 128
    ensures var digit := mem[p] % 128;
            DigitsFrom(mem, p, k) == if UnsignedFits(digit, k) then Plus(digit * Pow128(k), DigitsFrom(mem, p + 1, k + 1)) else Undefined
  {
    FitsIntAt(mem[p] % 128, k);
  }

  /** Reading an unsigned encoding gives back the number and stops just behind it exactly when
      the number fits, at its position, in an int. */
  lemma {:induction false} DigitsOfEncoding(mem: seq<Byte>, p: nat, v: nat, k: nat)
    requires CodeAt(mem, p, EncodeU(v))
    ensures DigitsFrom(mem, p, k) ==
            if UnsignedFits(v, k) then Defined(v * Pow128(k), p + |EncodeU(v)|) else Undefined
    decreases v
  {
    hide Pow128, Pow2, FitsInt, UnsignedFits, DigitsFrom;
    if v < 128 {
      CodeTail(mem, p, v, []);
      LastDigit(mem, p, k);
    } else {
      CodeTail(mem, p, v % 128 + 128, EncodeU(v / 128));
      MoreDigits(mem, p, k);
      LowBits(v % 128);
      DigitsOfEncoding(mem, p + 1, v / 128, k + 1);
      SplitFits(v, k);
    }
  }

  /** Round trip: an unsigned number is read back exactly when it is below 2^31. */
  lemma UnsignedRoundTrip(before: seq<Byte>, v: nat, after: seq<Byte>)
    ensures DigitsFrom(before + EncodeU(v) + after, |before|, 0) ==
            if v < TWO31 then Defined(v, |before| + |EncodeU(v)|) else Undefined
  {
    hide DigitsFrom, EncodeU;
    Placed(before, EncodeU(v), after);
    DigitsOfEncoding(before + EncodeU(v) + after, |before|, v, 0);
  }

  /** A number read as 64 bits in two's complement. */
  function Unsigned64(n: int): nat
    requires -(TWO64 as int) <= n
  {
    if n < 0 then TWO64 + n else n
  }

  predicate SignedFits(n: int, k: nat) {
    k <= 4 && -0x800_0000 <= n * Pow128(k) < TWO31
  }

  lemma SignedLast(n: int, k: nat)
    requires -64 <= n < 64
    ensures SignedFits(n, k) <==> UnsignedFits(n % 128, k) && (n < 0 ==> 7 * k + 7 < 32)
    ensures SignedFits(n, k) ==> Pow128(k + 1) <= TWO64
    ensures SignedFits(n, k) ==>
              Unsigned64(n * Pow128(k)) == (n % 128) * Pow128(k) + (if n < 0 then TWO64 - Pow128(k + 1) else 0)
  {
    UnitValues();
    assert n % 128 == if n < 0 then n + 128 else n;
    hide Pow128;
    if k == 0 { } else if k == 1 { } else if k == 2 { } else if k == 3 { } else if k == 4 { }
  }

  lemma SignedSplit(n: int, k: nat)
    requires n < -64 || n >= 64
    ensures SignedFits(n, k) <==> UnsignedFits(n % 128, k) && SignedFits(n / 128, k + 1)
    ensures n * Pow128(k) == (n % 128) * Pow128(k) + (n / 128) * Pow128(k + 1)
  {
    SplitProduct(n, 128, Pow128(k));
    UnitValues();
    hide Pow128;
    if k == 0 { } else if k == 1 { } else if k == 2 { } else if k == 3 { } else if k == 4 { }
  }

  lemma LastSigned(mem: seq<Byte>, p: nat, k: nat)
    requires p < |mem| && mem[p] < 128
    ensures 7 * k + 7 < 32 ==> Pow128(k + 1) <= TWO64
    ensures SignedFrom(mem, p, k) ==
            if !UnsignedFits(mem[p], k) then Undefined
            else if mem[p] < 64 then Defined(mem[p] * Pow128(k), p + 1)
            else if 7 * k + 7 < 32 then Defined(mem[p] * Pow128(k) + (TWO64 - Pow128(k + 1)), p + 1)
            else Undefined
  {
    FitsIntAt(mem[p], k);
    Pow2Of7(k + 1);
    if 7 * k + 7 < 32 { PowBelow64(7 * k + 7); }
  }

  lemma MoreSigned(mem: seq<Byte>, p: nat, k: nat)
    requires p < |mem| && mem[p] >= 128
    ensures var digit := mem[p] % 128;
            SignedFrom(mem, p, k) == if UnsignedFits(digit, k) then Plus(digit * Pow128(k), SignedFrom(mem, p + 1, k + 1)) else Undefined
  {
    FitsIntAt(mem[p] % 128, k);
  }

  /** What reading the signed encoding of n at position p of mem gives, its first digit worth 128^k. */
  ghost predicate ReadsSigned(mem: seq<Byte>, p: nat, n: int, k: nat) {
    SignedFrom(mem, p, k) ==
      if SignedFits(n, k) then Defined(Unsigned64(n * Pow128(k)), p + |EncodeS(n)|) else Undefined
  }

  lemma {:induction false} SignedOfEncoding(mem: seq<Byte>, p: nat, n: int, k: nat)
    requires CodeAt(mem, p, EncodeS(n))
    ensures ReadsSigned(mem, p, n, k)
    decreases if n < 0 then -n else n
  {
    if -64 <= n < 64 {
      CodeTail(mem, p, n % 128, []);
      LastReads(mem, p, n, k);
    } else {
      CodeTail(mem, p, n % 128 + 128, EncodeS(n / 128));
      SignedOfEncoding(mem, p + 1, n / 128, k + 1);
      MoreReads(mem, p, n, k);
    }
  }

  lemma LastReads(mem: seq<Byte>, p: nat, n: int, k: nat)
    requires -64 <= n < 64 && p < |mem| && mem[p] == n % 128
    ensures ReadsSigned(mem, p, n, k)
  {
    LastSigned(mem, p, k);
    SignedLast(n, k);
    SignOfByte(n);
    hide Pow128, Pow2, UnsignedFits, SignedFits, SignedFrom;
  }

  lemma SignOfByte(n: int)
    requires -64 <= n < 64
    ensures n % 128 < 64 <==> n >= 0
  {
  }

  lemma MoreReads(mem: seq<Byte>, p: nat, n: int, k: nat)
    requires (n < -64 || n >= 64) && p < |mem| && mem[p] == n % 128 + 128
    requires ReadsSigned(mem, p + 1, n / 128, k + 1)
    ensures ReadsSigned(mem, p, n, k)
  {
    hide Pow128, Pow2, UnsignedFits, SignedFits, SignedFrom, EncodeS;
    MoreSigned(mem, p, k);
    LowBits(n % 128);
    SignedSplit(n, k);
    SignOfProduct(n, Pow128(k));
    SignOfProduct(n / 128, Pow128(k + 1));
    EncodeSMore(n);
    if SignedFits(n, k) {
      FitsIn64(n, k);
      FitsIn64(n / 128, k + 1);
      TwosComplementSum(n * Pow128(k), (n % 128) * Pow128(k), (n / 128) * Pow128(k + 1));
    }
  }

  lemma EncodeSMore(n: int)
    requires n < -64 || n >= 64
    ensures |EncodeS(n)| == 1 + |EncodeS(n / 128)| && (n < 0 <==> n / 128 < 0)
  {
  }

  lemma SignOfProduct(n: int, unit: nat)
    requires unit > 0
    ensures n * unit < 0 <==> n < 0
  {
  }

  lemma FitsIn64(n: int, k: nat)
    requires SignedFits(n, k)
    ensures -(TWO64 as int) <= n * Pow128(k)
  {
  }

  /** Two's complement numbers of the same sign are sums of their digits. */
  lemma TwosComplementSum(n: int, digit: nat, rest: int)
    requires n == digit + rest && (n < 0 <==> rest < 0) && -(TWO64 as int) <= rest
    ensures Unsigned64(n) == digit + Unsigned64(rest)
  {
  }

  /** Round trip: a signed number is read back, in two's complement, exactly when it is in
      [-2^27, 2^31): the sign of a longer negative number would need a shift by 35. */
  lemma SignedRoundTrip(before: seq<Byte>, n: int, after: seq<Byte>)
    ensures SignedFrom(before + EncodeS(n) + after, |before|, 0) ==
            if -0x800_0000 <= n < TWO31 then Defined(Unsigned64(n), |before| + |EncodeS(n)|) else Undefined
  {
    hide SignedFrom, EncodeS;
    Placed(before, EncodeS(n), after);
    SignedOfEncoding(before + EncodeS(n) + after, |before|, n, 0);
  }
}
