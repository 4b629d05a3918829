/**
 `Decimal128` of bson/decimal128.py: the bit-by-bit packing of a decimal into the Binary Integer
 Decimal encoding (section 3.5.2 of IEEE 754-2008) and the way back.
 A decimal is taken as `decimal.Context.create_decimal` with the Decimal128 context leaves it, and
 `to_decimal` is followed up to its last call of that function, which is exact on these values.
 */
module Decimal {

  import opened Bytes
  import opened Bits

  const EXPONENT_BIAS := 6176
  const EXPONENT_MASK: nat := 0x6000000000000000
  const INF: nat := 0x7800000000000000
  const NAN: nat := 0x7C00000000000000
  const SNAN: nat := 0x7E00000000000000
  const SIGN: nat := 0x8000000000000000

  datatype Number =
    | Finite(sign: bool, coefficient: nat, exponent: int)
    | Infinity(sign: bool)
    | QuietNaN(sign: bool)
    | SignalingNaN(sign: bool)

  /** What the Decimal128 context admits: 34 digits, and exponents from -6176 to 6111. */
  predicate InContext(d: Number)
  {
    d.Finite? ==> d.coefficient < 10_000_000_000_000_000_000_000_000_000_000_000 && -6176 <= d.exponent <= 6111
  }

  /** The two 64-bit words. */
  datatype Words = Words(high: nat, low: nat)

  function SignBit(sign: bool): (b: nat) { if sign then 1 else 0 }

  // ---- the encoding as arithmetic -------------------------------------------------------

  function Assemble(sign: bool, biased: nat, high: nat): (r: nat)
  {
    Shl(SignBit(sign), 63) + (Shl(biased, 49) + high)
  }

  /** Sign, fourteen bits of exponent and 113 bits of coefficient, from the top. */
  function Pack(d: Number): (r: Words)
    requires InContext(d)
  {
    match d
    case Infinity(sign) => Words(INF + SignBit(sign) * SIGN, 0)
    case QuietNaN(sign) => Words(NAN + SignBit(sign) * SIGN, 0)
    case SignalingNaN(sign) => Words(SNAN + SignBit(sign) * SIGN, 0)
    case Finite(sign, coefficient, exponent) =>
      Words(Assemble(sign, exponent + EXPONENT_BIAS, Shr(coefficient, 64)), Low(coefficient, 64))
  }

  /** The meaning of any two words: a coefficient under the prefix 11 is read as zero. */
  function Unpack(w: Words): (d: Number)
  {
    var sign := Field(w.high, 63, 1) == 1;
    if Field(w.high, 57, 6) == 63 then SignalingNaN(sign)
    else if Field(w.high, 58, 5) == 31 then QuietNaN(sign)
    else if Field(w.high, 59, 4) == 15 then Infinity(sign)
    else if Field(w.high, 61, 2) == 3 then Finite(sign, 0, Field(w.high, 47, 14) - EXPONENT_BIAS)
    else Finite(sign, Shl(Low(w.high, 49), 64) + w.low, Field(w.high, 49, 14) - EXPONENT_BIAS)
  }

  // ---- fields of a word -----------------------------------------------------------------

  lemma {:induction false} FieldSplit(n: nat, k: nat, a: nat, b: nat)
    ensures Field(n, k, a + b) == Field(n, k + a, b) * Pow2(a) + Field(n, k, a)
  {
    LowGrows(Shr(n, k), a, b);
    ShrTwice(n, k, a);
  }

  lemma {:induction false} SmallPowers()
    ensures Pow2(1) == 2 && Pow2(2) == 4 && Pow2(3) == 8 && Pow2(4) == 16 && Pow2(5) == 32 && Pow2(6) == 64
    ensures Pow2(8) == 256 && Pow2(12) == 4096 && Pow2(14) == 16384 && Pow2(16) == 65536
  {
    Pow2Adds(4, 4);
    Pow2Adds(8, 4);
    Pow2Adds(8, 6);
    Pow2Adds(8, 8);
  }

  lemma {:induction false} LargePowers()
    ensures Pow2(45) == 0x2000_0000_0000 && Pow2(47) == 0x8000_0000_0000 && Pow2(48) == 0x1_0000_0000_0000
    ensures Pow2(49) == 0x2_0000_0000_0000 && Pow2(63) == SIGN && Pow2(64) == 0x1_0000_0000_0000_0000
    ensures Pow2(57) == 0x200_0000_0000_0000 && Pow2(58) == 0x400_0000_0000_0000
    ensures Pow2(59) == 0x800_0000_0000_0000 && Pow2(61) == 0x2000_0000_0000_0000
    ensures Pow2(113) == 0x2_0000_0000_0000_0000_0000_0000_0000
  {
    hide Pow2;
    SmallPowers();
    Pow2Adds(16, 16);
    Pow2Adds(32, 12);
    Pow2Adds(44, 1);
    Pow2Adds(45, 2);
    Pow2Adds(47, 1);
    Pow2Adds(45, 4);
    Pow2Adds(49, 8);
    Pow2Adds(57, 1);
    Pow2Adds(57, 2);
    Pow2Adds(57, 4);
    Pow2Adds(49, 14);
    Pow2Adds(48, 16);
    Pow2Adds(64, 49);
  }

  /** The constants of the program are runs of ones. */
  lemma {:induction false} MaskValues()
    ensures Mask(63, 1) == SIGN && Mask(57, 6) == SNAN && Mask(58, 5) == NAN && Mask(59, 4) == INF
    ensures Mask(61, 2) == EXPONENT_MASK
    ensures Mask(45, 16) == 0x1FFFE00000000000 && Mask(47, 16) == 0x7FFF800000000000
    ensures Mask(48, 1) == 0x0001000000000000
  {
    hide Pow2;
    SmallPowers();
    LargePowers();
  }

  lemma {:induction false} ProductsAscend(a: nat, b: nat, p: nat)
    requires p > 0
    ensures a < b ==> a * p < b * p
  {
    if a < b {
      assert (b - a) * p > 0;
    }
  }

  /** A field tested with a mask. */
  lemma {:induction false} MaskedEquals(n: nat, k: nat, w: nat)
    ensures And(n, Mask(k, w)) == Mask(k, w) <==> Field(n, k, w) == Pow2(w) - 1
  {
    hide And, Field, Pow2;
    AndMask(n, k, w);
    ProductsAscend(Field(n, k, w), Pow2(w) - 1, Pow2(k));
  }

  /** The words of a packed finite decimal, field by field. */
  lemma {:induction false} PackedFields(sign: bool, biased: nat, h: nat)
    requires biased < 12288 && h < Pow2(49)
    ensures var high := Assemble(sign, biased, h);
            && Low(high, 49) == h && Field(high, 49, 14) == biased && Field(high, 63, 1) == SignBit(sign)
            && Field(high, 61, 2) < 3 && high < Pow2(64)
  {
    hide Pow2, Shr, Low;
    var s := SignBit(sign);
    var high := Assemble(sign, biased, h);
    SmallPowers();
    LargePowers();
    var upper := s * Pow2(14) + biased;
    assert high == upper * Pow2(49) + h;
    Join(upper, h, 49);
    Join(s, biased, 14);
    ShrTwice(high, 49, 14);
    SmallIsLow(s, 1);
    FieldSplit(high, 49, 12, 2);
  }

  /** Inf, NaN and the long-coefficient form all need the prefix 11. */
  lemma {:induction false} SpecialsHavePrefix(high: nat)
    requires Field(high, 61, 2) < 3
    ensures Field(high, 57, 6) != 63 && Field(high, 58, 5) != 31 && Field(high, 59, 4) != 15
  {
    hide Pow2, Field;
    SmallPowers();
    FieldSplit(high, 57, 4, 2);
    FieldSplit(high, 58, 3, 2);
    FieldSplit(high, 59, 2, 2);
  }

  lemma {:induction false} CoefficientFits(c: nat)
    requires c < 10_000_000_000_000_000_000_000_000_000_000_000
    ensures Shr(c, 64) < Pow2(49)
  {
    hide Pow2, Shr, Low;
    LargePowers();
    Split(c, 64);
  }

  // ---- round trips ----------------------------------------------------------------------

  lemma {:induction false} Distribute(a: nat, b: nat, p: nat)
    ensures (a + b) * p == a * p + b * p
  {
  }

  /** A run of ones that ends below the sign, with zeros beneath it. */
  lemma {:induction false} SpecialWord(sign: bool, ones: nat, k: nat)
    requires k < 63 && ones == Pow2(63 - k) - 1
    ensures var n := ones * Pow2(k) + SignBit(sign) * Pow2(63);
            Field(n, k, 63 - k) == ones && Field(n, 63, 1) == SignBit(sign) && Low(n, k) == 0
  {
    hide Pow2, Shr, Low;
    var s := SignBit(sign);
    var n := ones * Pow2(k) + s * Pow2(63);
    var upper := s * Pow2(63 - k) + ones;
    Pow2Adds(63 - k, k);
    assert s * Pow2(63) == (s * Pow2(63 - k)) * Pow2(k);
    Distribute(s * Pow2(63 - k), ones, Pow2(k));
    Join(upper, 0, k);
    Join(s, ones, 63 - k);
    ShrTwice(n, k, 63 - k);
    SmallPowers();
    SmallIsLow(s, 1);
  }

  /** With zeros below bit `k`, so are the bits of a field that ends there. */
  lemma {:induction false} ZeroTail(n: nat, from: nat, w: nat)
    requires Low(n, from + w) == 0
    ensures Field(n, from, w) == 0
  {
    hide Pow2, Shr, Low;
    LowGrows(n, from, w);
    ProductsAscend(0, Field(n, from, w), Pow2(from));
  }

  lemma {:induction false} SpecialFields(sign: bool)
    ensures Unpack(Words(INF + SignBit(sign) * SIGN, 0)) == Infinity(sign)
    ensures Unpack(Words(NAN + SignBit(sign) * SIGN, 0)) == QuietNaN(sign)
    ensures Unpack(Words(SNAN + SignBit(sign) * SIGN, 0)) == SignalingNaN(sign)
  {
    hide Pow2, Field, Low;
    SmallPowers();
    LargePowers();
    SpecialWord(sign, 15, 59);
    SpecialWord(sign, 31, 58);
    SpecialWord(sign, 63, 57);
    var i, n := INF + SignBit(sign) * SIGN, NAN + SignBit(sign) * SIGN;
    ZeroTail(i, 58, 1);
    ZeroTail(i, 57, 2);
    ZeroTail(n, 57, 1);
    FieldSplit(i, 58, 1, 4);
    FieldSplit(i, 57, 2, 4);
    FieldSplit(n, 57, 1, 5);
  }

  /** Every decimal of the context survives, with its sign, every digit and its exponent. */
  lemma {:induction false} UnpackPack(d: Number)
    requires InContext(d)
    ensures Unpack(Pack(d)) == d
  {
    hide Pow2, Field, Low, Shr;
    match d
    case Finite(sign, coefficient, exponent) =>
      var biased := exponent + EXPONENT_BIAS;
      CoefficientFits(coefficient);
      PackedFields(sign, biased, Shr(coefficient, 64));
      SpecialsHavePrefix(Pack(d).high);
      Split(coefficient, 64);
    case Infinity(sign) => SpecialFields(sign);
    case QuietNaN(sign) => SpecialFields(sign);
    case SignalingNaN(sign) => SpecialFields(sign);
  }

  lemma {:induction false} PackIsInjective(a: Number, b: Number)
    requires InContext(a) && InContext(b) && Pack(a) == Pack(b)
    ensures a == b
  {
    UnpackPack(a);
    UnpackPack(b);
  }

  /** Words that `_decimal_to_128` could have produced for a finite decimal. */
  predicate Canonical(w: Words)
  {
    Field(w.high, 61, 2) < 3 && InContext(Unpack(w))
  }

  /** On canonical words of a finite decimal reading and packing again changes nothing. */
  lemma {:induction false} PackUnpack(w: Words)
    requires w.high < Pow2(64) && w.low < Pow2(64) && Canonical(w)
    ensures Pack(Unpack(w)) == w
  {
    var high := w.high;
    hide Pow2, Low, Shr;
    SpecialsHavePrefix(high);
    LargePowers();
    SmallPowers();
    Join(Low(high, 49), w.low, 64);
    Split(high, 49);
    var upper := Shr(high, 49);
    Split(upper, 14);
    ShrTwice(high, 49, 14);
    TopBit(high);
    Pow2Adds(49, 14);
    assert (Shr(upper, 14) * Pow2(14)) * Pow2(49) == Shr(upper, 14) * Pow2(63);
    assert upper * Pow2(49) == Shr(upper, 14) * Pow2(63) + Low(upper, 14) * Pow2(49);
  }

  lemma {:induction false} TopBit(high: nat)
    requires high < Pow2(64)
    ensures Shr(high, 63) == Field(high, 63, 1) <= 1
  {
    ShrTwice(high, 63, 1);
    SmallIsLow(high, 64);
    SmallPowers();
    Split(Shr(high, 63), 1);
    SmallIsLow(Shr(high, 63), 1);
  }

  // ---- every word, by range -------------------------------------------------------------

  /** What two words mean, by comparing the first without its sign bit. */
  function ByRange(sign: bool, rest: nat, low: nat): (d: Number)
  {
    if rest >= 0x7E00_0000_0000_0000 then SignalingNaN(sign)
    else if rest >= 0x7C00_0000_0000_0000 then QuietNaN(sign)
    else if rest >= 0x7800_0000_0000_0000 then Infinity(sign)
    else if rest >= 0x6000_0000_0000_0000 then
      Finite(sign, 0, (rest - 0x6000_0000_0000_0000) / 0x8000_0000_0000 - 6176)
    else Finite(sign, rest % 0x2_0000_0000_0000 * 0x1_0000_0000_0000_0000 + low, rest / 0x2_0000_0000_0000 - 6176)
  }

  /** The bits between `k` and the sign. */
  lemma {:induction false} BelowSign(s: nat, rest: nat, k: nat)
    requires s <= 1 && rest < Pow2(63) && k < 63
    ensures var high := Shl(s, 63) + rest;
            && Field(high, k, 63 - k) == rest / Pow2(k) && Low(high, k) == rest % Pow2(k)
  {
    hide Pow2, Shr, Low;
    var q, r := Shr(rest, k), Low(rest, k);
    Split(rest, k);
    Pow2Adds(63 - k, k);
    assert s * Pow2(63) == (s * Pow2(63 - k)) * Pow2(k);
    Distribute(s * Pow2(63 - k), q, Pow2(k));
    Join(s * Pow2(63 - k) + q, r, k);
    QuotientFits(rest, k);
    Join(s, q, 63 - k);
    QuotientAndRest(rest, k);
  }

  lemma {:induction false} QuotientAndRest(n: nat, k: nat)
    ensures Shr(n, k) == n / Pow2(k) && Low(n, k) == n % Pow2(k)
  {
    hide Pow2, Shr, Low;
    Split(n, k);
    DivMod(Shr(n, k), Low(n, k), Pow2(k));
  }

  lemma {:induction false} DivMod(q: nat, r: nat, p: nat)
    requires r < p
    ensures (q * p + r) / p == q && (q * p + r) % p == r
  {
    var n := q * p + r;
    assert n == n / p * p + n % p;
    ProductsAscend(q + 1, n / p, p);
    ProductsAscend(n / p + 1, q, p);
  }

  lemma {:induction false} QuotientFits(n: nat, k: nat)
    requires n < Pow2(63) && k < 63
    ensures Shr(n, k) < Pow2(63 - k)
  {
    hide Pow2, Shr, Low;
    Pow2Adds(63 - k, k);
    Split(n, k);
    if Shr(n, k) >= Pow2(63 - k) {
      ProductsAscend(Pow2(63 - k), Shr(n, k), Pow2(k));
    }
  }

  /** Which words are NaN, infinite, zero by their form, or carry a coefficient, and which. */
  lemma {:induction false} UnpackIsByRange(sign: bool, rest: nat, low: nat)
    requires rest < 0x8000_0000_0000_0000
    ensures Unpack(Words(SignBit(sign) * 0x8000_0000_0000_0000 + rest, low)) == ByRange(sign, rest, low)
  {
    hide Pow2, Field, Low;
    SmallPowers();
    LargePowers();
    var s := SignBit(sign);
    BelowSign(s, rest, 57);
    BelowSign(s, rest, 58);
    BelowSign(s, rest, 59);
    BelowSign(s, rest, 61);
    BelowSign(s, rest, 49);
    BelowSign(s, rest, 47);
    FieldSplit(s * SIGN + rest, 47, 14, 2);
    JustSign(s, rest);
  }

  lemma {:induction false} JustSign(s: nat, rest: nat)
    requires s <= 1 && rest < Pow2(63)
    ensures Field(Shl(s, 63) + rest, 63, 1) == s
  {
    hide Pow2, Shr, Low;
    Join(s, rest, 63);
    SmallPowers();
    SmallIsLow(s, 1);
  }

  predicate IsSpecialWord(w: Words)
  {
    w.low == 0 && (w.high == INF || w.high == INF + SIGN || w.high == NAN || w.high == NAN + SIGN
                   || w.high == SNAN || w.high == SNAN + SIGN)
  }

  /** A finite decimal under the prefix 11, whose coefficient is read as zero. */
  predicate LongForm(w: Words) { Field(w.high, 61, 2) == 3 }

  /** Without the prefix 11 and with at most 34 digits, or one of the six special values. */
  predicate Preferred(w: Words)
  {
    || (Field(w.high, 61, 2) < 3
        && Shl(Low(w.high, 49), 64) + w.low < 10_000_000_000_000_000_000_000_000_000_000_000)
    || IsSpecialWord(w)
  }

  /** The words come back from reading and packing. */
  predicate Repacks(w: Words) { InContext(Unpack(w)) && Pack(Unpack(w)) == w }

  /** Which 128-bit words come back, among all of them. */
  lemma {:induction false} RepacksIff(w: Words)
    requires w.high < Pow2(64) && w.low < Pow2(64)
    ensures Repacks(w) <==> Preferred(w)
  {
    hide Pow2, Field, Low, Shr;
    SpecialFields(true);
    SpecialFields(false);
    if Field(w.high, 61, 2) < 3 {
      SpecialsHavePrefix(w.high);
      ExponentInRange(w.high);
      SpecialsAreLarge(w);
      if InContext(Unpack(w)) {
        PackUnpack(w);
      }
    } else if Unpack(w).Finite? && InContext(Unpack(w)) {
      var d := Unpack(w);
      CoefficientFits(d.coefficient);
      PackedFields(d.sign, d.exponent + EXPONENT_BIAS, Shr(d.coefficient, 64));
    }
  }

  /** Preferred words mean a decimal of the context, and a finite one is not in the long form. */
  lemma {:induction false} PreferredIsInContext(w: Words)
    ensures Preferred(w) ==> InContext(Unpack(w)) && (Unpack(w).Finite? ==> !LongForm(w))
  {
    hide Pow2, Field, Low, Shr;
    SpecialFields(true);
    SpecialFields(false);
    if Field(w.high, 61, 2) < 3 {
      SpecialsHavePrefix(w.high);
      ExponentInRange(w.high);
      SpecialsAreLarge(w);
    }
  }

  lemma {:induction false} PackIsBounded(d: Number)
    requires InContext(d)
    ensures Pack(d).high < TWO_64 && Pack(d).low < TWO_64
  {
    hide Pow2, Field, Low, Shr;
    LargePowers();
    if d.Finite? {
      CoefficientFits(d.coefficient);
      PackedFields(d.sign, d.exponent + EXPONENT_BIAS, Shr(d.coefficient, 64));
    }
  }

  /** Without the prefix 11 the exponent is in range. */
  lemma {:induction false} ExponentInRange(high: nat)
    requires Field(high, 61, 2) < 3
    ensures Field(high, 49, 14) < 12288
  {
    hide Pow2, Field;
    SmallPowers();
    FieldSplit(high, 49, 12, 2);
  }

  lemma {:induction false} SpecialsAreLarge(w: Words)
    requires Field(w.high, 61, 2) < 3
    ensures !IsSpecialWord(w)
  {
    hide Pow2, Field, Low, Shr, Shl;
    SpecialsHavePrefix(w.high);
    SpecialFields(true);
    SpecialFields(false);
  }

  // ---- _decimal_to_128 ------------------------------------------------------------------

  /** The exponent is put above the coefficient, or, were the coefficient longer, into the other form. */
  function PlaceExponent(high: nat, biased: nat): (r: nat)
  {
    if Shr(high, 49) == 1 then
      Or(Or(And(high, 0x7FFFFFFFFFFF), EXPONENT_MASK), Shl(And(biased, 0x3FFF), 47))
    else Or(high, Shl(biased, 49))
  }

  method DecimalTo128(value: Number) returns (w: Words)
    requires InContext(value)
    ensures w == Pack(value) && w.high < Pow2(64) && w.low < Pow2(64)
  {
    hide And, Or, Shr, Low, Pow2;
    match value
    case Infinity(sign) =>
      LargePowers();
      return Words(if sign then INF + SIGN else INF, 0);
    case QuietNaN(sign) =>
      LargePowers();
      return Words(if sign then NAN + SIGN else NAN, 0);
    case SignalingNaN(sign) =>
      LargePowers();
      return Words(if sign then SNAN + SIGN else SNAN, 0);
    case Finite(sign, significand, exponent) =>
      var low := LowWord(significand);
      var high := HighWord(significand);
      CoefficientFits(significand);
      var biased := exponent + EXPONENT_BIAS;
      PlacedExponent(high, biased);
      high := PlaceExponent(high, biased);
      LargePowers();
      PlacedSign(high);
      high := if sign then Or(high, SIGN) else high;
      PackedFields(sign, biased, Shr(significand, 64));
      return Words(high, low);
  }

  /** The first loop. */
  method LowWord(significand: nat) returns (low: nat)
    ensures low == Low(significand, 64)
  {
    hide And, Or, Shr, Pow2, Shl;
    var bitLength := BitLength(significand);
    low := 0;
    var n := if 64 < bitLength then 64 else bitLength;
    assert Low(significand, 0) == 0;
    for i := 0 to n
      invariant low == Low(significand, i)
    {
      TestBit(significand, i);
      OrIsSum(low, 1, i);
      if And(significand, Shl(1, i)) != 0 {
        low := Or(low, Shl(1, i));
      }
    }
    BitLengthBounds(significand);
    if bitLength < 64 {
      Pow2Ascends(bitLength, 64);
      SmallIsLow(significand, bitLength);
      SmallIsLow(significand, 64);
    }
  }

  /** The second loop. */
  method HighWord(significand: nat) returns (high: nat)
    ensures high == Shr(significand, 64)
  {
    hide And, Or, Shr, Pow2, Low, BitLength;
    var bitLength := BitLength(significand);
    BitLengthBounds(significand);
    high := 0;
    ghost var rest := Shr(significand, 64);
    if 64 < bitLength {
      NoLowBits(rest);
      for i := 64 to bitLength
        invariant high == Low(rest, i - 64)
      {
        HighBit(significand, i);
        OrIsSum(high, 1, i - 64);
        if And(significand, Shl(1, i)) != 0 {
          high := Or(high, Shl(1, i - 64));
        }
      }
      ShrTwice(significand, 64, bitLength - 64);
      SmallIsLow(significand, bitLength);
      Split(rest, bitLength - 64);
    } else {
      Pow2Ascends(bitLength, 64);
      SmallIsLow(significand, 64);
    }
  }

  /** Bit `i` of the significand is bit `i - 64` of its upper part. */
  lemma {:induction false} HighBit(significand: nat, i: nat)
    requires i >= 64
    ensures var rest := Shr(significand, 64);
            && (And(significand, Shl(1, i)) != 0 <==> Field(rest, i - 64, 1) == 1)
            && Low(rest, i - 64 + 1) == Low(rest, i - 64) + Field(rest, i - 64, 1) * Pow2(i - 64)
            && Field(rest, i - 64, 1) <= 1
  {
    hide And, Shr, Pow2, Low;
    TestBit(significand, i);
    TestBit(Shr(significand, 64), i - 64);
    ShrTwice(significand, 64, i - 64);
  }

  lemma {:induction false} NoLowBits(n: nat)
    ensures Low(n, 0) == 0
  {
  }

  /** A coefficient of the context never reaches the long form. */
  lemma {:induction false} PlacedExponent(high: nat, biased: nat)
    requires high < Pow2(49)
    ensures Shr(high, 49) == 0 && PlaceExponent(high, biased) == biased * Pow2(49) + high
  {
    hide Or, Shl, Pow2;
    SmallIsLow(high, 49);
    OrIsSum(high, biased, 49);
  }

  lemma {:induction false} PlacedSign(high: nat)
    ensures high < Pow2(63) ==> Or(high, SIGN) == high + Pow2(63)
  {
    hide Pow2, Or;
    LargePowers();
    if high < Pow2(63) {
      OrIsSum(high, 1, 63);
    }
  }

  // ---- to_decimal -----------------------------------------------------------------------

  /** `int.from_bytes(s, "big")`. */
  function FromBe(s: Bytes): (v: nat)
  {
    if s == [] then 0 else Shl(s[0], 8 * (|s| - 1)) + FromBe(s[1..])
  }

  /** A byte cut out with a moving mask. */
  lemma {:induction false} ByteAt(n: nat, j: nat)
    ensures Shr(And(n, Shl(255, 8 * j)), 8 * j) == Field(n, 8 * j, 8) < 256
  {
    hide Pow2, Shr, Low, And;
    SmallPowers();
    assert Mask(8 * j, 8) == Shl(255, 8 * j);
    AndMask(n, 8 * j, 8);
    Join(Field(n, 8 * j, 8), 0, 8 * j);
  }

  lemma {:induction false} FromBeStep(s: Bytes)
    requires s != []
    ensures FromBe(s) == Shl(s[0], 8 * (|s| - 1)) + FromBe(s[1..])
  {
  }

  lemma {:induction false} NoBytes(n: nat)
    ensures FromBe([]) == 0 && Low(n, 0) == 0 && Shl(n, 0) == n
  {
  }

  lemma {:induction false} MaskMoves(j: nat)
    ensures Shl(Shl(255, 8 * j), 8) == Shl(255, 8 * (j + 1))
  {
    Pow2Adds(8 * j, 8);
    assert 255 * Pow2(8 * j) * Pow2(8) == 255 * (Pow2(8 * j) * Pow2(8));
  }

  /** The eight bytes of the low word, from the end of the array. */
  method LowBytes(arr: array<byte>, low: nat)
    requires arr.Length == 15 && low < Pow2(64)
    modifies arr
    ensures FromBe(arr[7..]) == low
  {
    hide Pow2, Shr, Low, And, Field, FromBe;
    var mask := 255;
    NoBytes(255);
    NoBytes(low);
    assert arr[15..] == [];
    for i := 15 downto 7
      invariant mask == Shl(255, 8 * (15 - i))
      invariant FromBe(arr[i..]) == Low(low, 8 * (15 - i))
    {
      ghost var j := 14 - i;
      ByteAt(low, j);
      LowGrows(low, 8 * j, 8);
      ghost var tail := arr[i + 1..];
      arr[i] := Shr(And(low, mask), 8 * (14 - i));
      assert arr[i..][1..] == tail;
      FromBeStep(arr[i..]);
      MaskMoves(j);
      mask := Shl(mask, 8);
    }
    SmallIsLow(low, 64);
  }

  /** The lowest six bytes of the high word, before those. */
  method HighBytes(arr: array<byte>, high: nat)
    requires arr.Length == 15
    modifies arr
    ensures FromBe(arr[1..]) == Shl(Low(high, 48), 64) + old(FromBe(arr[7..]))
  {
    hide Pow2, Shr, Low, And, Field, FromBe;
    var mask := 255;
    NoBytes(255);
    NoBytes(high);
    for i := 7 downto 1
      invariant mask == Shl(255, 8 * (7 - i))
      invariant FromBe(arr[i..]) == Shl(Low(high, 8 * (7 - i)), 64) + old(FromBe(arr[7..]))
    {
      ghost var j := 6 - i;
      ByteAt(high, j);
      ghost var tail := arr[i + 1..];
      arr[i] := Shr(And(high, mask), 8 * (6 - i));
      assert arr[i..][1..] == tail;
      FromBeStep(arr[i..]);
      ByteAbove(high, 8 * j, 8);
      MaskMoves(j);
      mask := Shl(mask, 8);
    }
  }

  /** A field of the high word counts 64 bits higher. */
  lemma {:induction false} ByteAbove(high: nat, k: nat, w: nat)
    ensures Shl(Low(high, k + w), 64) == Shl(Field(high, k, w), k + 64) + Shl(Low(high, k), 64)
  {
    hide Pow2, Shr, Low, Field;
    LowGrows(high, k, w);
    Pow2Adds(k, 64);
    Distribute(Field(high, k, w) * Pow2(k), Low(high, k), Pow2(64));
    assert Field(high, k, w) * Pow2(k) * Pow2(64) == Field(high, k, w) * (Pow2(k) * Pow2(64));
  }

  /** `to_decimal`, up to its final `create_decimal`. */
  method ToDecimal(w: Words) returns (d: Number)
    requires w.high < Pow2(64) && w.low < Pow2(64)
    ensures d == Unpack(w)
  {
    hide Pow2, Shr, Low, And, Field, FromBe, Shl, Mask;
    var high, low := w.high, w.low;
    MaskValues();
    MasksTested(high);
    var sign := And(high, SIGN) != 0;
    if And(high, SNAN) == SNAN {
      return SignalingNaN(sign);
    } else if And(high, NAN) == NAN {
      return QuietNaN(sign);
    } else if And(high, INF) == INF {
      return Infinity(sign);
    }
    if And(high, EXPONENT_MASK) == EXPONENT_MASK {
      return Finite(sign, 0, Shr(And(high, 0x1FFFE00000000000), 47) - EXPONENT_BIAS);
    }
    var exponent := Shr(And(high, 0x7FFF800000000000), 49) - EXPONENT_BIAS;
    var arr := new byte[15];
    LowBytes(arr, low);
    HighBytes(arr, high);
    ghost var tail := arr[1..];
    arr[0] := Shr(And(high, 0x0001000000000000), 48);
    assert arr[..][1..] == tail;
    FromBeStep(arr[..]);
    ByteAbove(high, 48, 1);
    return Finite(sign, FromBe(arr[..]), exponent);
  }

  /** What the tests and shifts of `to_decimal` come to. */
  lemma {:induction false} MasksTested(high: nat)
    ensures And(high, SIGN) != 0 <==> Field(high, 63, 1) == 1
    ensures And(high, SNAN) == SNAN <==> Field(high, 57, 6) == 63
    ensures And(high, NAN) == NAN <==> Field(high, 58, 5) == 31
    ensures And(high, INF) == INF <==> Field(high, 59, 4) == 15
    ensures And(high, EXPONENT_MASK) == EXPONENT_MASK <==> Field(high, 61, 2) == 3
    ensures Shr(And(high, 0x1FFFE00000000000), 47) == Field(high, 47, 14)
    ensures Shr(And(high, 0x7FFF800000000000), 49) == Field(high, 49, 14)
    ensures Shr(And(high, 0x0001000000000000), 48) == Field(high, 48, 1) <= 1
  {
    hide Pow2, Shr, Low, And, Field, Mask;
    SmallPowers();
    MaskValues();
    MaskedEquals(high, 57, 6);
    MaskedEquals(high, 58, 5);
    MaskedEquals(high, 59, 4);
    MaskedEquals(high, 61, 2);
    SignTested(high);
    ShiftedField(high, 45, 2, 14);
    ShiftedField(high, 47, 2, 14);
    ShiftedField(high, 48, 0, 1);
  }

  lemma {:induction false} SignTested(high: nat)
    ensures And(high, Mask(63, 1)) != 0 <==> Field(high, 63, 1) == 1
  {
    TestBit(high, 63);
    assert Mask(63, 1) == Shl(1, 63);
  }

  /** Masking a field and shifting past its lowest `a` bits leaves the rest of it. */
  lemma {:induction false} ShiftedField(n: nat, k: nat, a: nat, b: nat)
    ensures Shr(And(n, Mask(k, a + b)), k + a) == Field(n, k + a, b)
  {
    hide Pow2, Shr, Low, And, Mask;
    AndMask(n, k, a + b);
    var f := Field(n, k, a + b);
    Join(f, 0, k);
    ShrTwice(f * Pow2(k), k, a);
    FieldSplit(n, k, a, b);
    Join(Field(n, k + a, b), Field(n, k, a), a);
  }

  /** The program's own round trip, over every decimal of the context. */
  method DecimalRoundTrip(value: Number) returns (back: Number)
    requires InContext(value)
    ensures back == value
  {
    var w := DecimalTo128(value);
    UnpackPack(value);
    back := ToDecimal(w);
  }

  // ---- bid ------------------------------------------------------------------------------

  /** `bid`. */
  function Bid(w: Words): (s: Bytes)
    ensures |s| == 16
  {
    Le(w.low, 8) + Le(w.high, 8)
  }

  /** `from_bid`; None stands for the ValueError on any other length. */
  function FromBid(s: Bytes): (r: Option<Words>)
  {
    if |s| != 16 then None else Some(Words(FromLe(s[8..]), FromLe(s[..8])))
  }

  lemma {:induction false} FromBidOfBid(w: Words)
    requires w.high < TWO_64 && w.low < TWO_64
    ensures FromBid(Bid(w)) == Some(w)
  {
    Pow256Values();
    LeRoundTrip(w.low, 8);
    LeRoundTrip(w.high, 8);
    assert Bid(w)[..8] == Le(w.low, 8) && Bid(w)[8..] == Le(w.high, 8);
  }

  lemma {:induction false} BidOfFromBid(s: Bytes)
    requires |s| == 16
    ensures FromBid(s).Some? && Bid(FromBid(s).value) == s
    ensures FromBid(s).value.high < TWO_64 && FromBid(s).value.low < TWO_64
  {
    Pow256Values();
    FromLeRoundTrip(s[..8]);
    FromLeRoundTrip(s[8..]);
    assert s[..8] + s[8..] == s;
  }
}
