/** Conversion from floating point to 128-bit integers (libraries/builtins/fixdfti.c and
    fixsfti.c, which differ only in the format they are compiled for). */
module SoftFloat {

  import opened Bits

  datatype Format = Format(significandBits: nat, exponentBits: nat)

  const SINGLE := Format(23, 8)
  const DOUBLE := Format(52, 11)

  /** 2^127 and 2^128. */
  const HALF: int := 0x8000_0000_0000_0000_0000_0000_0000_0000
  const WHOLE: int := 0x1_0000_0000_0000_0000_0000_0000_0000_0000

  predicate Supported(f: Format) {
    0 < f.significandBits < 127 && 8 <= f.exponentBits
  }

  function Bias(f: Format): nat {
    Down(Ones(f.exponentBits), 1)
  }

  // ---------------------------------------------------------------------------------------
  // The value of a bit pattern
  // ---------------------------------------------------------------------------------------

  predicate Pattern(f: Format, a: nat) {
    a < Up(1, f.significandBits + f.exponentBits + 1)
  }

  function Mantissa(f: Format, a: nat): nat {
    Low(a, f.significandBits)
  }

  function Exponent(f: Format, a: nat): nat {
    Low(Down(a, f.significandBits), f.exponentBits)
  }

  predicate Negative(f: Format, a: nat) {
    Down(a, f.significandBits + f.exponentBits) != 0
  }

  /** Neither an infinity nor a NaN. */
  predicate Finite(f: Format, a: nat) {
    Exponent(f, a) + 1 < Up(1, f.exponentBits)
  }

  /** The magnitude of a finite value, exactly, in units of the smallest positive one. */
  function Magnitude(f: Format, a: nat): nat {
    if Exponent(f, a) == 0 then Mantissa(f, a)
    else Up(Up(1, f.significandBits) + Mantissa(f, a), Exponent(f, a) - 1)
  }

  /** One is this power of two of those units. */
  function UnitBits(f: Format): nat
    requires Supported(f)
  {
    BiasIs(f);
    Bias(f) - 1 + f.significandBits
  }

  /** The integer part of the magnitude. */
  function Whole(f: Format, a: nat): nat
    requires Supported(f)
  {
    Down(Magnitude(f, a), UnitBits(f))
  }

  lemma BiasIs(f: Format)
    requires 2 <= f.exponentBits
    ensures Bias(f) == Up(1, f.exponentBits - 1) - 1 && Bias(f) > 0
  {
    OnesAre(f.exponentBits - 1);
    assert Ones(f.exponentBits - 1) == 2 * Ones(f.exponentBits - 2) + 1;
    assert Down(Ones(f.exponentBits), 1) == Ones(f.exponentBits) / 2;
  }

  /** A sign, an exponent and a mantissa that are put together are read back. */
  lemma FieldsRead(f: Format, sign: nat, x: nat, m: nat)
    requires sign < 2 && x < Up(1, f.exponentBits) && m < Up(1, f.significandBits)
    ensures
      var w := Up(Up(sign, f.exponentBits) + x, f.significandBits) + m;
      && Pattern(f, w)
      && Negative(f, w) == (sign == 1)
      && Exponent(f, w) == x
      && Mantissa(f, w) == m
  {
    var s, e := f.significandBits, f.exponentBits;
    var w := Up(Up(sign, e) + x, s) + m;
    Splits(Up(sign, e) + x, m, s);
    Splits(sign, x, e);
    DownDown(w, s, e);
    DownBounds(w, 2, s + e);
    UpUp(1, 1, s + e);
    assert Up(1, 1) == 2;
  }

  // ---------------------------------------------------------------------------------------
  // The conversion
  // ---------------------------------------------------------------------------------------

  /** Two's complement of 128 bits. */
  function Wrap(x: int): int {
    var y := x % WHOLE;
    if y < HALF then y else y - WHOLE
  }

  function FixTi(f: Format, a: nat): int
    requires Supported(f) && Pattern(f, a)
  {
    var s := f.significandBits;
    var signBit := Up(1, s + f.exponentBits);
    var aAbs := And(a, Ones(s + f.exponentBits));
    var sign := if And(a, signBit) != 0 then -1 else 1;
    var exponent := Down(aAbs, s) - Bias(f);
    var significand := Or(And(aAbs, Ones(s)), Up(1, s));
    Convert(s, sign, exponent, significand)
  }

  /** The source's case distinction (lines 26-39). */
  function Convert(s: nat, sign: int, exponent: int, significand: nat): int {
    if exponent < 0 then 0
    else if exponent >= 128 then (if sign == 1 then HALF - 1 else -HALF)
    else if exponent < s then Wrap(sign * Down(significand, s - exponent))
    else Wrap(sign * Wrap(Up(significand, exponent - s)))
  }

  /** What the conversion makes of an integer part: correct below 2^127 and from 2^128 on. */
  function FromWhole(negative: bool, w: nat): int {
    if w < HALF then (if negative then 0 - w else w)
    else if w == HALF then -HALF
    else if w < WHOLE then (if negative then WHOLE - w else w - WHOLE)
    else if negative then -HALF
    else HALF - 1
  }

  lemma Up16(a: nat)
    ensures Up(a, 16) == 0x1_0000 * a
  {
    UpUp(a, 4, 4);
    UpSmall(a);
    UpSmall(Up(a, 4));
    var b := Up(a, 8);
    UpUp(a, 8, 8);
    UpUp(b, 4, 4);
    UpSmall(b);
    UpSmall(Up(b, 4));
  }

  lemma Up32(a: nat)
    ensures Up(a, 32) == 0x1_0000_0000 * a
  {
    UpUp(a, 16, 16);
    Up16(a);
    Up16(Up(a, 16));
  }

  lemma HalfIs()
    ensures Up(1, 127) == HALF && Up(1, 128) == WHOLE
  {
    Up32(1);
    UpUp(1, 32, 32);
    Up32(Up(1, 32));
    UpUp(1, 64, 32);
    Up32(Up(1, 64));
    UpUp(1, 96, 32);
    Up32(Up(1, 96));
  }

  /** The masks take the fields. */
  lemma FieldsAre(f: Format, a: nat)
    requires Supported(f) && Pattern(f, a)
    ensures
      var s, e := f.significandBits, f.exponentBits;
      var aAbs := And(a, Ones(s + e));
      && (And(a, Up(1, s + e)) != 0 <==> Negative(f, a))
      && Down(aAbs, s) == Exponent(f, a)
      && Or(And(aAbs, Ones(s)), Up(1, s)) == Up(1, s) + Mantissa(f, a)
  {
    var s, e := f.significandBits, f.exponentBits;
    AndLow(a, s + e);
    DownLow(a, s, e);
    AndLow(Low(a, s + e), s);
    Rejoins(a, s);
    OrAdds(1, Mantissa(f, a), s);
    TopBit(a, s + e);
  }

  /** The integer part, by shifting the significand; its highest bit is the exponent. */
  lemma WholeIs(f: Format, a: nat)
    requires Supported(f)
    ensures
      var s, x, w := f.significandBits, Exponent(f, a) - Bias(f), Whole(f, a);
      var significand := Up(1, s) + Mantissa(f, a);
      if x < 0 then w == 0
      else Up(1, x) <= w < Up(1, x + 1) && w == if x < s then Down(significand, s - x) else Up(significand, x - s)
  {
    var s, e, m := f.significandBits, Exponent(f, a), Mantissa(f, a);
    BiasIs(f);
    Rejoins(a, s);
    if e == 0 {
      UpLonger(1, s, UnitBits(f));
      Fits(m, UnitBits(f));
    } else {
      DownUp(Up(1, s) + m, e - 1, UnitBits(f));
      ShiftedSignificand(Up(1, s) + m, s, e - Bias(f));
    }
  }

  lemma ShiftedSignificand(m: nat, s: nat, x: int)
    requires Up(1, s) <= m < Up(1, s + 1)
    ensures x < 0 ==> Down(m, s - x) == 0
    ensures 0 <= x <= s ==> Up(1, x) <= Down(m, s - x) < Up(1, x + 1)
    ensures s <= x ==> Up(1, x) <= Up(m, x - s) < Up(1, x + 1)
  {
    if x < 0 {
      UpLonger(1, s + 1, s - x);
      Fits(m, s - x);
    } else if x <= s {
      DownBounds(m, Up(1, x), s - x);
      DownBounds(m, Up(1, x + 1), s - x);
      UpUp(1, x, s - x);
      UpUp(1, x + 1, s - x);
    }
    if s <= x {
      UpMonotone(Up(1, s), m, x - s);
      UpGrows(m, Up(1, s + 1), x - s);
      UpUp(1, s, x - s);
      UpUp(1, s + 1, x - s);
    }
  }

  lemma WrappedTwice(negative: bool, w: nat)
    requires w < WHOLE
    ensures Wrap((if negative then -1 else 1) * Wrap(w)) == FromWhole(negative, w)
    ensures w < HALF ==> Wrap((if negative then -1 else 1) * w) == FromWhole(negative, w)
  {
    assert (if negative then -1 else 1) * Wrap(w) == if negative then 0 - Wrap(w) else Wrap(w);
    assert (if negative then -1 else 1) * w == if negative then 0 - w else w;
  }

  lemma ConvertIs(s: nat, negative: bool, x: int, m: nat, w: nat)
    requires s < 127
    requires
      if x < 0 then w == 0
      else Up(1, x) <= w < Up(1, x + 1) && w == if x < s then Down(m, s - x) else Up(m, x - s)
    ensures Convert(s, if negative then -1 else 1, x, m) == FromWhole(negative, w)
  {
    HalfIs();
    if x >= 128 {
      UpLonger(1, 128, x);
    } else if x == 127 {
      WrappedTwice(negative, w);
    } else if 0 <= x {
      UpLonger(1, x + 1, 127);
      WrappedTwice(negative, w);
    }
  }

  /** The result depends on the sign and the integer part of the value alone. */
  lemma FixTiIs(f: Format, a: nat)
    requires Supported(f) && Pattern(f, a)
    ensures FixTi(f, a) == FromWhole(Negative(f, a), Whole(f, a))
  {
    var s := f.significandBits;
    FieldsAre(f, a);
    WholeIs(f, a);
    ConvertIs(s, Negative(f, a), Exponent(f, a) - Bias(f), Up(1, s) + Mantissa(f, a), Whole(f, a));
  }

  // ---------------------------------------------------------------------------------------
  // What it should be, and when it is
  // ---------------------------------------------------------------------------------------

  /** The value truncated toward zero, or the nearest integer of the type. */
  function Saturated(negative: bool, w: nat): int {
    if negative then (if w <= HALF then 0 - w else -HALF)
    else if w < HALF then w
    else HALF - 1
  }

  /** The conversion truncates and saturates, except for the magnitudes from 2^127 up to 2^128:
      those have unbiased exponent 127, and of them only -2^127 is converted as it should be. */
  lemma FixTiExactly(f: Format, a: nat)
    requires Supported(f) && Pattern(f, a)
    ensures FixTi(f, a) == Saturated(Negative(f, a), Whole(f, a))
      <==> Exponent(f, a) != Bias(f) + 127 || (Negative(f, a) && Mantissa(f, a) == 0)
  {
    var s, x, w := f.significandBits, Exponent(f, a) - Bias(f), Whole(f, a);
    FixTiIs(f, a);
    WholeIs(f, a);
    HalfIs();
    if x > 127 {
      UpLonger(1, 128, x);
    } else if 0 <= x < 127 {
      UpLonger(1, x + 1, 127);
    } else if x == 127 {
      UpSum(Up(1, s), Mantissa(f, a), 127 - s);
      UpUp(1, s, 127 - s);
      UpZero(127 - s);
      if Mantissa(f, a) > 0 {
        UpGrows(0, Mantissa(f, a), 127 - s);
      }
    }
  }

  /** At the excepted exponent the sign comes out wrong: 2^127 becomes -2^127. */
  lemma SignFlips(f: Format, a: nat)
    requires Supported(f) && Pattern(f, a) && Exponent(f, a) == Bias(f) + 127
    ensures !Negative(f, a) ==> FixTi(f, a) < 0
    ensures Negative(f, a) && Mantissa(f, a) != 0 ==> FixTi(f, a) > 0
  {
    FixTiExactly(f, a);
    FixTiIs(f, a);
    WholeIs(f, a);
    HalfIs();
  }

  /** The pattern of 2^127, in every format, is converted to -2^127. */
  lemma PowerFlips(f: Format)
    requires Supported(f)
    ensures
      var a := Up(Bias(f) + 127, f.significandBits);
      && Pattern(f, a) && !Negative(f, a) && Whole(f, a) == HALF
      && FixTi(f, a) == -HALF && Saturated(Negative(f, a), Whole(f, a)) == HALF - 1
  {
    var s, e, x := f.significandBits, f.exponentBits, Bias(f) + 127;
    var a := Up(x, s);
    BiasIs(f);
    BiasIsLarge(f);
    UpGrows(0, 1, s);
    Splits(x, 0, s);
    Fits(x, e);
    DownDown(a, s, e);
    DownBounds(a, 1, s + e);
    UpLonger(1, s + e, s + e + 1);
    WholeIs(f, a);
    UpUp(1, s, 127 - s);
    HalfIs();
    FixTiIs(f, a);
  }

  lemma BiasIsLarge(f: Format)
    requires Supported(f)
    ensures Bias(f) >= 127 && Bias(f) + 127 < Up(1, f.exponentBits)
  {
    BiasIs(f);
    UpLonger(1, 7, f.exponentBits - 1);
    UpUp(1, 4, 3);
    UpSmall(1);
    assert Up(16, 3) == 128;
  }

  /** Infinities and NaNs go to the end of the range that their sign says. */
  lemma NotFinite(f: Format, a: nat)
    requires Supported(f) && Pattern(f, a) && !Finite(f, a)
    ensures FixTi(f, a) == if Negative(f, a) then -HALF else HALF - 1
  {
    BiasIs(f);
    BiasIsLarge(f);
    Rejoins(Down(a, f.significandBits), f.exponentBits);
    WholeIs(f, a);
    FixTiIs(f, a);
    HalfIs();
    UpLonger(1, 128, Exponent(f, a) - Bias(f));
  }

  /** The same value in another format is converted to the same integer. */
  lemma WidthsAgree(f: Format, a: nat, g: Format, b: nat)
    requires Supported(f) && Pattern(f, a) && Supported(g) && Pattern(g, b)
    requires Up(Magnitude(f, a), UnitBits(g)) == Up(Magnitude(g, b), UnitBits(f))
    requires Negative(f, a) == Negative(g, b) || Magnitude(f, a) == 0
    ensures FixTi(f, a) == FixTi(g, b)
  {
    var i, j := UnitBits(f), UnitBits(g);
    DownUp(Magnitude(f, a), j, i + j);
    DownUp(Magnitude(g, b), i, i + j);
    FixTiIs(f, a);
    FixTiIs(g, b);
    if Magnitude(f, a) == 0 {
      UpZero(i);
      OnesAre(i);
      Fits(0, i);
    }
  }

  lemma Powers()
    ensures Up(1, 8) == 0x100 && Up(1, 11) == 0x800 && Up(1, 32) == 0x1_0000_0000 && Up(1, 64) == 0x1_0000_0000_0000_0000
  {
    UpSmall(1);
    UpSmall(16);
    UpUp(1, 4, 4);
    UpUp(1, 8, 3);
    assert Up(0x100, 3) == 0x800;
    Squares(8, 0x100);
    Squares(16, 0x1_0000);
    Squares(32, 0x1_0000_0000);
  }

  lemma Squares(n: nat, p: nat)
    requires Up(1, n) == p
    ensures Up(1, 2 * n) == p * p
  {
    UpUp(1, n, n);
    UpIsProduct(p, n);
  }

  lemma {:induction false} UpIsProduct(x: nat, n: nat)
    ensures Up(x, n) == x * Up(1, n)
  {
    if n > 0 {
      UpIsProduct(x, n - 1);
    }
  }

  /** Single and double precision: the widths, the biases, and the pattern of 2. */
  lemma FormatsAreSupported()
    ensures Supported(SINGLE) && Bias(SINGLE) == 127 && forall a: nat :: Pattern(SINGLE, a) <==> a < 0x1_0000_0000
    ensures Supported(DOUBLE) && Bias(DOUBLE) == 1023 && forall a: nat :: Pattern(DOUBLE, a) <==> a < 0x1_0000_0000_0000_0000
  {
    Powers();
    BiasIs(SINGLE);
    BiasIs(DOUBLE);
  }

  /** The pattern of 2.0 in a format. */
  lemma TwoConverts(f: Format)
    requires Supported(f)
    ensures Pattern(f, Up(Bias(f) + 1, f.significandBits)) && FixTi(f, Up(Bias(f) + 1, f.significandBits)) == 2
  {
    var s, x := f.significandBits, Bias(f) + 1;
    BiasIsLarge(f);
    UpGrows(0, 1, s);
    UpZero(f.exponentBits);
    FieldsRead(f, 0, x, 0);
    WholeIs(f, Up(x, s));
    UpUp(1, 1, s - 1);
    assert Up(1, 1) == 2;
    DownUp(2, s - 1, s - 1);
    FixTiIs(f, Up(x, s));
  }

  lemma TwoWords()
    ensures Up(128, 23) == 0x4000_0000 && Up(1024, 52) == 0x4000_0000_0000_0000
  {
    Powers();
    UpUp(1, 7, 23);
    UpUp(1, 10, 52);
    assert Up(1, 8) == 2 * Up(1, 7) && Up(1, 11) == 2 * Up(1, 10);
    UpUp(1, 30, 2);
    UpUp(1, 62, 2);
    assert Up(Up(1, 30), 2) == 4 * Up(1, 30) && Up(Up(1, 62), 2) == 4 * Up(1, 62);
  }

  /** So 0x40000000 and 0x4000000000000000 are converted to 2. */
  lemma FormatsConvertTwo()
    ensures Pattern(SINGLE, 0x4000_0000) && FixTi(SINGLE, 0x4000_0000) == 2
    ensures Pattern(DOUBLE, 0x4000_0000_0000_0000) && FixTi(DOUBLE, 0x4000_0000_0000_0000) == 2
  {
    FormatsAreSupported();
    TwoConverts(SINGLE);
    TwoConverts(DOUBLE);
    TwoWords();
  }
}
