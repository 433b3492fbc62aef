/** Conversion from 128-bit integers to floating point (libraries/builtins/floattidf.c). */
module IntToFloat {

  import opened Bits
  import opened SoftFloat

  /** `x` without its low `k` bits, rounded to the nearest, and to the even one of two. */
  function HalfEven(x: nat, k: nat): nat
    requires k > 0
  {
    var q, r, half := Down(x, k), Low(x, k), Up(1, k - 1);
    if r < half || (r == half && q % 2 == 0) then q else q + 1
  }

  /** `x` rounded to `d` significant digits. */
  function Rounded(x: nat, d: nat): nat {
    var length := BitLength(x);
    if length <= d then x else Up(HalfEven(x, length - d), length - d)
  }

  function Distance(a: nat, b: nat): nat {
    if a <= b then b - a else a - b
  }

  /** Of two neighbours, the nearer one is at least as near as anything further out. */
  lemma NearerNeighbour(low: nat, r: nat, half: nat, v: nat, q: nat, c: nat, taken: nat)
    requires r < 2 * half
    requires v + 2 * half <= low || (c == q && v == low) || (c == q + 1 && v == low + 2 * half) || low + 4 * half <= v
    requires (r < half ==> taken == q) && (half < r ==> taken == q + 1) && (r == half ==> taken % 2 == 0)
    ensures
      var d, far := if r <= half then r else 2 * half - r, Distance(v, low + r);
      d <= far && (d == far ==> c == taken || taken % 2 == 0)
  {
  }

  /** The multiples of 2^k around `x`. */
  lemma Multiples(x: nat, k: nat, c: nat)
    requires k > 0
    ensures
      var q, v, half := Down(x, k), Up(c, k), Up(1, k - 1);
      var low := Up(q, k);
      && x == low + Low(x, k) && Low(x, k) < 2 * half && Up(q + 1, k) == low + 2 * half
      && (v + 2 * half <= low || (c == q && v == low) || (c == q + 1 && v == low + 2 * half) || low + 4 * half <= v)
  {
    var q := Down(x, k);
    Rejoins(x, k);
    UpSum(q, 1, k);
    UpSum(q + 1, 1, k);
    if c < q {
      UpMonotone(c + 1, q, k);
      UpSum(c, 1, k);
    } else if c > q + 1 {
      UpMonotone(q + 2, c, k);
    }
  }

  lemma TakenIs(x: nat, k: nat)
    requires k > 0
    ensures
      var q, r, half, taken := Down(x, k), Low(x, k), Up(1, k - 1), HalfEven(x, k);
      && (r == half ==> taken % 2 == 0)
      && (r < half ==> taken == q)
      && (half < r ==> taken == q + 1)
      && Distance(Up(taken, k), x) == if r <= half then r else 2 * half - r
  {
    Multiples(x, k, 0);
  }

  lemma RoundedStays(x: nat, k: nat)
    requires k > 0
    ensures Up(HalfEven(x, k), k) == x <==> Low(x, k) == 0
  {
    TakenIs(x, k);
    Multiples(x, k, 0);
    UpGrows(0, 1, k - 1);
  }

  /** No multiple of 2^k is nearer, and if another is as near, the one taken is even. */
  lemma NearestMultiple(x: nat, k: nat, c: nat)
    requires k > 0
    ensures Distance(Up(HalfEven(x, k), k), x) <= Distance(Up(c, k), x)
    ensures Distance(Up(HalfEven(x, k), k), x) == Distance(Up(c, k), x) ==> c == HalfEven(x, k) || HalfEven(x, k) % 2 == 0
  {
    Multiples(x, k, c);
    TakenIs(x, k);
    NearerNeighbour(Up(Down(x, k), k), Low(x, k), Up(1, k - 1), Up(c, k), Down(x, k), c, HalfEven(x, k));
  }

  // ---------------------------------------------------------------------------------------
  // The source's rounding: two more bits, a sticky bit, and one addition
  // ---------------------------------------------------------------------------------------

  /** The first step: the digits to keep, and two bits P and R that stand for the others. */
  function TwoMoreBits(x: nat, k: nat): nat
    requires k > 0
  {
    if k == 1 then Up(x, 1)
    else if k == 2 then x
    else Or(Down(x, k - 2), if Low(x, k - 2) != 0 then 1 else 0)
  }

  lemma OrOne(y: nat)
    ensures Or(y, 1) == y - y % 2 + 1 && Or(y, 0) == y
  {
    assert y > 0 ==> Or(y / 2, 0) == y / 2;
  }

  /** The two bits tell the dropped part from one half. */
  lemma TwoBitsCompare(x: nat, k: nat)
    requires k > 0
    ensures
      var m, r, half := TwoMoreBits(x, k), Low(x, k), Up(1, k - 1);
      && m / 4 == Down(x, k)
      && (m % 4 < 2 <==> r < half)
      && (m % 4 == 2 <==> r == half)
  {
    if k <= 2 {
      FewBitsCompare(x);
    } else {
      StickyCompares(x, k - 2);
    }
  }

  lemma FewBitsCompare(x: nat)
    ensures Up(x, 1) / 4 == Down(x, 1) && x / 4 == Down(x, 2)
    ensures (Up(x, 1) % 4 < 2 <==> Low(x, 1) < Up(1, 0)) && (Up(x, 1) % 4 == 2 <==> Low(x, 1) == Up(1, 0))
    ensures (x % 4 < 2 <==> Low(x, 2) < Up(1, 1)) && (x % 4 == 2 <==> Low(x, 2) == Up(1, 1))
  {
    DownSmall(x);
    assert Up(x, 1) == 2 * x && Up(1, 1) == 2 && Up(1, 0) == 1;
  }

  lemma StickyCompares(x: nat, j: nat)
    ensures
      var m, r, half := Or(Down(x, j), if Low(x, j) != 0 then 1 else 0), Low(x, j + 2), Up(1, j + 1);
      && m / 4 == Down(x, j + 2)
      && (m % 4 < 2 <==> r < half)
      && (m % 4 == 2 <==> r == half)
  {
    var y, z := Down(x, j), Low(x, j);
    DownDown(x, j, 2);
    DownSmall(y);
    DownLow(x, j, 2);
    Rejoins(x, j);
    Rejoins(Low(x, j + 2), j);
    Compare(y % 4, z, j, Low(x, j + 2));
    OrOne(y);
  }

  lemma Compare(u: nat, z: nat, j: nat, r: nat)
    requires z < Up(1, j) && r == Up(u, j) + z && u < 4
    ensures Up(1, j + 1) == 2 * Up(1, j)
    ensures r < Up(1, j + 1) <==> u < 2
    ensures r == Up(1, j + 1) <==> u == 2 && z == 0
  {
    UpSum(1, 1, j);
    UpSum(2, 1, j);
    UpZero(j);
  }

  /** Or-ing the lowest kept bit into R and adding one rounds half to even. */
  lemma AddingOneRounds(x: nat, k: nat)
    requires k > 0
    ensures
      var m := TwoMoreBits(x, k);
      Down(Or(m, if And(m, 4) != 0 then 1 else 0) + 1, 2) == HalfEven(x, k)
  {
    var m := TwoMoreBits(x, k);
    TwoBitsCompare(x, k);
    OrOne(m);
    AndFour(m);
    var n := Or(m, if And(m, 4) != 0 then 1 else 0) + 1;
    DownSmall(n);
  }

  lemma AndFour(m: nat)
    ensures And(m, 4) != 0 <==> m / 4 % 2 == 1
  {
    assert Up(1, 2) == 4;
    AndHigh(m, 1, 2);
    DownSmall(m);
    var d := m / 4;
    assert And(d, 1) == d % 2;
    assert Up(d % 2, 2) == 4 * (d % 2);
  }

  /** `m` has `d` digits and stands, with its last digit at bit `e + 1 - d`, for `x` rounded. */
  ghost predicate RoundedTo(x: nat, d: nat, m: nat, e: nat)
    requires 0 < d
  {
    && Up(1, d - 1) <= m < Up(1, d)
    && (if d <= e + 1 then Rounded(x, d) == Up(m, e + 1 - d) else m == Up(Rounded(x, d), d - 1 - e))
    && Up(1, e) <= Rounded(x, d) < Up(1, e + 1)
  }

  /** Rounding keeps the number of digits or, past the largest, goes to the next power of two. */
  lemma HalfEvenFits(x: nat, d: nat)
    requires 0 < d < BitLength(x)
    ensures Up(1, d - 1) <= HalfEven(x, BitLength(x) - d) <= Up(1, d)
  {
    BitLengthIs(x);
    ShiftedSignificand(x, BitLength(x) - 1, d - 1);
  }

  /** The three cases of the source's switch (lines 45-55). */
  method DropDigits(x: nat, d: nat, sd: nat) returns (m: nat)
    requires 0 < d < sd <= 128
    ensures m == TwoMoreBits(x, sd - d)
  {
    m := x;
    if sd == d + 1 {
      m := Up(m, 1);
    } else if sd == d + 2 {
    } else {
      DownOnes(sd - (d + 2), 128 + d + 2 - sd);
      AndLow(m, sd - (d + 2));
      var rest := And(m, Down(Ones(128), 128 + d + 2 - sd));
      m := Or(Down(m, sd - (d + 2)), if rest != 0 then 1 else 0);
    }
  }

  /** The source's steps from the magnitude to the rounded digits and the exponent. */
  method RoundDigits(x: nat, d: nat) returns (m: nat, e: nat)
    requires 0 < x && 0 < d && BitLength(x) <= 128
    ensures RoundedTo(x, d, m, e)
  {
    var sd := BitLength(x);
    e := sd - 1;
    if sd > d {
      m := DropDigits(x, d, sd);
      AddingOneRounds(x, sd - d);
      m := Or(m, if And(m, 4) != 0 then 1 else 0);
      m := m + 1;
      m := Down(m, 2);
      HalfEvenFits(x, d);
      CarryOut(m, d);
      if And(m, Up(1, d)) != 0 {
        m := Down(m, 1);
        e := e + 1;
      }
      RoundedDigits(x, d, m, e);
    } else {
      m := Up(x, d - sd);
      ShortDigits(x, d, e);
    }
  }

  /** The carry shows in bit `d`, and then nothing else does. */
  lemma CarryOut(m: nat, d: nat)
    requires 0 < d && m <= Up(1, d)
    ensures And(m, Up(1, d)) != 0 <==> m == Up(1, d)
    ensures Down(Up(1, d), 1) == Up(1, d - 1)
  {
    UpGrows(1, 2, d);
    UpUp(1, 1, d);
    TopBit(m, d);
    DownBounds(m, 1, d);
    DownSmall(Up(1, d));
  }

  lemma RoundedDigits(x: nat, d: nat, m: nat, e: nat)
    requires 0 < d < BitLength(x)
    requires
      var taken, l := HalfEven(x, BitLength(x) - d), BitLength(x);
      if taken == Up(1, d) then m == Up(1, d - 1) && e == l else m == taken && e == l - 1
    ensures RoundedTo(x, d, m, e)
  {
    HalfEvenFits(x, d);
    UpGrows(0, 1, d - 1);
    ShiftedSignificand(m, d - 1, e);
    UpUp(1, d, BitLength(x) - d);
    UpUp(1, d - 1, e + 1 - d);
  }

  lemma ShortDigits(x: nat, d: nat, e: nat)
    requires BitLength(x) == e + 1 <= d
    ensures RoundedTo(x, d, Up(x, d - 1 - e), e)
  {
    BitLengthIs(x);
    var m := Up(x, d - 1 - e);
    assert Rounded(x, d) == x;
    ShiftedSignificand(x, e, d - 1);
    assert e + 1 == d ==> m == x;
  }

  // ---------------------------------------------------------------------------------------
  // The bit pattern
  // ---------------------------------------------------------------------------------------

  /** Sign, exponent and mantissa, put together in two halves (lines 73-77). */
  function Assemble(f: Format, negative: bool, m: nat, e: nat): nat
    requires 32 <= f.significandBits
  {
    var h := f.significandBits - 32;
    var sign := Up(if negative then 1 else 0, h + f.exponentBits);
    var high := Or(Or(sign, Up(e + Bias(f), h)), And(Down(m, 32), Ones(h)));
    Up(high, 32) + Low(m, 32)
  }

  lemma HighIs(sign: nat, x: nat, y: nat, h: nat, e: nat)
    requires x < Up(1, e)
    ensures Or(Or(Up(sign, h + e), Up(x, h)), And(y, Ones(h))) == Up(Up(sign, e) + x, h) + Low(y, h)
  {
    AndLow(y, h);
    Rejoins(y, h);
    SignAndExponent(sign, x, h, e);
    OrAdds(Up(sign, e) + x, Low(y, h), h);
  }

  lemma SignAndExponent(sign: nat, x: nat, h: nat, e: nat)
    requires x < Up(1, e)
    ensures Or(Up(sign, h + e), Up(x, h)) == Up(Up(sign, e) + x, h)
  {
    UpGrows(x, Up(1, e), h);
    UpUp(1, e, h);
    OrAdds(sign, Up(x, h), h + e);
    UpSum(Up(sign, e), x, h);
    UpUp(sign, e, h);
  }

  lemma TwoHalves(g: nat, m: nat, h: nat, l: nat)
    ensures Up(Up(g, h) + Low(Down(m, l), h), l) + Low(m, l) == Up(g, h + l) + Low(m, h + l)
  {
    UpSum(Up(g, h), Low(Down(m, l), h), l);
    UpUp(g, h, l);
    DownLow(m, l, h);
    Rejoins(Low(m, h + l), l);
  }

  lemma AssembledWord(f: Format, negative: bool, m: nat, e: nat)
    requires 32 <= f.significandBits && e + Bias(f) < Up(1, f.exponentBits)
    ensures Assemble(f, negative, m, e)
         == Up(Up(if negative then 1 else 0, f.exponentBits) + e + Bias(f), f.significandBits) + Low(m, f.significandBits)
  {
    var sign, h, x := if negative then 1 else 0, f.significandBits - 32, e + Bias(f);
    HighIs(sign, x, Down(m, 32), h, f.exponentBits);
    TwoHalves(Up(sign, f.exponentBits) + x, m, h, 32);
  }

  /** The fields that are put in are the fields that are read. */
  lemma AssembleIs(f: Format, negative: bool, m: nat, e: nat)
    requires 32 <= f.significandBits && e + Bias(f) < Up(1, f.exponentBits)
    ensures
      var w := Assemble(f, negative, m, e);
      && Pattern(f, w)
      && Negative(f, w) == negative
      && Exponent(f, w) == e + Bias(f)
      && Mantissa(f, w) == Low(m, f.significandBits)
  {
    AssembledWord(f, negative, m, e);
    Rejoins(m, f.significandBits);
    FieldsRead(f, if negative then 1 else 0, e + Bias(f), Low(m, f.significandBits));
  }

  // ---------------------------------------------------------------------------------------
  // The whole conversion
  // ---------------------------------------------------------------------------------------

  function Abs(a: int): nat {
    if a < 0 then -a else a
  }

  /** The pattern has the sign of `a` and, exactly, the magnitude of `a` rounded to the format. */
  ghost predicate Converted(f: Format, a: int, w: nat)
    requires Supported(f)
  {
    && Pattern(f, w)
    && Finite(f, w)
    && Negative(f, w) == (a < 0)
    && Magnitude(f, w) == Up(Rounded(Abs(a), f.significandBits + 1), UnitBits(f))
  }

  /** A power of two is not rounded. */
  lemma PowerStays(n: nat, d: nat)
    requires 0 < d <= n
    ensures BitLength(Up(1, n)) == n + 1 && Rounded(Up(1, n), d) == Up(1, n)
  {
    var k := n + 1 - d;
    PowerLength(n);
    UpUp(1, d - 1, k);
    UpGrows(0, 1, k);
    Splits(Up(1, d - 1), 0, k);
    RoundedStays(Up(1, n), k);
  }

  lemma {:induction false} PowerLength(n: nat)
    ensures BitLength(Up(1, n)) == n + 1
  {
    if n > 0 {
      PowerLength(n - 1);
      assert Up(1, n) / 2 == Up(1, n - 1);
    }
  }

  lemma {:induction false} LongerIsLarger(a: nat, b: nat)
    requires a <= b
    ensures BitLength(a) <= BitLength(b)
  {
    if a > 0 {
      LongerIsLarger(a / 2, b / 2);
    }
  }

  lemma RoundedWithinLength(x: nat, d: nat)
    requires 0 < d < BitLength(x)
    ensures Rounded(x, d) <= Up(1, BitLength(x))
  {
    var k := BitLength(x) - d;
    HalfEvenFits(x, d);
    UpMonotone(HalfEven(x, k), Up(1, d), k);
    UpUp(1, d, k);
  }

  /** Rounding does not go beyond a power of two. */
  lemma RoundedAtMost(x: nat, d: nat, n: nat)
    requires 0 < d <= n && x <= Up(1, n)
    ensures BitLength(x) <= n + 1 && Rounded(x, d) <= Up(1, n)
  {
    PowerLength(n);
    LongerIsLarger(x, Up(1, n));
    BitLengthIs(x);
    if BitLength(x) == n + 1 {
      PowerStays(n, d);
    } else if d < BitLength(x) {
      RoundedWithinLength(x, d);
      UpLonger(1, BitLength(x), n);
    }
  }

  /** The significand of the pattern is the rounded digits. */
  lemma AssembledMagnitude(f: Format, x: nat, m: nat, e: nat, w: nat)
    requires Supported(f) && RoundedTo(x, f.significandBits + 1, m, e)
    requires Exponent(f, w) == e + Bias(f) && Mantissa(f, w) == Low(m, f.significandBits)
    ensures Magnitude(f, w) == Up(Rounded(x, f.significandBits + 1), UnitBits(f))
  {
    var s, u := f.significandBits, UnitBits(f);
    BiasIs(f);
    Splits(1, m - Up(1, s), s);
    if s <= e {
      UpUp(m, e - s, u);
    } else {
      UpUp(Rounded(x, s + 1), s - e, e + Bias(f) - 1);
    }
  }

  lemma ExponentFits(f: Format, e: nat)
    requires Supported(f) && Up(1, e) <= HALF
    ensures e + Bias(f) + 1 < Up(1, f.exponentBits)
  {
    BiasIs(f);
    BiasIsLarge(f);
    HalfIs();
    if e > 127 {
      UpLonger(1, 128, e);
    }
  }

  /** Every 128-bit integer is converted to a finite pattern of its rounded value. */
  method FloatTi(f: Format, a: int) returns (w: nat)
    requires Supported(f) && 32 <= f.significandBits
    requires -HALF <= a < HALF
    ensures Converted(f, a, w)
  {
    if a == 0 {
      ZeroConverted(f);
      return 0;
    }
    var x := Abs(a);
    HalfIs();
    RoundedAtMost(x, f.significandBits + 1, 127);
    var m, e := RoundDigits(x, f.significandBits + 1);
    ExponentFits(f, e);
    AssembleIs(f, a < 0, m, e);
    w := Assemble(f, a < 0, m, e);
    AssembledMagnitude(f, x, m, e, w);
  }

  lemma ZeroConverted(f: Format)
    requires Supported(f)
    ensures Converted(f, 0, 0)
  {
    var s, e := f.significandBits, f.exponentBits;
    UpGrows(0, 1, s + e + 1);
    UpGrows(0, 1, s + e);
    UpGrows(0, 1, s);
    Fits(0, s);
    Fits(0, s + e);
    LowZero(e);
    UpZero(UnitBits(f));
    UpLonger(1, 1, e);
  }

  // ---------------------------------------------------------------------------------------
  // It is correctly rounded, and undone by the conversion back exactly where it can be
  // ---------------------------------------------------------------------------------------

  /** How far a pattern's value is from `a`, in the units of magnitudes. */
  ghost function Error(f: Format, a: int, b: nat): nat
    requires Supported(f)
  {
    var x, m := Up(Abs(a), UnitBits(f)), Magnitude(f, b);
    if Negative(f, b) == (a < 0) then Distance(m, x) else m + x
  }

  /** A pattern whose value has at least as many digits as `x` is a multiple of what was dropped. */
  lemma LargeIsMultiple(f: Format, b: nat, l: nat) returns (c: nat)
    requires Supported(f) && f.significandBits + 1 < l
    requires Up(1, l - 1 + UnitBits(f)) <= Magnitude(f, b)
    ensures Magnitude(f, b) == Up(c, l - f.significandBits - 1 + UnitBits(f))
  {
    var s, u, e, g := f.significandBits, UnitBits(f), Exponent(f, b), Up(1, f.significandBits) + Mantissa(f, b);
    Rejoins(b, s);
    var k := l - s - 1 + u;
    if e == 0 || e - 1 < k {
      TooSmall(f, b, l);
      assert false;
    }
    c := Up(g, e - 1 - k);
    UpUp(g, e - 1 - k, k);
  }

  lemma TooSmall(f: Format, b: nat, l: nat)
    requires Supported(f) && f.significandBits + 1 < l
    requires Exponent(f, b) == 0 || Exponent(f, b) - 1 < l - f.significandBits - 1 + UnitBits(f)
    ensures Magnitude(f, b) < Up(1, l - 1 + UnitBits(f))
  {
    var s, e, n := f.significandBits, Exponent(f, b), l - 1 + UnitBits(f);
    Rejoins(b, s);
    if e == 0 {
      UpLonger(1, s, n);
    } else {
      UpGrows(Up(1, s) + Mantissa(f, b), Up(1, s + 1), e - 1);
      UpUp(1, s + 1, e - 1);
      UpLonger(1, s + e, n);
    }
  }

  lemma {:induction false} DistanceUp(a: nat, b: nat, c: nat, j: nat)
    requires Distance(a, b) <= Distance(c, b)
    ensures Distance(Up(a, j), Up(b, j)) <= Distance(Up(c, j), Up(b, j))
  {
    if j > 0 {
      DistanceUp(a, b, c, j - 1);
    }
  }

  /** In units: no multiple of what was dropped is nearer. */
  lemma NoMultipleNearer(x: nat, d: nat, u: nat, c: nat)
    requires 0 < d < BitLength(x)
    ensures Distance(Up(Rounded(x, d), u), Up(x, u)) <= Distance(Up(c, BitLength(x) - d + u), Up(x, u))
  {
    var k := BitLength(x) - d;
    NearestMultiple(x, k, c);
    DistanceUp(Rounded(x, d), x, Up(c, k), u);
    UpUp(c, k, u);
  }

  /** No magnitude of the format is nearer to `x` than `x` rounded. */
  lemma NoMagnitudeNearer(f: Format, x: nat, b: nat)
    requires Supported(f) && f.significandBits + 1 < BitLength(x)
    ensures
      var y := Up(x, UnitBits(f));
      Distance(Up(Rounded(x, f.significandBits + 1), UnitBits(f)), y) <= Distance(Magnitude(f, b), y)
  {
    var l, d, u := BitLength(x), f.significandBits + 1, UnitBits(f);
    if Up(1, l - 1 + u) <= Magnitude(f, b) {
      var c := LargeIsMultiple(f, b, l);
      NoMultipleNearer(x, d, u, c);
    } else {
      NoneSmallerNearer(x, d, u);
    }
  }

  /** No finite pattern of the format is nearer to `a` than the one it is converted to. */
  lemma CorrectlyRounded(f: Format, a: int, w: nat, b: nat)
    requires Supported(f) && Converted(f, a, w)
    ensures Error(f, a, w) <= Error(f, a, b)
  {
    var x, d, u := Abs(a), f.significandBits + 1, UnitBits(f);
    if d < BitLength(x) {
      NoMagnitudeNearer(f, x, b);
      NoneSmallerNearer(x, d, u);
    }
  }

  /** The power of two below `x` is a multiple, and nearer than everything below it. */
  lemma NoneSmallerNearer(x: nat, d: nat, u: nat)
    requires 0 < d < BitLength(x)
    ensures
      var power := Up(1, BitLength(x) - 1 + u);
      power <= Up(x, u) && Distance(Up(Rounded(x, d), u), Up(x, u)) <= Up(x, u) - power
  {
    var l := BitLength(x);
    BitLengthIs(x);
    UpUp(1, l - 1, u);
    UpMonotone(Up(1, l - 1), x, u);
    UpUp(1, d - 1, l - d + u);
    NoMultipleNearer(x, d, u, Up(1, d - 1));
  }

  /** Converting back gives `a` again if and only if rounding did not change it. */
  lemma RoundTripExactly(f: Format, a: int, w: nat)
    requires Supported(f) && -HALF <= a < HALF && Converted(f, a, w)
    ensures FixTi(f, w) == a <==> BitLength(Abs(a)) <= f.significandBits + 1 || Low(Abs(a), BitLength(Abs(a)) - f.significandBits - 1) == 0
  {
    var x, d, u := Abs(a), f.significandBits + 1, UnitBits(f);
    HalfIs();
    RoundedAtMost(x, d, 127);
    FixTiIs(f, w);
    DownUp(Rounded(x, d), u, u);
    if d < BitLength(x) {
      RoundedStays(x, BitLength(x) - d);
    }
  }
}
