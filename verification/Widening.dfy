/** Single and double precision convert alike (libraries/builtins/fixsfti.c and fixdfti.c): the
    exact widening of a pattern to a larger format. */
module Widening {

  import opened Bits
  import opened SoftFloat

  /** Every finite value of `f`, also a subnormal one, is a normal value of `g`. */
  predicate Wider(f: Format, g: Format) {
    && Supported(f) && Supported(g)
    && f.significandBits <= g.significandBits
    && Bias(f) + f.significandBits <= Bias(g)
  }

  function Fields(g: Format, sign: nat, x: nat, m: nat): nat {
    Up(Up(sign, g.exponentBits) + x, g.significandBits) + m
  }

  /** The same sign and value: zero stays zero, a subnormal value is normalised, a normal one gets
      the other bias, and the largest exponent stays the largest. */
  function WidenFields(f: Format, g: Format, sign: nat, x: nat, m: nat): nat
    requires Wider(f, g) && m < Up(1, f.significandBits)
  {
    var more := g.significandBits - f.significandBits;
    if x == 0 && m == 0 then Fields(g, sign, 0, 0)
    else if x == 0 then
      LengthFits(m, f.significandBits);
      var l := BitLength(m) - 1;
      Fields(g, sign, Bias(g) - Bias(f) - f.significandBits + l + 1, Low(Up(m, g.significandBits - l), g.significandBits))
    else if x == Ones(f.exponentBits) then Fields(g, sign, Ones(g.exponentBits), Up(m, more))
    else Fields(g, sign, x + Bias(g) - Bias(f), Up(m, more))
  }

  function Widen(f: Format, g: Format, a: nat): nat
    requires Wider(f, g) && Pattern(f, a)
  {
    FieldBounds(f, a);
    WidenFields(f, g, Down(a, f.significandBits + f.exponentBits), Exponent(f, a), Mantissa(f, a))
  }

  lemma {:induction false} LengthFits(m: nat, s: nat)
    requires m < Up(1, s)
    ensures BitLength(m) <= s
  {
    if m > 0 && s > 0 {
      LengthFits(m / 2, s - 1);
    }
  }

  /** The exact values of a pattern of `f` and one of `g` are the same: their signs are, and so are
      their magnitudes in a common unit. */
  predicate SameValue(f: Format, a: nat, g: Format, b: nat)
    requires Supported(f) && Supported(g)
  {
    Negative(f, a) == Negative(g, b) && Up(Magnitude(f, a), UnitBits(g)) == Up(Magnitude(g, b), UnitBits(f))
  }

  lemma SignIsOneBit(f: Format, a: nat)
    requires Pattern(f, a)
    ensures Down(a, f.significandBits + f.exponentBits) < 2
  {
    var n := f.significandBits + f.exponentBits;
    UpUp(1, 1, n);
    assert Up(1, 1) == 2;
    DownBounds(a, 2, n);
  }

  /** What the fields of a pattern are, and how large they can be. */
  lemma FieldBounds(f: Format, a: nat)
    requires Supported(f) && Pattern(f, a)
    ensures Mantissa(f, a) < Up(1, f.significandBits)
    ensures Exponent(f, a) <= Ones(f.exponentBits) == 2 * Bias(f) + 1
    ensures Finite(f, a) <==> Exponent(f, a) != Ones(f.exponentBits)
  {
    Rejoins(a, f.significandBits);
    Rejoins(Down(a, f.significandBits), f.exponentBits);
    OnesAre(f.exponentBits);
    BiasIs(f);
    OnesAre(f.exponentBits - 1);
  }

  /** What a pattern of `g` must be to have the value of the fields of a finite pattern of `f`. */
  predicate Widened(f: Format, g: Format, sign: nat, x: nat, m: nat, b: nat)
    requires Supported(f) && Supported(g)
  {
    && Pattern(g, b) && Finite(g, b) && Negative(g, b) == (sign == 1)
    && Up(if x == 0 then m else Up(Up(1, f.significandBits) + m, x - 1), UnitBits(g)) == Up(Magnitude(g, b), UnitBits(f))
  }

  lemma ZeroWidens(f: Format, g: Format, sign: nat)
    requires Wider(f, g) && sign < 2
    ensures Widened(f, g, sign, 0, 0, Fields(g, sign, 0, 0))
  {
    UpGrows(0, 1, g.exponentBits);
    UpGrows(0, 1, g.significandBits);
    FieldsRead(g, sign, 0, 0);
    UpZero(UnitBits(f));
    UpZero(UnitBits(g));
    UpLonger(1, 1, g.exponentBits);
  }

  /** A larger bias leaves room above. */
  lemma ExponentFits(f: Format, g: Format, x: nat)
    requires Wider(f, g) && x <= Bias(g) + Bias(f)
    ensures x + 1 < Up(1, g.exponentBits)
  {
    BiasIs(g);
  }

  /** Shifting the digits up and lowering the exponent by as much changes nothing. */
  lemma Renormalised(m: nat, i: nat, x: nat, u: nat, x': nat, u': nat)
    requires x + u == i + x' + u'
    ensures Up(Up(m, x), u) == Up(Up(Up(m, i), x'), u')
  {
    UpUp(m, x, u);
    UpThrice(m, i, x', u');
  }

  lemma UpThrice(m: nat, i: nat, j: nat, k: nat)
    ensures Up(Up(Up(m, i), j), k) == Up(m, i + j + k)
  {
    UpUp(m, i, j);
    UpUp(m, i + j, k);
  }

  lemma NormalWidens(f: Format, g: Format, sign: nat, x: nat, m: nat)
    requires Wider(f, g) && sign < 2 && 0 < x <= 2 * Bias(f) && m < Up(1, f.significandBits)
    ensures Widened(f, g, sign, x, m, Fields(g, sign, x + Bias(g) - Bias(f), Up(m, g.significandBits - f.significandBits)))
  {
    var s, more := f.significandBits, g.significandBits - f.significandBits;
    var x' := x + Bias(g) - Bias(f);
    ExponentFits(f, g, x');
    MantissaFits(m, s, more);
    FieldsRead(g, sign, x', Up(m, more));
    BiasIs(f);
    BiasIs(g);
    SumUp(m, s, more);
    Renormalised(Up(1, s) + m, more, x - 1, UnitBits(g), x' - 1, UnitBits(f));
  }

  lemma MantissaFits(m: nat, s: nat, more: nat)
    requires m < Up(1, s)
    ensures Up(m, more) < Up(1, s + more)
  {
    UpGrows(m, Up(1, s), more);
    UpUp(1, s, more);
  }

  lemma SumUp(m: nat, s: nat, more: nat)
    ensures Up(Up(1, s) + m, more) == Up(1, s + more) + Up(m, more)
  {
    UpSum(Up(1, s), m, more);
    UpUp(1, s, more);
  }

  /** Shifted up so that its highest digit is at `t`, a number is that digit and the rest. */
  lemma TopDigit(m: nat, l: nat, t: nat)
    requires Up(1, l) <= m < Up(1, l + 1) && l <= t
    ensures Up(1, t) + Low(Up(m, t - l), t) == Up(m, t - l) && Low(Up(m, t - l), t) < Up(1, t)
  {
    ShiftedSignificand(m, l, t);
    Splits(1, Up(m, t - l) - Up(1, t), t);
  }

  /** A subnormal magnitude, with its highest digit at `l`, becomes a normal one. */
  lemma SubnormalWidens(f: Format, g: Format, sign: nat, m: nat, l: nat)
    requires Wider(f, g) && sign < 2 && l < f.significandBits && Up(1, l) <= m < Up(1, l + 1)
    ensures
      var t := g.significandBits;
      Widened(f, g, sign, 0, m, Fields(g, sign, Bias(g) - Bias(f) - f.significandBits + l + 1, Low(Up(m, t - l), t)))
  {
    var t, x := g.significandBits, Bias(g) - Bias(f) - f.significandBits + l + 1;
    BiasIs(f);
    ExponentFits(f, g, x);
    TopDigit(m, l, t);
    FieldsRead(g, sign, x, Low(Up(m, t - l), t));
    SubnormalValue(f, g, m, l);
  }

  lemma FiniteWidens(f: Format, g: Format, sign: nat, x: nat, m: nat)
    requires Wider(f, g) && sign < 2 && x < Ones(f.exponentBits) == 2 * Bias(f) + 1 && m < Up(1, f.significandBits)
    ensures Widened(f, g, sign, x, m, WidenFields(f, g, sign, x, m))
  {
    if x > 0 {
      NormalWidens(f, g, sign, x, m);
    } else if m > 0 {
      SubnormalFields(f, g, sign, m, BitLength(m) - 1);
    } else {
      ZeroWidens(f, g, sign);
    }
  }

  lemma SubnormalFields(f: Format, g: Format, sign: nat, m: nat, l: int)
    requires Wider(f, g) && sign < 2 && 0 < m < Up(1, f.significandBits) && l == BitLength(m) - 1
    ensures
      var t := g.significandBits;
      && 0 <= l < f.significandBits <= t
      && Widened(f, g, sign, 0, m, Fields(g, sign, Bias(g) - Bias(f) - f.significandBits + l + 1, Low(Up(m, t - l), t)))
  {
    BitLengthIs(m);
    LengthFits(m, f.significandBits);
    SubnormalWidens(f, g, sign, m, l);
  }

  lemma SubnormalValue(f: Format, g: Format, m: nat, l: nat)
    requires Wider(f, g) && l < f.significandBits
    ensures Up(m, UnitBits(g)) == Up(Up(Up(m, g.significandBits - l), Bias(g) - Bias(f) - f.significandBits + l), UnitBits(f))
  {
    BiasIs(f);
    BiasIs(g);
    UpThrice(m, g.significandBits - l, Bias(g) - Bias(f) - f.significandBits + l, UnitBits(f));
  }

  lemma LargestWidens(f: Format, g: Format, sign: nat, m: nat)
    requires Wider(f, g) && sign < 2 && m < Up(1, f.significandBits)
    ensures
      var more := g.significandBits - f.significandBits;
      var b := Fields(g, sign, Ones(g.exponentBits), Up(m, more));
      Pattern(g, b) && !Finite(g, b) && Negative(g, b) == (sign == 1) && (Mantissa(g, b) == 0 <==> m == 0)
  {
    var more := g.significandBits - f.significandBits;
    OnesAre(g.exponentBits);
    MantissaFits(m, f.significandBits, more);
    FieldsRead(g, sign, Ones(g.exponentBits), Up(m, more));
    UpZero(more);
    if m != 0 {
      UpGrows(0, m, more);
    }
  }

  /** Widening is exact: a pattern of `g` with the same value, or the same kind of infinity or NaN. */
  lemma WidenIsExact(f: Format, g: Format, a: nat)
    requires Wider(f, g) && Pattern(f, a)
    ensures
      var b := Widen(f, g, a);
      && Pattern(g, b)
      && (Finite(f, a) <==> Finite(g, b))
      && Negative(f, a) == Negative(g, b)
      && (Finite(f, a) ==> SameValue(f, a, g, b))
      && (!Finite(f, a) ==> (Mantissa(f, a) == 0 <==> Mantissa(g, b) == 0))
  {
    var sign := Down(a, f.significandBits + f.exponentBits);
    SignIsOneBit(f, a);
    FieldBounds(f, a);
    if Finite(f, a) {
      FiniteWidens(f, g, sign, Exponent(f, a), Mantissa(f, a));
    } else {
      BiasIs(f);
      LargestWidens(f, g, sign, Mantissa(f, a));
    }
  }

  /** Every pattern converts to the same integer as its widening. */
  lemma WidenedConvertsAlike(f: Format, g: Format, a: nat)
    requires Wider(f, g) && Pattern(f, a)
    ensures Pattern(g, Widen(f, g, a)) && FixTi(f, a) == FixTi(g, Widen(f, g, a))
  {
    WidenIsExact(f, g, a);
    if Finite(f, a) {
      WidthsAgree(f, a, g, Widen(f, g, a));
    } else {
      NotFinite(f, a);
      NotFinite(g, Widen(f, g, a));
    }
  }

  /** So every single, also a subnormal one, an infinity or a NaN, converts as the double does. */
  lemma SingleConvertsAsDouble(a: nat)
    requires Pattern(SINGLE, a)
    ensures Wider(SINGLE, DOUBLE) && Pattern(DOUBLE, Widen(SINGLE, DOUBLE, a))
    ensures FixTi(SINGLE, a) == FixTi(DOUBLE, Widen(SINGLE, DOUBLE, a))
  {
    FormatsAreSupported();
    WidenedConvertsAlike(SINGLE, DOUBLE, a);
  }
}
